/** The functions behind `huffman_tree` (src/huffman_tree.cpp): the byte
    counts of an input, the leaves made from a frequency table in key order,
    the merge passes that turn the working list into one tree, and the code
    table read off the finished tree. */
module CodeTree {
  import opened Common
  import opened CharOrder
  import opened TreeNode

  // ---------------------------------------------------------------------
  // Frequency table

  /** The count of `b` in the table `m`, or 0 where `m` has no entry. */
  function Prior(m: map<Byte, int>, b: Byte): int {
    if b in m then m[b] else 0
  }

  /** The table after counting every byte of `s` into the table `m`. */
  function CountInto(m: map<Byte, int>, s: seq<Byte>): map<Byte, int> {
    map b | b in m || b in s :: Prior(m, b) + multiset(s)[b]
  }

  /** The frequency table of `s`, counted into an empty table. */
  function Frequencies(s: seq<Byte>): map<Byte, int> {
    CountInto(map[], s)
  }

  /** Counting one more byte `c` adds one to the entry of `c`, creating the
      entry with 0 first when it is missing. */
  lemma {:induction false} CountIntoStep(m: map<Byte, int>, s: seq<Byte>, c: Byte)
    ensures CountInto(m, s + [c]) == CountInto(m, s)[c := Prior(CountInto(m, s), c) + 1]
  {
    var lhs, rhs := CountInto(m, s + [c]), CountInto(m, s)[c := Prior(CountInto(m, s), c) + 1];
    assert multiset(s + [c]) == multiset(s) + multiset{c};
    assert forall b :: b in lhs <==> b in rhs;
    forall b | b in lhs
      ensures lhs[b] == rhs[b]
    {
      if b == c && c !in s {
        assert multiset(s)[c] == 0;
      }
    }
  }

  /** One pass of the counting loop over `s`: the entry of `s[i]` goes up by
      one and, while the table stays within the counts of the whole input,
      so does the new entry. */
  lemma {:induction false} CountPrefixStep(m: map<Byte, int>, s: seq<Byte>, i: nat)
    requires i < |s|
    ensures CountInto(m, s[..i + 1]) == CountInto(m, s[..i])[s[i] := Prior(CountInto(m, s[..i]), s[i]) + 1]
    ensures Prior(CountInto(m, s[..i]), s[i]) + 1 <= Prior(m, s[i]) + multiset(s)[s[i]]
  {
    var c := s[i];
    assert s[..i + 1] == s[..i] + [c];
    CountIntoStep(m, s[..i], c);
    assert s == s[..i + 1] + s[i + 1..];
    assert multiset(s) == multiset(s[..i]) + multiset{c} + multiset(s[i + 1..]);
    if c !in m && c !in s[..i] {
      assert multiset(s[..i])[c] == 0;
    }
  }

  /** Each byte of the input is in the table with its number of occurrences,
      and no other byte is. */
  lemma FrequenciesCount(s: seq<Byte>)
    ensures forall b :: b in Frequencies(s) <==> b in s
    ensures forall b :: b in Frequencies(s) ==> Frequencies(s)[b] == multiset(s)[b] >= 1
  {
  }

  /** No byte occurs more often than the input is long. */
  lemma {:induction false} OccurrencesBound(s: seq<Byte>, b: Byte)
    ensures multiset(s)[b] <= |s|
  {
    if s != [] {
      OccurrencesBound(s[1..], b);
      assert s == [s[0]] + s[1..];
      assert multiset(s) == multiset{s[0]} + multiset(s[1..]);
    }
  }

  /** The sum of the values of a list of entries. */
  function SumValues(es: seq<(Byte, int)>): int {
    if es == [] then 0 else es[0].1 + SumValues(es[1..])
  }

  /** The sum of all counts of a frequency table. */
  function TotalFrequency(m: map<Byte, int>): int {
    SumValues(Entries(m))
  }

  /** The occurrences in `s` of each key of `ks`, summed. */
  function CountSum(s: seq<Byte>, ks: seq<Byte>): int {
    if ks == [] then 0 else multiset(s)[ks[0]] + CountSum(s, ks[1..])
  }

  lemma {:induction false} CountSumEmpty(ks: seq<Byte>)
    ensures CountSum([], ks) == 0
  {
    if ks != [] {
      CountSumEmpty(ks[1..]);
    }
  }

  lemma {:induction false} CountSumSnoc(t: seq<Byte>, x: Byte, ks: seq<Byte>)
    requires StrictlyAscending(ks)
    ensures CountSum(t + [x], ks) == CountSum(t, ks) + (if x in ks then 1 else 0)
  {
    if ks != [] {
      assert multiset(t + [x]) == multiset(t) + multiset{x};
      AscendingHead(ks);
      assert StrictlyAscending(ks[1..]) by {
        forall i, j | 0 <= i < j < |ks[1..]|
          ensures Rank(ks[1..][i]) < Rank(ks[1..][j])
        {
          assert ks[1..][i] == ks[i + 1] && ks[1..][j] == ks[j + 1];
        }
      }
      CountSumSnoc(t, x, ks[1..]);
    }
  }

  /** Summing the counts of a sequence over distinct keys that cover every
      byte of it gives its length. */
  lemma {:induction false} CountSumCovers(s: seq<Byte>, ks: seq<Byte>)
    requires StrictlyAscending(ks)
    requires forall x :: x in s ==> x in ks
    ensures CountSum(s, ks) == |s|
  {
    if s == [] {
      CountSumEmpty(ks);
    } else {
      var t, x := s[..|s| - 1], s[|s| - 1];
      assert s == t + [x];
      CountSumCovers(t, ks);
      CountSumSnoc(t, x, ks);
    }
  }

  lemma {:induction false} SumValuesOfCounts(s: seq<Byte>, m: map<Byte, int>, ks: seq<Byte>)
    requires forall k :: k in ks ==> k in m && m[k] == multiset(s)[k]
    ensures SumValues(EntriesOf(m, ks)) == CountSum(s, ks)
  {
    if ks != [] {
      SumValuesOfCounts(s, m, ks[1..]);
    }
  }

  /** Frequency conservation: the counts of the table of `s` add up to the
      number of bytes of `s`. */
  lemma {:induction false} FrequencyConservation(s: seq<Byte>)
    ensures TotalFrequency(Frequencies(s)) == |s|
  {
    var m := Frequencies(s);
    var ks := KeysInOrder(m);
    SumValuesOfCounts(s, m, ks);
    CountSumCovers(s, ks);
  }

  // ---------------------------------------------------------------------
  // Leaves of the working list

  /** One leaf per entry, in entry order: the nodes `build` pushes onto the
      working list. */
  function LeavesOf(es: seq<(Byte, int)>): seq<Tree> {
    seq(|es|, i requires 0 <= i < |es| => Leaf(es[i].0, es[i].1))
  }

  /** The leaves made from the table `m`, in key order. */
  function Leaves(m: map<Byte, int>): seq<Tree> {
    LeavesOf(Entries(m))
  }

  /** The leaves made from some entries carry exactly those entries, and
      their total frequency is the sum of the entries' values. */
  lemma {:induction false} LeavesOfEntries(es: seq<(Byte, int)>)
    ensures ForestLeaves(LeavesOf(es)) == es
    ensures ForestWeight(LeavesOf(es)) == SumValues(es)
    ensures forall i :: 0 <= i < |es| ==> WellFormed(LeavesOf(es)[i])
  {
    if es != [] {
      assert LeavesOf(es)[1..] == LeavesOf(es[1..]);
      LeavesOfEntries(es[1..]);
    }
  }

  /** A non-empty table gives a non-empty list, one leaf per symbol. */
  lemma {:induction false} LeavesCount(m: map<Byte, int>)
    ensures |Leaves(m)| == |m|
  {
    KeysInOrderLength(m);
  }

  /** The leaf at position `i` of the list carries the `i`-th key in key
      order and its frequency. */
  lemma {:induction false} LeafAt(m: map<Byte, int>, i: nat)
    requires i < |KeysInOrder(m)|
    ensures |Leaves(m)| == |KeysInOrder(m)|
    ensures Leaves(m)[i] == Leaf(KeysInOrder(m)[i], m[KeysInOrder(m)[i]])
  {
  }

  // ---------------------------------------------------------------------
  // Merge passes

  /** Pop the two front nodes of `s` as left and right child and push their
      parent at the back. */
  function MergeFront(s: seq<Tree>): (r: seq<Tree>)
    requires |s| >= 2
    ensures |r| == |s| - 1
  {
    s[2..] + [Node(s[0].frequency + s[1].frequency, s[0], s[1])]
  }

  /** One pass of the loop of `build`: sort, then merge the two front
      nodes, so that each pass shrinks the list by exactly one node. */
  function MergeStep(nodes: seq<Tree>): (r: seq<Tree>)
    requires |nodes| >= 2
    ensures |r| == |nodes| - 1
  {
    MergeFront(StableSort(nodes))
  }

  /** A pass written as the loop body of `build` does it: sort, pop the
      left child, pop the right child, push their parent. */
  lemma {:induction false} MergeStepParts(nodes: seq<Tree>)
    requires |nodes| >= 2
    ensures var sorted := StableSort(nodes);
      MergeStep(nodes) == sorted[1..][1..] + [MakeParent(sorted[0], sorted[1..][0])]
  {
    var sorted := StableSort(nodes);
    assert sorted[1..][1..] == sorted[2..];
  }

  /** The tree the loop of `build` leaves as the only node of the list. */
  function BuildFromList(nodes: seq<Tree>): Tree
    requires nodes != []
    decreases |nodes|
  {
    if |nodes| == 1 then nodes[0] else BuildFromList(MergeStep(nodes))
  }

  /** Every parent frequency computed on the way from `nodes` to one tree
      is within the range of `int`. */
  predicate MergeFits(nodes: seq<Tree>)
    requires nodes != []
    decreases |nodes|
  {
    |nodes| == 1 ||
    (var sorted := StableSort(nodes);
     Int32Min <= sorted[0].frequency + sorted[1].frequency <= Int32Max &&
     MergeFits(MergeStep(nodes)))
  }

  /** The tree `build` makes for the table `m` from an empty list. */
  function BuildTree(m: map<Byte, int>): Tree
    requires m != map[]
  {
    LeavesCount(m);
    BuildFromList(Leaves(m))
  }

  lemma {:induction false} ForestFront(s: seq<Tree>)
    requires |s| >= 2
    ensures ForestWeight(s) == s[0].frequency + s[1].frequency + ForestWeight(s[2..])
    ensures ForestLeaves(s) == LeafEntries(s[0]) + LeafEntries(s[1]) + ForestLeaves(s[2..])
  {
    assert s[1..][1..] == s[2..];
  }

  lemma {:induction false} ForestParent(rest: seq<Tree>, parent: Tree)
    requires parent.Node?
    ensures ForestWeight(rest + [parent]) == ForestWeight(rest) + parent.frequency
    ensures ForestLeaves(rest + [parent]) == ForestLeaves(rest) + LeafEntries(parent.left) + LeafEntries(parent.right)
  {
    ForestAppend(rest, [parent]);
    assert ForestLeaves([parent]) == LeafEntries(parent);
  }

  lemma Rotate<T>(a: seq<T>, b: seq<T>, c: seq<T>)
    ensures multiset(c + a + b) == multiset(a + b + c)
  {
  }

  lemma {:induction false} MergeFrontForest(s: seq<Tree>)
    requires |s| >= 2
    ensures ForestWeight(MergeFront(s)) == ForestWeight(s[2..]) + s[0].frequency + s[1].frequency
    ensures ForestLeaves(MergeFront(s)) == ForestLeaves(s[2..]) + LeafEntries(s[0]) + LeafEntries(s[1])
  {
    ForestParent(s[2..], Node(s[0].frequency + s[1].frequency, s[0], s[1]));
  }

  /** Merging the first two nodes of any reordering of `nodes` keeps the
      total frequency. */
  lemma {:induction false} MergeFrontWeight(sorted: seq<Tree>, nodes: seq<Tree>)
    requires |sorted| >= 2 && multiset(sorted) == multiset(nodes)
    ensures ForestWeight(MergeFront(sorted)) == ForestWeight(nodes)
  {
    ForestPermutation(sorted, nodes);
    ForestFront(sorted);
    MergeFrontForest(sorted);
  }

  /** Merging the first two nodes of any reordering of `nodes` keeps the
      multiset of leaves. */
  lemma {:induction false} MergeFrontLeaves(sorted: seq<Tree>, nodes: seq<Tree>)
    requires |sorted| >= 2 && multiset(sorted) == multiset(nodes)
    ensures multiset(ForestLeaves(MergeFront(sorted))) == multiset(ForestLeaves(nodes))
  {
    ForestPermutation(sorted, nodes);
    ForestFront(sorted);
    MergeFrontForest(sorted);
    Rotate(LeafEntries(sorted[0]), LeafEntries(sorted[1]), ForestLeaves(sorted[2..]));
  }

  /** A pass keeps the total frequency and the multiset of leaves of the
      list. */
  lemma {:induction false} MergeStepPreserves(nodes: seq<Tree>)
    requires |nodes| >= 2
    ensures ForestWeight(MergeStep(nodes)) == ForestWeight(nodes)
    ensures multiset(ForestLeaves(MergeStep(nodes))) == multiset(ForestLeaves(nodes))
  {
    MergeFrontWeight(StableSort(nodes), nodes);
    MergeFrontLeaves(StableSort(nodes), nodes);
  }

  /** A pass keeps every node of the list well formed. */
  lemma {:induction false} MergeStepWellFormed(nodes: seq<Tree>)
    requires |nodes| >= 2
    requires forall t :: t in nodes ==> WellFormed(t)
    ensures forall t :: t in MergeStep(nodes) ==> WellFormed(t)
  {
    var sorted := StableSort(nodes);
    forall t | t in sorted
      ensures WellFormed(t)
    {
      assert t in multiset(nodes);
    }
    assert sorted[0] in sorted && sorted[1] in sorted;
    forall t | t in MergeStep(nodes)
      ensures WellFormed(t)
    {
      if t in sorted[2..] {
        assert t in sorted;
      }
    }
  }

  /** The built tree is well formed, its root carries the total frequency of
      the list, and its leaves are exactly the leaves of the list. */
  lemma {:induction false} BuildFromListProperties(nodes: seq<Tree>)
    requires nodes != []
    requires forall t :: t in nodes ==> WellFormed(t)
    ensures WellFormed(BuildFromList(nodes))
    ensures BuildFromList(nodes).frequency == ForestWeight(nodes)
    ensures multiset(LeafEntries(BuildFromList(nodes))) == multiset(ForestLeaves(nodes))
    decreases |nodes|
  {
    if |nodes| == 1 {
      assert nodes == [nodes[0]];
      assert ForestLeaves(nodes) == LeafEntries(nodes[0]);
    } else {
      MergeStepPreserves(nodes);
      MergeStepWellFormed(nodes);
      BuildFromListProperties(MergeStep(nodes));
    }
  }

  lemma {:induction false} NonNegativeWeight(s: seq<Tree>)
    requires forall i :: 0 <= i < |s| ==> s[i].frequency >= 0
    ensures ForestWeight(s) >= 0
  {
    if s != [] {
      NonNegativeWeight(s[1..]);
    }
  }

  /** Non-negative frequencies whose total is within the range of `int` never
      overflow while merging. */
  lemma {:induction false} NonNegativeFits(nodes: seq<Tree>)
    requires nodes != []
    requires forall i :: 0 <= i < |nodes| ==> nodes[i].frequency >= 0
    requires ForestWeight(nodes) <= Int32Max
    ensures MergeFits(nodes)
    decreases |nodes|
  {
    if |nodes| > 1 {
      var sorted := StableSort(nodes);
      SortedNonNegative(nodes);
      ForestPermutation(sorted, nodes);
      NonNegativeWeight(sorted[2..]);
      assert ForestWeight(sorted) == sorted[0].frequency + sorted[1].frequency + ForestWeight(sorted[2..]);
      MergeStepPreserves(nodes);
      MergeStepNonNegative(nodes);
      NonNegativeFits(MergeStep(nodes));
    }
  }

  /** Sorting keeps every frequency non-negative. */
  lemma SortedNonNegative(nodes: seq<Tree>)
    requires forall i :: 0 <= i < |nodes| ==> nodes[i].frequency >= 0
    ensures forall i :: 0 <= i < |StableSort(nodes)| ==> StableSort(nodes)[i].frequency >= 0
  {
    var sorted := StableSort(nodes);
    forall i | 0 <= i < |sorted|
      ensures sorted[i].frequency >= 0
    {
      assert sorted[i] in multiset(nodes);
    }
  }

  /** A pass keeps every frequency non-negative. */
  lemma MergeStepNonNegative(nodes: seq<Tree>)
    requires |nodes| >= 2
    requires forall i :: 0 <= i < |nodes| ==> nodes[i].frequency >= 0
    ensures forall i :: 0 <= i < |MergeStep(nodes)| ==> MergeStep(nodes)[i].frequency >= 0
  {
    var sorted := StableSort(nodes);
    SortedNonNegative(nodes);
    var next := MergeStep(nodes);
    forall i | 0 <= i < |next|
      ensures next[i].frequency >= 0
    {
      if i < |next| - 1 {
        assert next[i] == sorted[i + 2];
      }
    }
  }

  // ---------------------------------------------------------------------
  // Trees built from a frequency table

  /** The symbols at the leaves of a tree. */
  function LeafSymbols(t: Tree): set<Byte> {
    match t
    case Leaf(s, _) => {s}
    case Node(_, l, r) => LeafSymbols(l) + LeafSymbols(r)
  }

  /** The first components of some entries. */
  function Keys(es: seq<(Byte, int)>): set<Byte> {
    set e | e in es :: e.0
  }

  lemma {:induction false} LeafSymbolsAreKeys(t: Tree)
    ensures LeafSymbols(t) == Keys(LeafEntries(t))
  {
    match t
    case Leaf(_, _) =>
    case Node(_, l, r) =>
      LeafSymbolsAreKeys(l);
      LeafSymbolsAreKeys(r);
      assert forall e :: e in LeafEntries(t) <==> e in LeafEntries(l) || e in LeafEntries(r);
  }

  lemma {:induction false} EntriesKeys(m: map<Byte, int>)
    ensures Keys(Entries(m)) == m.Keys
  {
    var ks := KeysInOrder(m);
    var es := Entries(m);
    forall k | k in m
      ensures k in Keys(es)
    {
      var i :| 0 <= i < |ks| && ks[i] == k;
      assert es[i] == (k, m[k]);
    }
  }

  lemma {:induction false} SameKeys(a: seq<(Byte, int)>, b: seq<(Byte, int)>)
    requires multiset(a) == multiset(b)
    ensures Keys(a) == Keys(b)
  {
    assert forall e :: e in a <==> e in multiset(a);
    assert forall e :: e in b <==> e in multiset(b);
  }

  /** The tree built for a non-empty table (the leaves are made in key
      order from an empty list) is well formed, its root frequency is the
      total of the table, and its leaves are the entries of the table, each
      exactly once. */
  lemma {:induction false} BuildTreeProperties(m: map<Byte, int>)
    requires m != map[]
    ensures WellFormed(BuildTree(m))
    ensures BuildTree(m).frequency == TotalFrequency(m)
    ensures multiset(LeafEntries(BuildTree(m))) == multiset(Entries(m))
  {
    LeavesCount(m);
    var es := Entries(m);
    LeavesOfEntries(es);
    var ls := LeavesOf(es);
    forall t | t in ls
      ensures WellFormed(t)
    {
      var i :| 0 <= i < |ls| && ls[i] == t;
    }
    BuildFromListProperties(ls);
  }

  /** The symbols at the leaves of the built tree are the keys of the
      table. */
  lemma {:induction false} BuildTreeSymbols(m: map<Byte, int>)
    requires m != map[]
    ensures LeafSymbols(BuildTree(m)) == m.Keys
  {
    BuildTreeProperties(m);
    var root := BuildTree(m);
    LeafSymbolsAreKeys(root);
    SameKeys(LeafEntries(root), Entries(m));
    EntriesKeys(m);
  }

  /** A table of non-negative counts whose total fits an `int`, such as the
      table of an input of at most 2^31 - 1 bytes, merges without overflow. */
  lemma {:induction false} FrequenciesFit(s: seq<Byte>)
    requires s != [] && |s| <= Int32Max
    ensures Frequencies(s) != map[]
    ensures MergeFits(Leaves(Frequencies(s)))
  {
    var m := Frequencies(s);
    FrequenciesCount(s);
    assert s[0] in m;
    LeavesCount(m);
    LeavesOfEntries(Entries(m));
    FrequencyConservation(s);
    var ls := Leaves(m);
    forall i | 0 <= i < |ls|
      ensures ls[i].frequency >= 0
    {
      assert Entries(m)[i].0 in m;
    }
    NonNegativeFits(ls);
  }

  lemma ExampleKeys()
    ensures KeysInOrder(map[97 := 4, 98 := 4, 99 := 4, 100 := 4]) == [97, 98, 99, 100]
  {
    var ks: seq<Byte> := [97, 98, 99, 100];
    assert StrictlyAscending(ks) by {
      assert Rank(97) == 225 && Rank(98) == 226 && Rank(99) == 227 && Rank(100) == 228;
    }
    KeysInOrderUnique(map[97 := 4, 98 := 4, 99 := 4, 100 := 4], ks);
  }

  lemma ExampleLeaves()
    ensures Leaves(map[97 := 4, 98 := 4, 99 := 4, 100 := 4]) ==
      [Leaf(97, 4), Leaf(98, 4), Leaf(99, 4), Leaf(100, 4)]
  {
    var m: map<Byte, int> := map[97 := 4, 98 := 4, 99 := 4, 100 := 4];
    ExampleKeys();
    var es := Entries(m);
    assert |es| == 4;
    assert es[0] == (97, 4) && es[1] == (98, 4) && es[2] == (99, 4) && es[3] == (100, 4);
  }

  /** On a list already ordered by frequency a pass merges the first two
      nodes. */
  lemma {:induction false} MergeStepOfSorted(nodes: seq<Tree>)
    requires |nodes| >= 2 && SortedByFrequency(nodes)
    ensures MergeStep(nodes) ==
      nodes[2..] + [Node(nodes[0].frequency + nodes[1].frequency, nodes[0], nodes[1])]
  {
    StableSortOfSorted(nodes);
  }

  lemma {:induction false} BuildFromListPass(nodes: seq<Tree>)
    requires |nodes| >= 2
    ensures BuildFromList(nodes) == BuildFromList(MergeStep(nodes))
  {
  }

  lemma {:induction false} ExampleFirstPass(s: seq<Tree>)
    requires |s| == 4 && forall i :: 0 <= i < 4 ==> s[i].frequency == 4
    ensures MergeStep(s) == [s[2], s[3], Node(8, s[0], s[1])]
  {
    MergeStepOfSorted(s);
  }

  lemma {:induction false} ExampleSecondPass(s: seq<Tree>)
    requires |s| == 3 && s[0].frequency == s[1].frequency == 4 && s[2].frequency == 8
    ensures MergeStep(s) == [s[2], Node(8, s[0], s[1])]
  {
    MergeStepOfSorted(s);
  }

  lemma {:induction false} ExampleLastPass(s: seq<Tree>)
    requires |s| == 2 && s[0].frequency == s[1].frequency == 8
    ensures MergeStep(s) == [Node(16, s[0], s[1])]
  {
    MergeStepOfSorted(s);
  }

  /** Four nodes of frequency 4, in list order, merge as ((1st, 2nd), (3rd,
      4th)). */
  lemma {:induction false} ExampleMerge(s: seq<Tree>)
    requires |s| == 4 && forall i :: 0 <= i < 4 ==> s[i].frequency == 4
    ensures BuildFromList(s) == Node(16, Node(8, s[0], s[1]), Node(8, s[2], s[3]))
  {
    ExampleFirstPass(s);
    var s2 := MergeStep(s);
    ExampleSecondPass(s2);
    var s3 := MergeStep(s2);
    ExampleLastPass(s3);
    var s4 := MergeStep(s3);
    BuildFromListPass(s);
    BuildFromListPass(s2);
    BuildFromListPass(s3);
    assert BuildFromList(s4) == s4[0];
  }

  /** Equal frequencies keep their list order and parents go to the back:
      four symbols of count 4 pair up as ((a, b), (c, d)). */
  lemma TieBreakExample()
    ensures
      var m: map<Byte, int> := map[97 := 4, 98 := 4, 99 := 4, 100 := 4];
      97 in m &&
      BuildTree(m) ==
        Node(16, Node(8, Leaf(97, 4), Leaf(98, 4)), Node(8, Leaf(99, 4), Leaf(100, 4)))
  {
    var m: map<Byte, int> := map[97 := 4, 98 := 4, 99 := 4, 100 := 4];
    var ls := Leaves(m);
    ExampleLeaves();
    assert ls == [Leaf(97, 4), Leaf(98, 4), Leaf(99, 4), Leaf(100, 4)];
    ExampleMerge(ls);
    assert 97 in m && BuildTree(m) == BuildFromList(ls);
  }

  /** A table with one symbol builds a single leaf, which is the root. */
  lemma {:induction false} SingleSymbolTree(x: Byte, k: int)
    ensures x in map[x := k] && BuildTree(map[x := k]) == Leaf(x, k)
  {
    KeysInOrderUnique(map[x := k], [x]);
    assert Leaves(map[x := k]) == [Leaf(x, k)];
  }

  // ---------------------------------------------------------------------
  // Code table

  /** `build_code(node, code)` below the root: a leaf gets the path that led
      to it; an internal node hands `code + "0"` to its left child and then
      `code + "1"` to its right child (a later write to the same symbol
      wins). */
  function CodesFrom(t: Tree, code: Code): map<Byte, Code> {
    match t
    case Leaf(s, _) => map[s := code]
    case Node(_, l, r) => CodesFrom(l, code + [false]) + CodesFrom(r, code + [true])
  }

  /** `build_table()`: a root that is itself a leaf gets the code "1", any
      other root starts the walk with the empty code. */
  function CodeTable(root: Tree): map<Byte, Code> {
    if root.Leaf? then map[root.symbol := [true]] else CodesFrom(root, [])
  }

  /** Following the bits of `q` from `t` (false to the left, true to the
      right) ends exactly at a leaf holding `x`. */
  predicate LeafPath(t: Tree, q: Code, x: Byte) {
    match t
    case Leaf(s, _) => q == [] && s == x
    case Node(_, l, r) => q != [] && LeafPath(if q[0] then r else l, q[1..], x)
  }

  lemma {:induction false} CodesFromDomain(t: Tree, code: Code)
    ensures CodesFrom(t, code).Keys == LeafSymbols(t)
  {
    match t
    case Leaf(_, _) =>
    case Node(_, l, r) =>
      CodesFromDomain(l, code + [false]);
      CodesFromDomain(r, code + [true]);
  }

  /** `v` is `code` followed by a path from `t` to a leaf holding `x`. */
  predicate CodePath(t: Tree, code: Code, v: Code, x: Byte) {
    code <= v && LeafPath(t, v[|code|..], x)
  }

  lemma {:induction false} CodePathStep(t: Tree, code: Code, bit: bool, v: Code, x: Byte)
    requires t.Node?
    requires CodePath(if bit then t.right else t.left, code + [bit], v, x)
    ensures CodePath(t, code, v, x)
  {
    assert v[|code|..] == [bit] + v[|code| + 1..];
  }

  /** Every code written below `t` extends the code `t` was reached with by
      a path from `t` to a leaf of that symbol. */
  lemma {:induction false} CodesFromPaths(t: Tree, code: Code)
    ensures forall x :: x in CodesFrom(t, code) ==> CodePath(t, code, CodesFrom(t, code)[x], x)
  {
    match t
    case Leaf(_, _) =>
    case Node(_, l, r) =>
      var cl, cr := code + [false], code + [true];
      CodesFromPaths(l, cl);
      CodesFromPaths(r, cr);
      forall x | x in CodesFrom(t, code)
        ensures CodePath(t, code, CodesFrom(t, code)[x], x)
      {
        if x in CodesFrom(r, cr) {
          CodePathStep(t, code, true, CodesFrom(r, cr)[x], x);
        } else {
          CodePathStep(t, code, false, CodesFrom(l, cl)[x], x);
        }
      }
  }

  /** Paths to leaves are prefix-free: one can only be a prefix of another
      if they are the same path to the same leaf. */
  lemma {:induction false} LeafPathPrefixFree(t: Tree, p: Code, x: Byte, q: Code, y: Byte)
    requires LeafPath(t, p, x) && LeafPath(t, q, y) && p <= q
    ensures p == q && x == y
  {
    match t
    case Leaf(_, _) =>
    case Node(_, l, r) =>
      assert p[0] == q[0];
      assert p[1..] <= q[1..];
      LeafPathPrefixFree(if p[0] then r else l, p[1..], x, q[1..], y);
      assert p == [p[0]] + p[1..] && q == [q[0]] + q[1..];
  }

  /** The code table has an entry for each leaf symbol.  A leaf root gets
      exactly the code "1".  Otherwise every code is nonempty and is the
      root-to-leaf path of its symbol, and no code is a prefix of the code
      of another symbol (so in particular all codes are distinct). */
  lemma {:induction false} CodeTableProperties(root: Tree)
    ensures CodeTable(root).Keys == LeafSymbols(root)
    ensures root.Leaf? ==> CodeTable(root) == map[root.symbol := [true]]
    ensures root.Node? ==> forall x :: x in CodeTable(root) ==>
      CodeTable(root)[x] != [] && LeafPath(root, CodeTable(root)[x], x)
    ensures root.Node? ==> forall x, y :: x in CodeTable(root) && y in CodeTable(root) && x != y ==>
      !(CodeTable(root)[x] <= CodeTable(root)[y])
  {
    if root.Node? {
      CodesFromDomain(root, []);
      CodesFromPaths(root, []);
      var table := CodeTable(root);
      forall x | x in table
        ensures LeafPath(root, table[x], x)
      {
        assert table[x][0..] == table[x];
      }
      forall x, y | x in table && y in table && x != y
        ensures !(table[x] <= table[y])
      {
        if table[x] <= table[y] {
          LeafPathPrefixFree(root, table[x], x, table[y], y);
        }
      }
    }
  }
}
