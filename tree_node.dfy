/** The node of the code tree and the order on nodes used while merging
    (include/huffman_tree.h): a node is a leaf with a symbol and a frequency,
    or an internal node with exactly two children.  `node_comparing` orders
    nodes by frequency alone, and `std::list::sort` with it is a stable sort. */
module TreeNode {
  import opened Common

  /** A leaf has both child pointers null; the two-child constructor always
      sets both, so every node is one of these two shapes. */
  datatype Tree =
    | Leaf(symbol: Byte, frequency: int)
    | Node(frequency: int, left: Tree, right: Tree)

  /** `get_left_child()`, with `None` for the null pointer of a leaf. */
  function LeftChild(t: Tree): Option<Tree> {
    if t.Node? then Some(t.left) else None
  }

  /** `get_right_child()`, with `None` for the null pointer of a leaf. */
  function RightChild(t: Tree): Option<Tree> {
    if t.Node? then Some(t.right) else None
  }

  /** `huffman_tree_node(symbol, frequency)`: a leaf, both children null. */
  function MakeLeaf(symbol: Byte, frequency: int): (t: Tree)
    ensures LeftChild(t) == None && RightChild(t) == None
    ensures t.symbol == symbol && t.frequency == frequency
  {
    Leaf(symbol, frequency)
  }

  /** `huffman_tree_node(left, right)`: both children set, and the frequency
      is the sum of theirs. */
  function MakeParent(left: Tree, right: Tree): (t: Tree)
    ensures LeftChild(t) == Some(left) && RightChild(t) == Some(right)
    ensures t.frequency == left.frequency + right.frequency
    ensures WellFormed(left) && WellFormed(right) ==> WellFormed(t)
  {
    Node(left.frequency + right.frequency, left, right)
  }

  /** Every internal node carries the sum of its children's frequencies, as
      the two-child constructor computes it. */
  predicate WellFormed(t: Tree) {
    match t
    case Leaf(_, _) => true
    case Node(f, l, r) => f == l.frequency + r.frequency && WellFormed(l) && WellFormed(r)
  }

  /** `node_comparing`: strictly smaller frequency; the symbol plays no part. */
  predicate NodeComparing(a: Tree, b: Tree) {
    a.frequency < b.frequency
  }

  /** `node_comparing` is a strict weak order whose equivalence classes are the
      nodes of equal frequency. */
  lemma NodeComparingIsStrictWeakOrder(a: Tree, b: Tree, c: Tree)
    ensures !NodeComparing(a, a)
    ensures NodeComparing(a, b) && NodeComparing(b, c) ==> NodeComparing(a, c)
    ensures (!NodeComparing(a, b) && !NodeComparing(b, a)) <==> a.frequency == b.frequency
  {
  }

  /** The symbols and frequencies of the leaves of `t`, left to right. */
  function LeafEntries(t: Tree): seq<(Byte, int)> {
    match t
    case Leaf(s, f) => [(s, f)]
    case Node(_, l, r) => LeafEntries(l) + LeafEntries(r)
  }

  /** The sum of the frequencies of the nodes of a working list. */
  function ForestWeight(s: seq<Tree>): int {
    if s == [] then 0 else s[0].frequency + ForestWeight(s[1..])
  }

  /** The leaves of every tree of a working list, in list order. */
  function ForestLeaves(s: seq<Tree>): seq<(Byte, int)> {
    if s == [] then [] else LeafEntries(s[0]) + ForestLeaves(s[1..])
  }

  lemma {:induction false} ForestAppend(a: seq<Tree>, b: seq<Tree>)
    ensures ForestWeight(a + b) == ForestWeight(a) + ForestWeight(b)
    ensures ForestLeaves(a + b) == ForestLeaves(a) + ForestLeaves(b)
  {
    if a != [] {
      assert (a + b)[1..] == a[1..] + b;
      ForestAppend(a[1..], b);
    } else {
      assert a + b == b;
    }
  }

  /** `b` with the node at position `i` taken out. */
  function Without(b: seq<Tree>, i: nat): (r: seq<Tree>)
    requires i < |b|
    ensures |r| == |b| - 1
  {
    b[..i] + b[i + 1..]
  }

  lemma {:induction false} ForestRemove(b: seq<Tree>, i: nat)
    requires i < |b|
    ensures multiset(Without(b, i)) == multiset(b) - multiset{b[i]}
    ensures ForestWeight(b) == b[i].frequency + ForestWeight(Without(b, i))
    ensures multiset(ForestLeaves(b)) == multiset(LeafEntries(b[i])) + multiset(ForestLeaves(Without(b, i)))
  {
    assert b == b[..i] + ([b[i]] + b[i + 1..]);
    ForestAppend(b[..i], [b[i]] + b[i + 1..]);
    ForestAppend([b[i]], b[i + 1..]);
    ForestAppend(b[..i], b[i + 1..]);
    assert ForestWeight([b[i]]) == b[i].frequency;
    assert ForestLeaves([b[i]]) == LeafEntries(b[i]);
  }

  /** A position of `x` in `b`. */
  lemma IndexOf(x: Tree, b: seq<Tree>) returns (i: nat)
    requires x in multiset(b)
    ensures i < |b| && b[i] == x
  {
    assert x in b;
    i :| i < |b| && b[i] == x;
  }

  /** Reordering a working list changes neither its total frequency nor the
      multiset of its leaves. */
  lemma {:induction false} ForestPermutation(a: seq<Tree>, b: seq<Tree>)
    requires multiset(a) == multiset(b)
    ensures ForestWeight(a) == ForestWeight(b)
    ensures multiset(ForestLeaves(a)) == multiset(ForestLeaves(b))
    decreases |a|
  {
    if a == [] {
      assert |b| == |multiset(b)| == 0;
    } else {
      var i := IndexOf(a[0], b);
      ForestRemove(b, i);
      ForestRemove(a, 0);
      ForestPermutation(Without(a, 0), Without(b, i));
    }
  }

  /** `s` is ordered by `node_comparing`: no later node is strictly smaller. */
  ghost predicate SortedByFrequency(s: seq<Tree>) {
    forall i, j :: 0 <= i < j < |s| ==> !NodeComparing(s[j], s[i])
  }

  /** The nodes of `s` whose frequency is `w`, in list order: the relative
      order that a stable sort keeps. */
  function WithFrequency(s: seq<Tree>, w: int): seq<Tree> {
    if s == [] then []
    else (if s[0].frequency == w then [s[0]] else []) + WithFrequency(s[1..], w)
  }

  /** Places `x` before the first node of `s` that is not strictly smaller. */
  function InsertStable(x: Tree, s: seq<Tree>): (r: seq<Tree>)
    ensures multiset(r) == multiset{x} + multiset(s)
  {
    if s == [] || !NodeComparing(s[0], x) then
      [x] + s
    else
      assert s == [s[0]] + s[1..];
      [s[0]] + InsertStable(x, s[1..])
  }

  lemma {:induction false} InsertStableSorted(x: Tree, s: seq<Tree>)
    requires SortedByFrequency(s)
    ensures SortedByFrequency(InsertStable(x, s))
  {
    var r := InsertStable(x, s);
    if s == [] || !NodeComparing(s[0], x) {
      forall i, j | 0 <= i < j < |r|
        ensures !NodeComparing(r[j], r[i])
      {
        if i == 0 && j > 1 {
          assert r[j] == s[j - 1];
          assert !NodeComparing(s[j - 1], s[0]);
        }
      }
    } else {
      var t := InsertStable(x, s[1..]);
      assert r == [s[0]] + t;
      InsertStableSorted(x, s[1..]);
      forall i, j | 0 <= i < j < |r|
        ensures !NodeComparing(r[j], r[i])
      {
        if i == 0 {
          assert r[j] == t[j - 1];
          assert r[j] in multiset(t);
          if r[j] != x {
            assert r[j] in multiset(s[1..]);
            var k :| 0 <= k < |s[1..]| && s[1..][k] == r[j];
            assert s[k + 1] == r[j];
          }
        } else {
          assert r[i] == t[i - 1] && r[j] == t[j - 1];
        }
      }
    }
  }

  lemma {:induction false} WithFrequencyAppend(a: seq<Tree>, b: seq<Tree>, w: int)
    ensures WithFrequency(a + b, w) == WithFrequency(a, w) + WithFrequency(b, w)
  {
    if a == [] {
      assert a + b == b;
    } else {
      var head := if a[0].frequency == w then [a[0]] else [];
      assert (a + b)[0] == a[0] && (a + b)[1..] == a[1..] + b;
      assert WithFrequency(a + b, w) == head + WithFrequency(a[1..] + b, w);
      WithFrequencyAppend(a[1..], b, w);
      assert WithFrequency(a, w) == head + WithFrequency(a[1..], w);
    }
  }

  /** Inserting `x` adds it in front of the nodes of its own frequency and
      leaves every other frequency class as it was. */
  lemma {:induction false} InsertStableClasses(x: Tree, s: seq<Tree>, w: int)
    ensures WithFrequency(InsertStable(x, s), w) == (if x.frequency == w then [x] else []) + WithFrequency(s, w)
  {
    WithFrequencySingle(x, w);
    if s == [] || !NodeComparing(s[0], x) {
      WithFrequencyAppend([x], s, w);
    } else {
      var t := InsertStable(x, s[1..]);
      var own, head, rest := WithFrequency([x], w), WithFrequency([s[0]], w), WithFrequency(s[1..], w);
      assert InsertStable(x, s) == [s[0]] + t;
      WithFrequencyAppend([s[0]], t, w);
      InsertStableClasses(x, s[1..], w);
      WithFrequencySingle(s[0], w);
      WithFrequencyCons(s, w);
      DisjointClassesCommute(own, head, rest);
    }
  }

  /** The class of a list is that of its head followed by that of its tail. */
  lemma WithFrequencyCons(s: seq<Tree>, w: int)
    requires s != []
    ensures WithFrequency(s, w) == WithFrequency([s[0]], w) + WithFrequency(s[1..], w)
  {
    WithFrequencySingle(s[0], w);
  }

  /** At most one of two lists is non-empty, so their order does not matter. */
  lemma DisjointClassesCommute(own: seq<Tree>, head: seq<Tree>, rest: seq<Tree>)
    requires own == [] || head == []
    ensures head + (own + rest) == own + (head + rest)
  {
    if own == [] {
      assert own + rest == rest && own + (head + rest) == head + rest;
    } else {
      assert head + (own + rest) == own + rest && head + rest == rest;
    }
  }

  lemma WithFrequencySingle(x: Tree, w: int)
    ensures WithFrequency([x], w) == if x.frequency == w then [x] else []
  {
    assert [x][1..] == [];
  }

  /** The model of `list_of_nodes_.sort(node_comparing())`: a stable sort by
      frequency, by insertion. */
  function StableSort(s: seq<Tree>): (r: seq<Tree>)
    ensures |r| == |s|
    ensures multiset(r) == multiset(s)
  {
    if s == [] then []
    else
      var r := InsertStable(s[0], StableSort(s[1..]));
      assert s == [s[0]] + s[1..];
      assert |r| == |multiset(r)|;
      r
  }

  /** The result of `StableSort` is ordered by `node_comparing` and keeps
      every class of equal frequency in its original order. */
  lemma {:induction false} StableSortIsStable(s: seq<Tree>)
    ensures SortedByFrequency(StableSort(s))
    ensures forall w :: WithFrequency(StableSort(s), w) == WithFrequency(s, w)
  {
    if s != [] {
      var sorted := StableSort(s[1..]);
      StableSortIsStable(s[1..]);
      InsertStableSorted(s[0], sorted);
      forall w
        ensures WithFrequency(StableSort(s), w) == WithFrequency(s, w)
      {
        InsertStableClasses(s[0], sorted, w);
      }
    }
  }

  lemma WithFrequencyHead(s: seq<Tree>)
    ensures s != [] ==> WithFrequency(s, s[0].frequency) != []
  {
  }

  lemma {:induction false} WithFrequencyBound(s: seq<Tree>, w: int)
    requires SortedByFrequency(s) && s != []
    requires WithFrequency(s, w) != []
    ensures s[0].frequency <= w
  {
    if s[0].frequency != w {
      assert WithFrequency(s, w) == WithFrequency(s[1..], w);
      WithFrequencyBound(s[1..], w);
      assert !NodeComparing(s[1], s[0]);
    }
  }

  lemma WithFrequencyTail(s: seq<Tree>, v: int)
    requires s != []
    ensures WithFrequency(s, v) ==
      (if s[0].frequency == v then [s[0]] + WithFrequency(s[1..], v) else WithFrequency(s[1..], v))
  {
  }

  lemma {:induction false} SortedTail(s: seq<Tree>)
    requires SortedByFrequency(s) && s != []
    ensures SortedByFrequency(s[1..])
  {
    forall i, j | 0 <= i < j < |s[1..]|
      ensures !NodeComparing(s[1..][j], s[1..][i])
    {
      assert s[1..][i] == s[i + 1] && s[1..][j] == s[j + 1];
    }
  }

  /** Two sorted lists with the same frequency classes start with the same
      node. */
  lemma {:induction false} SortedClassesHead(a: seq<Tree>, b: seq<Tree>)
    requires SortedByFrequency(a) && SortedByFrequency(b) && a != [] && b != []
    requires WithFrequency(a, a[0].frequency) == WithFrequency(b, a[0].frequency)
    requires WithFrequency(a, b[0].frequency) == WithFrequency(b, b[0].frequency)
    ensures a[0] == b[0]
  {
    var w := a[0].frequency;
    WithFrequencyHead(a);
    WithFrequencyHead(b);
    WithFrequencyBound(b, w);
    WithFrequencyBound(a, b[0].frequency);
    assert b[0].frequency == w;
    WithFrequencyTail(a, w);
    WithFrequencyTail(b, w);
    assert WithFrequency(a, w)[0] == a[0];
    assert WithFrequency(b, w)[0] == b[0];
  }

  lemma {:induction false} SameClassesTail(a: seq<Tree>, b: seq<Tree>, v: int)
    requires a != [] && b != [] && a[0] == b[0]
    requires WithFrequency(a, v) == WithFrequency(b, v)
    ensures WithFrequency(a[1..], v) == WithFrequency(b[1..], v)
  {
    WithFrequencyTail(a, v);
    WithFrequencyTail(b, v);
    if a[0].frequency == v {
      assert ([a[0]] + WithFrequency(a[1..], v))[1..] == WithFrequency(a[1..], v);
      assert ([b[0]] + WithFrequency(b[1..], v))[1..] == WithFrequency(b[1..], v);
    }
  }

  /** Two lists sorted by frequency in which every frequency class holds the
      same nodes in the same order are equal. */
  lemma {:induction false} SortedClassesUnique(a: seq<Tree>, b: seq<Tree>)
    requires SortedByFrequency(a) && SortedByFrequency(b)
    requires forall w :: WithFrequency(a, w) == WithFrequency(b, w)
    ensures a == b
  {
    WithFrequencyHead(a);
    WithFrequencyHead(b);
    if a != [] && b != [] {
      assert WithFrequency(a, a[0].frequency) == WithFrequency(b, a[0].frequency);
      assert WithFrequency(a, b[0].frequency) == WithFrequency(b, b[0].frequency);
      SortedClassesHead(a, b);
      forall v
        ensures WithFrequency(a[1..], v) == WithFrequency(b[1..], v)
      {
        SameClassesTail(a, b, v);
      }
      SortedTail(a);
      SortedTail(b);
      SortedClassesUnique(a[1..], b[1..]);
      assert a == [a[0]] + a[1..];
      assert b == [b[0]] + b[1..];
    }
  }

  /** Whatever algorithm the library uses, a stable sort by `node_comparing`
      has exactly one possible result, the one `StableSort` computes. */
  lemma {:induction false} StableSortIsUnique(s: seq<Tree>, r: seq<Tree>)
    requires SortedByFrequency(r)
    requires forall w :: WithFrequency(r, w) == WithFrequency(s, w)
    ensures r == StableSort(s)
  {
    StableSortIsStable(s);
    SortedClassesUnique(r, StableSort(s));
  }

  /** A list that is already ordered by frequency is left as it is. */
  lemma {:induction false} StableSortOfSorted(s: seq<Tree>)
    requires SortedByFrequency(s)
    ensures StableSort(s) == s
  {
    StableSortIsUnique(s, s);
  }
}
