/** The `huffman_tree` object (include/huffman_tree.h, src/huffman_tree.cpp):
    a frequency table filled from the input, a working list of nodes merged
    into one tree, and the code table read off that tree. */
module Huffman {
  import opened Common
  import opened CharOrder
  import opened TreeNode
  import opened CodeTree

  class HuffmanTree {
    /** `root_`; `None` until `Build` has run. */
    var root: Option<Tree>
    /** `chars_frequency_`. */
    var charsFrequency: map<Byte, Int32>
    /** `table_`. */
    var table: map<Byte, Code>
    /** `list_of_nodes_`. */
    var listOfNodes: seq<Tree>
    /** `alphabet_power_`. */
    var alphabetPower: Int32
    /** `number_of_chars_`. */
    var numberOfChars: Int32

    /** A tree object with empty maps and an empty list. */
    constructor ()
      ensures root == None && charsFrequency == map[] && table == map[] && listOfNodes == []
      ensures alphabetPower == 0 && numberOfChars == 0
    {
      root := None;
      charsFrequency := map[];
      table := map[];
      listOfNodes := [];
      alphabetPower := 0;
      numberOfChars := 0;
    }

    /** `build_frequency_table`: counts every byte of the input into the
        table (which is not cleared first), sets the number of bytes read
        and the number of table entries.  The counters are C `int`s, so
        the counts must stay below 2^31. */
    method BuildFrequencyTable(input: seq<Byte>)
      requires |input| <= Int32Max
      requires forall b :: b in input ==> Prior(charsFrequency, b) + multiset(input)[b] <= Int32Max
      modifies this`charsFrequency, this`numberOfChars, this`alphabetPower
      ensures charsFrequency == CountInto(old(charsFrequency), input)
      ensures numberOfChars == |input|
      ensures alphabetPower == |charsFrequency|
    {
      ghost var m0 := charsFrequency;
      numberOfChars := 0;
      var i := 0;
      while i < |input|
        invariant 0 <= i <= |input|
        invariant charsFrequency == CountInto(m0, input[..i])
        invariant numberOfChars == i
      {
        CountChar(input, i, m0);
        numberOfChars := numberOfChars + 1;
        i := i + 1;
      }
      assert input[..i] == input;
      MapSizeBound(charsFrequency);
      alphabetPower := |charsFrequency|;
    }

    /** One pass of that loop, for the byte at index `i`: a byte not yet in
        the table gets a zero entry first, then its entry goes up by one. */
    method CountChar(input: seq<Byte>, i: nat, ghost m0: map<Byte, Int32>)
      requires i < |input|
      requires forall b :: b in input ==> Prior(m0, b) + multiset(input)[b] <= Int32Max
      requires charsFrequency == CountInto(m0, input[..i])
      modifies this`charsFrequency
      ensures charsFrequency == CountInto(m0, input[..i + 1])
    {
      var c := input[i];
      CountPrefixStep(m0, input, i);
      if c !in charsFrequency {
        charsFrequency := charsFrequency[c := 0];
      }
      charsFrequency := charsFrequency[c := charsFrequency[c] + 1];
    }

    /** `build`: pushes one leaf per table entry, in key order, then merges
        the list until one node is left, which becomes the root.  The loop
        only ends for a non-empty list, and every parent frequency must fit
        in an `int`. */
    method Build()
      requires listOfNodes + Leaves(charsFrequency) != []
      requires MergeFits(listOfNodes + Leaves(charsFrequency))
      modifies this`listOfNodes, this`root
      ensures root == Some(BuildFromList(old(listOfNodes) + Leaves(charsFrequency)))
      ensures listOfNodes == [root.value]
    {
      PushLeaves();
      MergeList();
      root := Some(listOfNodes[0]);
    }

    /** The first loop of `build`: one leaf per table entry, appended in the
        order the map is iterated. */
    method PushLeaves()
      modifies this`listOfNodes
      ensures listOfNodes == old(listOfNodes) + Leaves(charsFrequency)
    {
      ghost var table: map<Byte, int> := charsFrequency;
      var keys := KeysInOrder(charsFrequency);
      KeysInOrderSameKeys(table, charsFrequency);
      LeavesCount(table);
      KeysInOrderLength(table);
      var i := 0;
      while i < |keys|
        invariant 0 <= i <= |keys| == |Leaves(table)|
        invariant listOfNodes == old(listOfNodes) + Leaves(table)[..i]
      {
        LeafAt(table, i);
        var node := MakeLeaf(keys[i], charsFrequency[keys[i]]);
        Snoc(Leaves(table), i);
        listOfNodes := listOfNodes + [node];
        i := i + 1;
      }
      assert Leaves(table)[..i] == Leaves(table);
    }

    /** The second loop of `build`: sort, pop two nodes, push their parent,
        until one node is left. */
    method MergeList()
      requires listOfNodes != [] && MergeFits(listOfNodes)
      modifies this`listOfNodes
      ensures listOfNodes == [BuildFromList(old(listOfNodes))]
    {
      while |listOfNodes| != 1
        invariant listOfNodes != []
        invariant MergeFits(listOfNodes)
        invariant BuildFromList(listOfNodes) == BuildFromList(old(listOfNodes))
        decreases |listOfNodes|
      {
        ghost var before := listOfNodes;
        MergeStepParts(before);
        listOfNodes := StableSort(listOfNodes);
        var leftChild := listOfNodes[0];
        listOfNodes := listOfNodes[1..];
        var rightChild := listOfNodes[0];
        listOfNodes := listOfNodes[1..];
        var parent := MakeParent(leftChild, rightChild);
        listOfNodes := listOfNodes + [parent];
        assert listOfNodes == MergeStep(before);
      }
      assert listOfNodes == [listOfNodes[0]];
    }

    /** `add_symbol`: `std::map::insert`, which leaves a symbol that is
        already present unchanged. */
    method AddSymbol(symbol: Byte, frequency: Int32)
      modifies this`charsFrequency
      ensures symbol in old(charsFrequency) ==> charsFrequency == old(charsFrequency)
      ensures symbol !in old(charsFrequency) ==> charsFrequency == old(charsFrequency)[symbol := frequency]
    {
      if symbol !in charsFrequency {
        charsFrequency := charsFrequency[symbol := frequency];
      }
    }

    /** `build_table`: `build_code(root_, "")` writes the code of every leaf
        into the table. */
    method BuildTable()
      requires root.Some?
      modifies this`table
      ensures table == old(table) + CodeTable(root.value)
    {
      table := table + CodeTable(root.value);
    }
  }
}
