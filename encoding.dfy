/** `binary_io` and the two drivers of src/encoding.cpp: writing the header
    and the packed code bits when compressing, reading them back and walking
    the tree when decompressing.  Files are byte sequences: a method that
    writes returns the bytes it appends to the output stream, a method that
    reads takes the bytes left in the input stream. */
module Encoding {
  import opened Common
  import opened CharOrder
  import opened TreeNode
  import opened CodeTree
  import opened BitPacking
  import opened Header
  import opened Decoder
  import opened Huffman

  const Two64: int := 0x1_0000_0000_0000_0000

  /** An `int` stored into a `size_t`: a negative value wraps modulo 2^64. */
  function SizeT(v: Int32): (r: nat)
    ensures r < Two64
    ensures v >= 0 ==> r == v
  {
    if v < 0 then v + Two64 else v
  }

  /** The state of the bit packer after the bits `done`: the whole bytes
      emitted so far hold all but the last `pos` of them, fewer than eight,
      and `buf` holds those from bit 7 down. */
  ghost predicate Packing(done: seq<bool>, pos: int, buf: int, out: seq<Byte>) {
    0 <= pos < 8 && |done| == 8 * |out| + pos &&
    out == Pack(done[..8 * |out|]) && buf == Placed(done[8 * |out|..])
  }

  /** One more bit into the buffer, and the byte emitted when that bit
      fills it. */
  lemma PackerPush(done: seq<bool>, pos: int, buf: int, out: seq<Byte>, b: bool)
    requires Packing(done, pos, buf, out)
    ensures var next := buf + (if b then Pow2(7 - pos) else 0);
      if pos == 7 then 0 <= next < 256 && Packing(done + [b], 0, 0, out + [next])
      else Packing(done + [b], pos + 1, next, out)
  {
    if pos == 7 {
      PackerFill(done, buf, out, b);
    } else {
      PackerAdd(done, pos, buf, out, b);
    }
  }

  /** The eighth bit: the buffer is emitted as a byte. */
  lemma PackerFill(done: seq<bool>, buf: int, out: seq<Byte>, b: bool)
    requires Packing(done, 7, buf, out)
    ensures var next := buf + (if b then Pow2(0) else 0);
      0 <= next < 256 && Packing(done + [b], 0, 0, out + [next])
  {
    var flushed, pending := done[..8 * |out|], done[8 * |out|..];
    var full := pending + [b];
    PlacedPush(pending, b);
    assert done + [b] == flushed + full;
    ShiftByMultiple(0, 8, |out|);
    PackAppend(flushed, full);
    PackPlaced(full);
    assert Pack(full)[0] == Placed(full);
    assert (done + [b])[..8 * (|out| + 1)] == flushed + full;
    assert (done + [b])[8 * (|out| + 1)..] == [];
  }

  /** Any other bit stays in the buffer. */
  lemma PackerAdd(done: seq<bool>, pos: int, buf: int, out: seq<Byte>, b: bool)
    requires Packing(done, pos, buf, out) && pos < 7
    ensures Packing(done + [b], pos + 1, buf + (if b then Pow2(7 - pos) else 0), out)
  {
    var n := 8 * |out|;
    SnocParts(done, n, b);
    PlacedPush(done[n..], b);
  }

  /** Appending to a sequence leaves its prefix and extends its suffix. */
  lemma SnocParts<T>(s: seq<T>, n: nat, x: T)
    requires n <= |s|
    ensures (s + [x])[..n] == s[..n] && (s + [x])[n..] == s[n..] + [x]
  {
  }

  /** The last, partly filled byte, emitted when the buffer holds any bit. */
  lemma PackerFinish(done: seq<bool>, pos: int, buf: int, out: seq<Byte>)
    requires Packing(done, pos, buf, out)
    ensures pos != 0 ==> 0 <= buf < 256 && out + [buf] == Pack(done)
    ensures pos == 0 ==> out == Pack(done)
    ensures |Pack(done)| == (|done| + 7) / 8
    ensures |done| % 8 == pos
  {
    PackerLast(done, pos, buf, out);
    PackLength(done);
    PendingCount(|done|, |out|, pos);
  }

  /** The number of bits in the buffer is the bit count modulo 8. */
  lemma PendingCount(count: int, bytes: nat, pos: int)
    requires 0 <= pos < 8 && count == 8 * bytes + pos
    ensures count % 8 == pos
  {
    ShiftByMultiple(pos, 8, bytes);
  }

  lemma PackerLast(done: seq<bool>, pos: int, buf: int, out: seq<Byte>)
    requires Packing(done, pos, buf, out)
    ensures pos != 0 ==> 0 <= buf < 256 && out + [buf] == Pack(done)
    ensures pos == 0 ==> out == Pack(done)
  {
    var flushed, pending := done[..8 * |out|], done[8 * |out|..];
    assert done == flushed + pending;
    ShiftByMultiple(0, 8, |out|);
    if pos != 0 {
      PackAppend(flushed, pending);
      PackPlaced(pending);
    } else {
      assert done == flushed;
    }
  }

  class BinaryIo {
    /** `cur_position_in_byte`: the number of bits in the packer's buffer. */
    var curPositionInByte: int
    /** `not_compressed_file_size_`. */
    var notCompressedFileSize: nat
    /** `compressed_file_size_`. */
    var compressedFileSize: nat
    /** `frequency_table_size_`. */
    var frequencyTableSize: nat

    constructor ()
      ensures curPositionInByte == 0 && notCompressedFileSize == 0
      ensures compressedFileSize == 0 && frequencyTableSize == 0
    {
      curPositionInByte := 0;
      notCompressedFileSize := 0;
      compressedFileSize := 0;
      frequencyTableSize := 0;
    }

    /** `write_frequency_table`: the byte count, the alphabet size, then
        each table entry in map order; the header size is recorded. */
    method WriteFrequencyTable(tree: HuffmanTree) returns (out: seq<Byte>)
      modifies this`frequencyTableSize, this`notCompressedFileSize
      ensures out == HeaderBytes(tree.numberOfChars, tree.alphabetPower, Entries(tree.charsFrequency))
      ensures frequencyTableSize == |out| == 8 + 5 * |tree.charsFrequency|
      ensures notCompressedFileSize == SizeT(tree.numberOfChars)
    {
      frequencyTableSize := 0;
      var alphabetSize := tree.alphabetPower;
      var numberOfChars := tree.numberOfChars;
      out := Int32Bytes(numberOfChars) + Int32Bytes(alphabetSize);
      frequencyTableSize := frequencyTableSize + 8;
      KeysInOrderLength(tree.charsFrequency);
      out := WriteEntries(Entries(tree.charsFrequency), out);
      notCompressedFileSize := SizeT(numberOfChars);
    }

    /** The loop of `write_frequency_table` over the entries of the table
        in map order: the symbol byte and the 4-byte frequency of each,
        each counted into the header size. */
    method WriteEntries(elements: seq<(Byte, Int32)>, out0: seq<Byte>) returns (out: seq<Byte>)
      requires frequencyTableSize == |out0|
      modifies this`frequencyTableSize
      ensures out == out0 + EntryBytes(elements) && frequencyTableSize == |out|
    {
      out := out0;
      for i := 0 to |elements|
        invariant out == out0 + EntryBytes(elements[..i]) && frequencyTableSize == |out|
      {
        Snoc(elements, i);
        EntryBytesSnoc(elements[..i], elements[i]);
        out := WriteEntry(elements[i], out);
      }
      assert elements[..|elements|] == elements;
    }

    /** One pass of that loop: the symbol byte, then the 4 bytes of the
        frequency, and 5 more header bytes counted. */
    method WriteEntry(element: (Byte, Int32), out0: seq<Byte>) returns (out: seq<Byte>)
      requires frequencyTableSize == |out0|
      modifies this`frequencyTableSize
      ensures out == out0 + [element.0] + Int32Bytes(element.1) && frequencyTableSize == |out|
    {
      out := out0 + [element.0] + Int32Bytes(element.1);
      frequencyTableSize := frequencyTableSize + 5;
    }

    /** `write_bits`: the codes of the input bytes packed bit 7 first, a
        byte emitted each time eight bits are in, and a last, partly filled
        byte emitted with its low bits zero; the number of bytes emitted is
        recorded. */
    method WriteBits(input: seq<Byte>, tree: HuffmanTree) returns (out: seq<Byte>)
      modifies this`compressedFileSize, this`curPositionInByte
      ensures out == Pack(EncodeBits(tree.table, input))
      ensures compressedFileSize == |out| == (|EncodeBits(tree.table, input)| + 7) / 8
      ensures curPositionInByte == |EncodeBits(tree.table, input)| % 8
    {
      var table := tree.table;
      compressedFileSize := 0;
      curPositionInByte := 0;
      var buf := 0;
      out := [];
      // the code bits written so far
      ghost var done: seq<bool> := [];
      var i := 0;
      while i < |input|
        invariant 0 <= i <= |input|
        invariant done == EncodeBits(table, input[..i])
        invariant Packing(done, curPositionInByte, buf, out) && compressedFileSize == |out|
      {
        var symbolCode := CodeOf(table, input[i]);
        buf, out := WriteCode(symbolCode, buf, out, done);
        assert input[..i + 1] == input[..i] + [input[i]];
        EncodeBitsSnoc(table, input[..i], input[i]);
        done := done + symbolCode;
        i := i + 1;
      }
      assert input[..i] == input;
      PackerFinish(done, curPositionInByte, buf, out);
      if curPositionInByte != 0 {
        compressedFileSize := compressedFileSize + 1;
        out := out + [buf];
      }
    }

    /** The inner loop of `write_bits`, over the bits of one code: each bit
        is set in the buffer, and a full buffer is emitted and cleared.
        `buf` and the bytes written are passed in and out. */
    method WriteCode(symbolCode: Code, buf0: int, out0: seq<Byte>, ghost done: seq<bool>) returns (buf: int, out: seq<Byte>)
      requires Packing(done, curPositionInByte, buf0, out0) && compressedFileSize == |out0|
      modifies this`compressedFileSize, this`curPositionInByte
      ensures Packing(done + symbolCode, curPositionInByte, buf, out) && compressedFileSize == |out|
    {
      buf, out := buf0, out0;
      // the bits written so far, including this code's first `j`
      ghost var cur := done;
      assert done + symbolCode[..0] == done;
      var j := 0;
      while j < |symbolCode|
        invariant 0 <= j <= |symbolCode|
        invariant cur == done + symbolCode[..j]
        invariant Packing(cur, curPositionInByte, buf, out) && compressedFileSize == |out|
      {
        buf, out := PushBit(symbolCode[j], buf, out, cur);
        Snoc(symbolCode, j);
        cur := cur + [symbolCode[j]];
        j := j + 1;
      }
      assert symbolCode[..j] == symbolCode;
    }

    /** The body of that inner loop, for one bit. */
    method PushBit(bit: bool, buf0: int, out0: seq<Byte>, ghost cur: seq<bool>) returns (buf: int, out: seq<Byte>)
      requires Packing(cur, curPositionInByte, buf0, out0) && compressedFileSize == |out0|
      modifies this`compressedFileSize, this`curPositionInByte
      ensures Packing(cur + [bit], curPositionInByte, buf, out) && compressedFileSize == |out|
    {
      // `(symbol_code[i] - 48) << (7 - cur_position_in_byte)`
      var shifted := if bit then Pow2(7 - curPositionInByte) else 0;
      PackerPush(cur, curPositionInByte, buf0, out0, bit);
      buf, out := buf0 + shifted, out0;
      curPositionInByte := curPositionInByte + 1;
      if curPositionInByte == 8 {
        curPositionInByte := 0;
        compressedFileSize := compressedFileSize + 1;
        out := out + [buf];
        buf := 0;
      }
    }

    /** `read_frequency_table`: the byte count and the alphabet size, then
        that many (symbol, frequency) pairs, each added to the tree's table
        with `add_symbol`.  Returns the number of header bytes read, or
        `Truncated` when the stream ends inside the header. */
    method ReadFrequencyTable(input: seq<Byte>, tree: HuffmanTree) returns (r: Result<nat, Fault>)
      modifies this`frequencyTableSize, this`notCompressedFileSize, tree`charsFrequency
      ensures ParseHeader(input).Err? ==> r == Err(ParseHeader(input).error)
      ensures ParseHeader(input).Ok? ==>
        var h := ParseHeader(input).value;
        r == Ok(h.size) && frequencyTableSize == h.size &&
        notCompressedFileSize == SizeT(h.numberOfChars) &&
        tree.charsFrequency == InsertAll(old(tree.charsFrequency), h.entries)
    {
      frequencyTableSize := 0;
      if |input| < 8 {
        return Err(Truncated);
      }
      var sizeBuf := Int32Of(input[..4]);
      var alphabetPower := Int32Of(input[4..8]);
      frequencyTableSize := frequencyTableSize + 8;
      notCompressedFileSize := SizeT(sizeBuf);
      var complete := ReadPairs(input, alphabetPower, tree);
      if !complete {
        return Err(Truncated);
      }
      r := Ok(frequencyTableSize);
    }

    /** The loop of `read_frequency_table`: `alphabet_power` times a symbol
        byte and a 4-byte frequency, added to the tree's table and counted
        into the header size; `false` when the stream ends first. */
    method ReadPairs(input: seq<Byte>, alphabetPower: Int32, tree: HuffmanTree) returns (complete: bool)
      requires 8 <= |input| && frequencyTableSize == 8
      modifies this`frequencyTableSize, tree`charsFrequency
      ensures var pairs := ReadEntries(input[8..], PairCount(alphabetPower));
        complete == pairs.Some? &&
        (complete ==>
           frequencyTableSize == 8 + 5 * PairCount(alphabetPower) &&
           tree.charsFrequency == InsertAll(old(tree.charsFrequency), pairs.value))
    {
      ghost var count := PairCount(alphabetPower);
      ghost var read: seq<(Byte, Int32)> := [];
      ghost var base := tree.charsFrequency;
      PrependNothing(ReadEntries(input[8..], count));
      var pos := 8;
      var i := 0;
      while i < alphabetPower
        invariant 0 <= i <= count && pos == 8 + 5 * i <= |input|
        invariant ReadEntries(input[8..], count) == Prepend(read, ReadEntries(input[pos..], count - i))
        invariant tree.charsFrequency == InsertAll(base, read)
        invariant frequencyTableSize == pos
      {
        if |input| - pos < 5 {
          assert ReadEntries(input[pos..], count - i) == None;
          return false;
        }
        var symbolBuf := input[pos];
        var numberBuf := Int32Of(input[pos + 1..pos + 5]);
        ReadEntriesAt(input, pos, count - i, read);
        InsertAllSnoc(base, read, (symbolBuf, numberBuf));
        tree.AddSymbol(symbolBuf, numberBuf);
        read := read + [(symbolBuf, numberBuf)];
        frequencyTableSize := frequencyTableSize + 5;
        pos := pos + 5;
        i := i + 1;
      }
      assert i == count && read + [] == read;
      complete := true;
    }

    /** `read_bits` on the bytes after the header: every byte is read and
        counted, its bits taken from bit 7 down, until the count of emitted
        symbols reaches the byte count of the header, which ends only the
        loop over the current byte's bits. */
    method ReadBits(input: seq<Byte>, tree: HuffmanTree) returns (r: Result<seq<Byte>, Fault>)
      requires tree.root.Some?
      modifies this`compressedFileSize
      ensures r == DecodedBytes(Decode(tree.root.value, notCompressedFileSize, input))
      ensures r.Ok? ==> compressedFileSize == |input|
    {
      var root := tree.root.value;
      var n := notCompressedFileSize;
      // `node`, `counter_chars` and the output written so far
      var d := Start(root);
      compressedFileSize := 0;
      ghost var bits := Unpack(input);
      UnpackLength(input);
      var k := 0;
      while k < |input|
        invariant 0 <= k <= |input| && compressedFileSize == k
        invariant Decode(root, n, input) == RunFrom(root, n, d, bits, 8 * k)
      {
        compressedFileSize := compressedFileSize + 1;
        var next := ReadByte(root, n, input, k, d);
        if next.Err? {
          return Err(next.error);
        }
        d := next.value;
        k := k + 1;
      }
      r := Ok(d.output);
    }
  }

  /** The inner loop of `read_bits`, over the bits of byte `k`, bit 7
      first: the state after it is where the run of the whole input goes
      on from at the next byte, and a fault is the fault of that run. */
  method ReadByte(root: Tree, n: nat, input: seq<Byte>, k: nat, d0: DecoderState) returns (r: Result<DecoderState, Fault>)
    requires k < |input|
    ensures |Unpack(input)| == 8 * |input|
    ensures r.Err? ==> RunFrom(root, n, d0, Unpack(input), 8 * k) == Err(r.error)
    ensures r.Ok? ==> RunFrom(root, n, d0, Unpack(input), 8 * k) == RunFrom(root, n, r.value, Unpack(input), 8 * (k + 1))
  {
    ghost var bits := Unpack(input);
    UnpackLength(input);
    // the index in `bits` of the bit the loop reads next
    ghost var i := 8 * k;
    ghost var end := 8 * (k + 1);
    var d := d0;
    var j := 7;
    while j >= 0
      invariant -1 <= j <= 7 && i == end - 1 - j && end <= |bits|
      invariant RunFrom(root, n, d0, bits, 8 * k) == RunFrom(root, n, d, bits, i)
    {
      var bit := BitOf(input, k, j);
      var next, stop := ReadStep(root, n, d, bit, bits, i);
      if next.Err? {
        return Err(next.error);
      }
      if stop {
        NextByteOf(k, 7 - j);
        return next;
      }
      d := next.value;
      i := i + 1;
      j := j - 1;
    }
    r := Ok(d);
  }

  /** `(buf >> j) & 1` for the byte `buf` at index `k`: bit `7 - j` of the
      byte as the packer placed it. */
  method BitOf(input: seq<Byte>, k: nat, j: nat) returns (bit: bool)
    requires k < |input| && j < 8
    ensures |Unpack(input)| == 8 * |input|
    ensures bit == Unpack(input)[8 * k + 7 - j]
  {
    var buf := input[k];
    bit := ShiftBit(buf, j);
    ShiftBitAt(input, k, j);
  }

  /** One pass of that inner loop, for bit `i`: the node moves; when the
      count has reached `n` the rest of the byte is skipped (`stop`),
      otherwise the node settles and bit `i + 1` follows. */
  method ReadStep(root: Tree, n: nat, d: DecoderState, bit: bool, ghost bits: seq<bool>, ghost i: nat)
    returns (r: Result<DecoderState, Fault>, stop: bool)
    requires i < |bits| && bits[i] == bit
    ensures r.Err? ==> RunFrom(root, n, d, bits, i) == Err(r.error)
    ensures r.Ok? && stop ==> RunFrom(root, n, d, bits, i) == RunFrom(root, n, r.value, bits, NextByte(i))
    ensures r.Ok? && !stop ==> RunFrom(root, n, d, bits, i) == RunFrom(root, n, r.value, bits, i + 1)
  {
    stop := false;
    var moved := MoveNode(root, d, bit);
    if moved.Err? {
      RunFromMoveFault(root, n, d, bits, i, moved.error);
      return Err(moved.error), false;
    }
    var m := moved.value;
    if m.counter == n {
      RunFromBreak(root, n, d, bits, i, m);
      return Ok(m), true;
    }
    var settled := SettleNode(root, m);
    if settled.Err? {
      RunFromSettleFault(root, n, d, bits, i, m, settled.error);
      return Err(settled.error), false;
    }
    RunFromNext(root, n, d, bits, i, m, settled.value);
    r := settled;
  }

  /** The first half of the loop body of `read_bits`: the node follows the
      bit, or, when the root has no children, a 1-bit emits the symbol of
      the current node. */
  method MoveNode(root: Tree, d: DecoderState, bit: bool) returns (r: Result<DecoderState, Fault>)
    ensures r == Move(root, d, bit)
  {
    var node, counterChars, output := d.node, d.counter, d.output;
    if node.None? {
      return Err(NullDereference);
    }
    if !bit {
      node := LeftChild(node.value);
    } else if LeftChild(root) == None && RightChild(root) == None {
      if node.value.Node? {
        return Err(UnsetSymbol);
      }
      counterChars := counterChars + 1;
      output := output + [node.value.symbol];
    } else {
      node := RightChild(node.value);
    }
    r := Ok(DecoderState(node, counterChars, output));
  }

  /** The second half: a leaf other than the root emits its symbol and the
      node goes back to the root. */
  method SettleNode(root: Tree, d: DecoderState) returns (r: Result<DecoderState, Fault>)
    ensures r == Settle(root, d)
  {
    var node, counterChars, output := d.node, d.counter, d.output;
    if node.None? {
      return Err(NullDereference);
    }
    if LeftChild(node.value) == None && RightChild(node.value) == None && node.value != root {
      counterChars := counterChars + 1;
      output := output + [node.value.symbol];
      node := Some(root);
    }
    r := Ok(DecoderState(node, counterChars, output));
  }

  /** The byte counts of `Frequencies(s)` fit an `int` when `s` does. */
  lemma FrequenciesRange(s: seq<Byte>)
    requires |s| <= Int32Max
    ensures forall b :: b in Frequencies(s) ==> 1 <= Frequencies(s)[b] <= Int32Max
  {
    FrequenciesCount(s);
    forall b | b in Frequencies(s)
      ensures Frequencies(s)[b] <= |s|
    {
      OccurrencesBound(s, b);
    }
  }

  /** The file `compress_file` writes for a non-empty input `s`. */
  function CompressedBytes(s: seq<Byte>): seq<Byte>
    requires 1 <= |s| <= Int32Max
  {
    FrequenciesRange(s);
    FrequenciesFit(s);
    var m: map<Byte, Int32> := Frequencies(s);
    MapSizeBound(m);
    var root := BuildTree(m);
    HeaderBytes(|s|, |m|, Entries(m)) + Pack(EncodeBits(CodeTable(root), s))
  }

  /** What `decompress_file` writes for the file `bytes`, or why it fails:
      a cut-short header, or whatever decoding the rest with the table the
      header holds gives. */
  function DecompressSpec(bytes: seq<Byte>): Result<seq<Byte>, Fault> {
    match ParseHeader(bytes)
    case Err(e) => Err(e)
    case Ok(h) => DecodeBody(InsertAll(map[], h.entries), SizeT(h.numberOfChars), bytes[h.size..])
  }

  /** Decoding the bytes after the header with the table `m` read from it
      and the byte count `n`: an empty alphabet (`build` would take the
      front of an empty list), a frequency sum that overflows an `int`, or
      what `read_bits` gives on the tree `build` makes. */
  function DecodeBody(m: map<Byte, Int32>, n: nat, body: seq<Byte>): Result<seq<Byte>, Fault> {
    LeavesCount(m);
    if m == map[] then Err(EmptyAlphabet)
    else if !MergeFits(Leaves(m)) then Err(Overflow)
    else DecodedBytes(Decode(BuildTree(m), n, body))
  }

  /** The first half of `huffman_compressor::compress_file`: a fresh tree
      object counts the input, builds the tree and derives the codes. */
  method BuildCodes(input: seq<Byte>) returns (tree: HuffmanTree)
    requires 1 <= |input| <= Int32Max
    ensures fresh(tree)
    ensures tree.charsFrequency == Frequencies(input) && tree.charsFrequency != map[]
    ensures tree.numberOfChars == |input| && tree.alphabetPower == |tree.charsFrequency|
    ensures tree.table == CodeTable(BuildTree(tree.charsFrequency))
  {
    tree := new HuffmanTree();
    forall b | b in input
      ensures Prior(tree.charsFrequency, b) + multiset(input)[b] <= Int32Max
    {
      OccurrencesBound(input, b);
    }
    tree.BuildFrequencyTable(input);
    FrequenciesFit(input);
    MakeCodes(tree);
  }

  /** `build` then `build_table` on a filled table, an empty node list and
      an empty code table, as both drivers call them. */
  method MakeCodes(tree: HuffmanTree)
    requires tree.charsFrequency != map[] && MergeFits(Leaves(tree.charsFrequency))
    requires tree.listOfNodes == [] && tree.table == map[]
    modifies tree`listOfNodes, tree`root, tree`table
    ensures tree.root == Some(BuildTree(tree.charsFrequency))
    ensures tree.table == CodeTable(BuildTree(tree.charsFrequency))
  {
    ghost var m := tree.charsFrequency;
    assert tree.listOfNodes + Leaves(m) == Leaves(m);
    tree.Build();
    assert tree.root == Some(BuildTree(m));
    tree.BuildTable();
    UnionEmpty(CodeTable(BuildTree(m)));
  }

  lemma UnionEmpty<K, V>(t: map<K, V>)
    ensures map[] + t == t
  {
  }

  /** `huffman_compressor::compress_file`: count, build, derive the codes,
      write the header and then the body. */
  method CompressFile(input: seq<Byte>) returns (output: seq<Byte>)
    requires 1 <= |input| <= Int32Max
    ensures output == CompressedBytes(input)
  {
    var binOut := new BinaryIo();
    var tree := BuildCodes(input);
    var header := binOut.WriteFrequencyTable(tree);
    var body := binOut.WriteBits(input, tree);
    output := header + body;
    CompressedBytesOf(input, tree.numberOfChars, tree.alphabetPower, tree.charsFrequency, tree.table);
  }

  lemma CompressedBytesOf(s: seq<Byte>, n: Int32, a: Int32, m: map<Byte, Int32>, table: map<Byte, Code>)
    requires 1 <= |s| <= Int32Max && m == Frequencies(s) && m != map[]
    requires n == |s| && a == |m| && table == CodeTable(BuildTree(m))
    ensures CompressedBytes(s) == HeaderBytes(n, a, Entries(m)) + Pack(EncodeBits(table, s))
  {
  }

  /** `huffman_decompressor::decompress_file`: read the header into a fresh
      tree, build the same tree, derive the codes and decode the body. */
  method DecompressFile(input: seq<Byte>) returns (r: Result<seq<Byte>, Fault>)
    ensures r == DecompressSpec(input)
  {
    var binIn := new BinaryIo();
    var tree := new HuffmanTree();
    var header := binIn.ReadFrequencyTable(input, tree);
    if header.Err? {
      return Err(header.error);
    }
    r := DecodeWithHeader(binIn, tree, input[header.value..]);
  }

  /** The second half of `decompress_file`, on the table and byte count the
      header gave: build the tree, derive the codes, decode the body. */
  method DecodeWithHeader(binIn: BinaryIo, tree: HuffmanTree, body: seq<Byte>) returns (r: Result<seq<Byte>, Fault>)
    requires tree.listOfNodes == [] && tree.table == map[]
    modifies binIn`compressedFileSize, tree`listOfNodes, tree`root, tree`table
    ensures r == DecodeBody(tree.charsFrequency, binIn.notCompressedFileSize, body)
  {
    LeavesCount(tree.charsFrequency);
    if tree.charsFrequency == map[] {
      return Err(EmptyAlphabet);
    }
    if !MergeFits(Leaves(tree.charsFrequency)) {
      return Err(Overflow);
    }
    MakeCodes(tree);
    r := binIn.ReadBits(body, tree);
  }

  // ---------------------------------------------------------------------
  // Round trip

  /** The decompressor's table, read back from the header, is the
      compressor's table, so `build` makes the same tree on both sides. */
  lemma {:induction false} HeaderRecoversTable(s: seq<Byte>)
    requires 1 <= |s| <= Int32Max
    ensures ParseHeader(CompressedBytes(s)).Ok?
    ensures var h := ParseHeader(CompressedBytes(s)).value;
      h.numberOfChars == |s| && InsertAll(map[], h.entries) == Frequencies(s) &&
      CompressedBytes(s)[h.size..] == Pack(EncodeBits(CodeTable(BuildTree(Frequencies(s))), s))
  {
    FrequenciesRange(s);
    FrequenciesFit(s);
    var m: map<Byte, Int32> := Frequencies(s);
    var body := Pack(EncodeBits(CodeTable(BuildTree(m)), s));
    HeaderRoundTrip(|s|, m, body);
    InsertAllEntries(m);
    assert CompressedBytes(s) == HeaderBytes(|s|, |m|, Entries(m)) + body;
  }

  /** Every byte of the input has a code in the table of its tree: a path
      from the root to its leaf, or "1" at a leaf root. */
  lemma {:induction false} CodesOfInput(s: seq<Byte>)
    requires 1 <= |s| <= Int32Max
    ensures Frequencies(s) != map[]
    ensures var root := BuildTree(Frequencies(s));
      var table := CodeTable(root);
      (root.Node? ==> forall x :: x in s ==> x in table && LeafPath(root, table[x], x)) &&
      (root.Leaf? ==> table == map[root.symbol := [true]] && forall i :: 0 <= i < |s| ==> s[i] == root.symbol)
  {
    FrequenciesFit(s);
    var m := Frequencies(s);
    var root := BuildTree(m);
    FrequenciesCount(s);
    BuildTreeSymbols(m);
    CodeTableProperties(root);
    if root.Leaf? {
      forall i | 0 <= i < |s|
        ensures s[i] == root.symbol
      {
        assert s[i] in m;
      }
    }
  }

  /** Decompressing the compressed bytes of a non-empty input gives the
      input back. */
  lemma {:induction false} RoundTrip(s: seq<Byte>)
    requires 1 <= |s| <= Int32Max
    ensures DecompressSpec(CompressedBytes(s)) == Ok(s)
  {
    HeaderRecoversTable(s);
    FrequenciesFit(s);
    var m := Frequencies(s);
    var root := BuildTree(m);
    var table := CodeTable(root);
    CodesOfInput(s);
    if root.Node? {
      DecodeInternalRoot(root, table, s);
    } else {
      EncodeBitsSingle(root.symbol, s);
      DecodeLeafRoot(root, s);
    }
  }

  // ---------------------------------------------------------------------
  // The command line entry points

  /** `-c`: an empty input file gives an empty output file without calling
      the compressor. */
  function ArchiveBytes(s: seq<Byte>): (r: seq<Byte>)
    requires |s| <= Int32Max
    ensures r == [] <==> s == []
  {
    if s == [] then [] else CompressedBytes(s)
  }

  /** `-d`: an empty input file gives an empty output file without calling
      the decompressor. */
  function ExtractBytes(bytes: seq<Byte>): Result<seq<Byte>, Fault> {
    if bytes == [] then Ok([]) else DecompressSpec(bytes)
  }

  method Compress(input: seq<Byte>) returns (output: seq<Byte>)
    requires |input| <= Int32Max
    ensures output == ArchiveBytes(input)
  {
    if |input| == 0 {
      return [];
    }
    output := CompressFile(input);
  }

  method Decompress(input: seq<Byte>) returns (r: Result<seq<Byte>, Fault>)
    ensures r == ExtractBytes(input)
  {
    if |input| == 0 {
      return Ok([]);
    }
    r := DecompressFile(input);
  }

  /** Any file of fewer than 2^31 bytes, empty or not, survives compressing
      and decompressing. */
  lemma ArchiveRoundTrip(s: seq<Byte>)
    requires |s| <= Int32Max
    ensures ExtractBytes(ArchiveBytes(s)) == Ok(s)
  {
    if s != [] {
      RoundTrip(s);
    }
  }
}
