/** The bit-by-bit state machine of `read_bits` (src/encoding.cpp): the
    current node, the number of symbols emitted and the output so far.  For
    each bit the node moves (or, when the root is a leaf, a 1-bit emits the
    root's symbol), the loop over the bits of the current byte stops once
    the count reaches the header's byte count, and a leaf other than the
    root emits its symbol and sends the node back to the root. */
module Decoder {
  import opened Common
  import opened TreeNode
  import opened CodeTree
  import opened BitPacking

  /** `node` (`None` for the null pointer), `counter_chars` and the bytes
      written to the output so far. */
  datatype DecoderState = DecoderState(node: Option<Tree>, counter: nat, output: seq<Byte>)

  /** The state `read_bits` starts in. */
  function Start(root: Tree): DecoderState {
    DecoderState(Some(root), 0, [])
  }

  /** The first half of one bit step: a 0-bit goes to the left child, a
      1-bit goes to the right child, except that when the root has no
      children a 1-bit emits the symbol of the current node.  Every branch
      dereferences the current node. */
  function Move(root: Tree, d: DecoderState, bit: bool): Result<DecoderState, Fault> {
    match d.node
    case None => Err(NullDereference)
    case Some(t) =>
      if !bit then Ok(d.(node := LeftChild(t)))
      else if LeftChild(root) == None && RightChild(root) == None then
        if t.Leaf? then Ok(d.(counter := d.counter + 1, output := d.output + [t.symbol]))
        else Err(UnsetSymbol)
      else Ok(d.(node := RightChild(t)))
  }

  /** The second half: a leaf that is not the root emits its symbol and the
      node goes back to the root. */
  function Settle(root: Tree, d: DecoderState): Result<DecoderState, Fault> {
    match d.node
    case None => Err(NullDereference)
    case Some(t) =>
      if LeftChild(t) == None && RightChild(t) == None && t != root then
        Ok(DecoderState(Some(root), d.counter + 1, d.output + [t.symbol]))
      else Ok(d)
  }

  /** The index of the first bit of the byte after the one holding bit `i`:
      where the `break` out of the loop over one byte's bits resumes. */
  function NextByte(i: nat): (k: nat)
    ensures i < k && k % 8 == 0 && k <= i + 8
  {
    (i / 8 + 1) * 8
  }

  /** Bit `m` of byte `k` is followed by the byte `k + 1`. */
  lemma NextByteOf(k: nat, m: nat)
    requires m < 8
    ensures NextByte(8 * k + m) == 8 * (k + 1)
  {
    ShiftByMultiple(m, 8, k);
  }

  /** `read_bits` from bit `i` of `bits` (all bits of the input, each byte
      bit 7 first) on: after the move, a count equal to `n` ends the current
      byte, otherwise the node settles and the next bit follows. */
  function RunFrom(root: Tree, n: nat, d: DecoderState, bits: seq<bool>, i: nat): Result<DecoderState, Fault>
    decreases |bits| - i
  {
    if i >= |bits| then Ok(d)
    else
      match Move(root, d, bits[i])
      case Err(e) => Err(e)
      case Ok(m) =>
        if m.counter == n then RunFrom(root, n, m, bits, NextByte(i))
        else
          match Settle(root, m)
          case Err(e) => Err(e)
          case Ok(s) => RunFrom(root, n, s, bits, i + 1)
  }

  /** The final state of `read_bits` on the body `bytes`, with `n` the byte
      count of the header. */
  function Decode(root: Tree, n: nat, bytes: seq<Byte>): Result<DecoderState, Fault> {
    RunFrom(root, n, Start(root), Unpack(bytes), 0)
  }

  /** What `read_bits` writes to the output file, or why it fails. */
  function DecodedBytes(r: Result<DecoderState, Fault>): Result<seq<Byte>, Fault> {
    match r
    case Err(e) => Err(e)
    case Ok(d) => Ok(d.output)
  }

  // ---------------------------------------------------------------------
  // One step

  /** When the root has children and the current node is internal, a step
      never fails; it leads to the left or right child, and when that child
      is a leaf that child's symbol is emitted, the count goes up by one and
      the node is the root again, so the next step starts at an internal
      node once more. */
  lemma InternalStep(root: Tree, d: DecoderState, bit: bool)
    requires root.Node? && d.node.Some? && d.node.value.Node?
    ensures var t := d.node.value;
      var child := if bit then t.right else t.left;
      Move(root, d, bit) == Ok(d.(node := Some(child))) &&
      Settle(root, d.(node := Some(child))) ==
        (if child.Leaf? then Ok(DecoderState(Some(root), d.counter + 1, d.output + [child.symbol]))
         else Ok(d.(node := Some(child))))
  {
  }

  /** When the root is a leaf and the node is the root, a 1-bit emits the
      root's symbol, counts it and leaves the node at the root. */
  lemma SingleLeafStep(root: Tree, d: DecoderState)
    requires root.Leaf? && d.node == Some(root)
    ensures Move(root, d, true) == Ok(DecoderState(Some(root), d.counter + 1, d.output + [root.symbol]))
    ensures Settle(root, DecoderState(Some(root), d.counter + 1, d.output + [root.symbol]))
      == Ok(DecoderState(Some(root), d.counter + 1, d.output + [root.symbol]))
  {
  }

  /** `RunFrom` one bit at a time: a move that brings the count to `n`
      skips to the next byte, otherwise the settled state reads the next
      bit, and a fault in either half is the result. */
  lemma RunFromBreak(root: Tree, n: nat, d: DecoderState, bits: seq<bool>, i: nat, m: DecoderState)
    requires i < |bits| && Move(root, d, bits[i]) == Ok(m) && m.counter == n
    ensures RunFrom(root, n, d, bits, i) == RunFrom(root, n, m, bits, NextByte(i))
  {
  }

  lemma RunFromNext(root: Tree, n: nat, d: DecoderState, bits: seq<bool>, i: nat, m: DecoderState, s: DecoderState)
    requires i < |bits| && Move(root, d, bits[i]) == Ok(m) && m.counter != n && Settle(root, m) == Ok(s)
    ensures RunFrom(root, n, d, bits, i) == RunFrom(root, n, s, bits, i + 1)
  {
  }

  lemma RunFromMoveFault(root: Tree, n: nat, d: DecoderState, bits: seq<bool>, i: nat, e: Fault)
    requires i < |bits| && Move(root, d, bits[i]) == Err(e)
    ensures RunFrom(root, n, d, bits, i) == Err(e)
  {
  }

  lemma RunFromSettleFault(root: Tree, n: nat, d: DecoderState, bits: seq<bool>, i: nat, m: DecoderState, e: Fault)
    requires i < |bits| && Move(root, d, bits[i]) == Ok(m) && m.counter != n && Settle(root, m) == Err(e)
    ensures RunFrom(root, n, d, bits, i) == Err(e)
  {
  }

  // ---------------------------------------------------------------------
  // Decoding a code

  /** The bits of `bits` from index `i` on begin with `c`. */
  predicate BitsAt(bits: seq<bool>, i: nat, c: seq<bool>)
    decreases |c|
  {
    if c == [] then i <= |bits| else i < |bits| && bits[i] == c[0] && BitsAt(bits, i + 1, c[1..])
  }

  lemma {:induction false} BitsAtBound(bits: seq<bool>, i: nat, c: seq<bool>)
    requires BitsAt(bits, i, c)
    ensures i + |c| <= |bits|
    decreases |c|
  {
    if c != [] {
      BitsAtBound(bits, i + 1, c[1..]);
    }
  }

  /** `a` then `b` at `i` is `a` at `i` and `b` right after it. */
  lemma {:induction false} BitsAtAppend(bits: seq<bool>, i: nat, a: seq<bool>, b: seq<bool>)
    requires BitsAt(bits, i, a + b)
    ensures BitsAt(bits, i, a) && BitsAt(bits, i + |a|, b)
    decreases |a|
  {
    if a == [] {
      assert a + b == b;
      BitsAtBound(bits, i, b);
    } else {
      assert (a + b)[0] == a[0] && (a + b)[1..] == a[1..] + b;
      BitsAtAppend(bits, i + 1, a[1..], b);
    }
  }

  /** A sequence holds its own suffix from index `j` on. */
  lemma {:induction false} BitsAtSuffix(c: seq<bool>, t: seq<bool>, j: nat)
    requires j <= |c|
    ensures BitsAt(c + t, j, c[j..])
    decreases |c| - j
  {
    if j < |c| {
      BitsAtSuffix(c, t, j + 1);
      assert c[j..][1..] == c[j + 1..];
    }
  }

  /** Starting at `t` with a count below `n`, the bits of a path from `t`
      to the leaf of `x` emit `x` and bring the node back to the root. */
  lemma {:induction false} DecodePath(root: Tree, n: nat, d: DecoderState, bits: seq<bool>, i: nat,
                                      t: Tree, q: Code, x: Byte)
    requires root.Node? && t.Node? && d.node == Some(t) && d.counter < n
    requires LeafPath(t, q, x) && BitsAt(bits, i, q)
    ensures RunFrom(root, n, d, bits, i)
      == RunFrom(root, n, DecoderState(Some(root), d.counter + 1, d.output + [x]), bits, i + |q|)
    decreases q
  {
    var bit := q[0];
    var child := if bit then t.right else t.left;
    InternalStep(root, d, bit);
    var m := d.(node := Some(child));
    if child.Node? {
      DecodePath(root, n, m, bits, i + 1, child, q[1..], x);
    }
  }

  /** Every byte of `xs` has a code that is a path from `root` to the leaf
      of that byte. */
  predicate AllCoded(root: Tree, table: map<Byte, Code>, xs: seq<Byte>)
    decreases |xs|
  {
    xs == [] || (xs[0] in table && LeafPath(root, table[xs[0]], xs[0]) && AllCoded(root, table, xs[1..]))
  }

  lemma {:induction false} AllCodedOf(root: Tree, table: map<Byte, Code>, xs: seq<Byte>)
    requires forall x :: x in xs ==> x in table && LeafPath(root, table[x], x)
    ensures AllCoded(root, table, xs)
    decreases |xs|
  {
    if xs != [] {
      assert xs[0] in xs;
      assert forall x :: x in xs[1..] ==> x in xs;
      AllCodedOf(root, table, xs[1..]);
    }
  }

  /** The codes of `xs` one after another, each a path from the root to the
      leaf of its symbol, emit `xs` as long as the count stays below `n`. */
  lemma {:induction false} DecodeCodes(root: Tree, n: nat, d: DecoderState, bits: seq<bool>, i: nat,
                                       table: map<Byte, Code>, xs: seq<Byte>)
    requires root.Node? && d.node == Some(root) && d.counter + |xs| <= n
    requires AllCoded(root, table, xs) && BitsAt(bits, i, EncodeBits(table, xs))
    ensures RunFrom(root, n, d, bits, i)
      == RunFrom(root, n, DecoderState(Some(root), d.counter + |xs|, d.output + xs), bits, i + |EncodeBits(table, xs)|)
    decreases xs
  {
    if xs == [] {
      assert d == DecoderState(Some(root), d.counter + |xs|, d.output + xs);
    } else {
      var x := xs[0];
      var q := table[x];
      var rest := EncodeBits(table, xs[1..]);
      BitsAtAppend(bits, i, q, rest);
      DecodePath(root, n, d, bits, i, root, q, x);
      var d1 := DecoderState(Some(root), d.counter + 1, d.output + [x]);
      DecodeCodes(root, n, d1, bits, i + |q|, table, xs[1..]);
      assert d.output + [x] + xs[1..] == d.output + xs;
    }
  }

  /** Zero padding after the last code, in the last byte, is never
      decoded. */
  lemma PaddingIgnored(root: Tree, n: nat, d: DecoderState, bits: seq<bool>, i: nat)
    requires root.Node? && d.node == Some(root) && d.counter == n
    requires i <= |bits| && |bits| % 8 == 0 && |bits| - i < 8
    requires forall k :: i <= k < |bits| ==> !bits[k]
    ensures RunFrom(root, n, d, bits, i).Ok?
    ensures RunFrom(root, n, d, bits, i).value.output == d.output
    ensures RunFrom(root, n, d, bits, i).value.counter == n
  {
    if i < |bits| {
      assert NextByte(i) >= |bits|;
    }
  }

  /** A root with children: decoding the packed codes of `s` with the byte
      count `|s|` gives back `s`. */
  lemma {:induction false} DecodeInternalRoot(root: Tree, table: map<Byte, Code>, s: seq<Byte>)
    requires root.Node?
    requires forall x :: x in s ==> x in table && LeafPath(root, table[x], x)
    ensures Decode(root, |s|, Pack(EncodeBits(table, s))).Ok?
    ensures Decode(root, |s|, Pack(EncodeBits(table, s))).value.output == s
    ensures Decode(root, |s|, Pack(EncodeBits(table, s))).value.counter == |s|
  {
    var code := EncodeBits(table, s);
    PackedCode(code);
    AllCodedOf(root, table, s);
    DecodeCodedBits(root, table, s, Unpack(Pack(code)));
  }

  /** The codes of `s` followed by less than a byte of zeros decode as `s`. */
  lemma DecodeCodedBits(root: Tree, table: map<Byte, Code>, s: seq<Byte>, bits: seq<bool>)
    requires root.Node? && AllCoded(root, table, s)
    requires var code := EncodeBits(table, s);
      BitsAt(bits, 0, code) && |code| <= |bits| && |bits| % 8 == 0 && |bits| - |code| < 8 &&
      forall k :: |code| <= k < |bits| ==> !bits[k]
    ensures var r := RunFrom(root, |s|, Start(root), bits, 0);
      r.Ok? && r.value.output == s && r.value.counter == |s|
  {
    var code := EncodeBits(table, s);
    DecodeCodes(root, |s|, Start(root), bits, 0, table, s);
    assert Start(root).output + s == s;
    PaddingIgnored(root, |s|, DecoderState(Some(root), |s|, s), bits, |code|);
  }

  /** Packed and read back, a code string is followed only by the zero
      padding of its last byte. */
  lemma PackedCode(code: seq<bool>)
    ensures var bits := Unpack(Pack(code));
      BitsAt(bits, 0, code) && |code| <= |bits| && |bits| % 8 == 0 && |bits| - |code| < 8 &&
      forall k :: |code| <= k < |bits| ==> !bits[k]
  {
    var pad := PadLength(|code|);
    UnpackPack(code);
    BitsAtSuffix(code, Zeros(pad), 0);
    assert code[0..] == code;
  }

  /** A leaf root: each 1-bit emits the root's symbol, and the one that
      brings the count to `n` ends the input. */
  lemma {:induction false} DecodeOnes(root: Tree, n: nat, d: DecoderState, bits: seq<bool>, i: nat, k: nat)
    requires root.Leaf? && d.node == Some(root) && k >= 1 && d.counter + k == n
    requires i + k <= |bits| && NextByte(i + k - 1) >= |bits|
    requires forall j :: i <= j < i + k ==> bits[j]
    ensures RunFrom(root, n, d, bits, i) == Ok(DecoderState(Some(root), n, d.output + Repeat(root.symbol, k)))
    decreases k
  {
    SingleLeafStep(root, d);
    var d1 := DecoderState(Some(root), d.counter + 1, d.output + [root.symbol]);
    assert bits[i];
    if k == 1 {
      assert Repeat(root.symbol, 1) == [root.symbol];
    } else {
      DecodeOnes(root, n, d1, bits, i + 1, k - 1);
      assert d.output + [root.symbol] + Repeat(root.symbol, k - 1) == d.output + Repeat(root.symbol, k);
    }
  }

  /** A leaf root: decoding `|s|` one bits, packed, with the byte count
      `|s|` gives `|s|` copies of the root's symbol. */
  lemma {:induction false} DecodeLeafRoot(root: Tree, s: seq<Byte>)
    requires root.Leaf? && s != []
    requires forall i :: 0 <= i < |s| ==> s[i] == root.symbol
    ensures Decode(root, |s|, Pack(Ones(|s|))) == Ok(DecoderState(Some(root), |s|, s))
  {
    var bits := Unpack(Pack(Ones(|s|)));
    PackedOnes(|s|);
    DecodeOnes(root, |s|, Start(root), bits, 0, |s|);
    assert [] + Repeat(root.symbol, |s|) == s;
  }

  /** `c` one bits, packed and read back: the ones, then zero padding that
      ends within the byte of the last one. */
  lemma PackedOnes(c: nat)
    requires c >= 1
    ensures var bits := Unpack(Pack(Ones(c)));
      c <= |bits| && NextByte(c - 1) >= |bits| && forall j :: 0 <= j < c ==> bits[j]
  {
    UnpackPack(Ones(c));
    NextBytePad(c);
  }

  /** The byte after the one holding bit `c - 1` starts where the padding
      of `c` bits ends. */
  lemma NextBytePad(c: nat)
    requires c >= 1
    ensures NextByte(c - 1) == c + PadLength(c)
  {
    var q, r := (c - 1) / 8, (c - 1) % 8;
    ShiftByMultiple(r + 1, 8, q);
    assert c == r + 1 + q * 8;
  }
}
