/** The bit layout of the compressed body (src/encoding.cpp): code bits are
    packed most significant bit first, eight to a byte, and the last byte is
    padded with zero bits; each byte is read back bit 7 down to bit 0 with
    `(buf >> j) & 1` on a signed `char`. */
module BitPacking {
  import opened Common
  import opened CharOrder

  // ---------------------------------------------------------------------
  // Euclidean division facts used below

  lemma MulGap(a: int, b: int, d: int)
    requires a > b && d > 0
    ensures a * d >= b * d + d
  {
    var k := a - b - 1;
    assert k * d >= 0;
    assert a * d == b * d + k * d + d;
  }

  lemma DivUnique(x: int, d: int, q: int, r: int)
    requires d > 0 && x == q * d + r && 0 <= r < d
    ensures x / d == q && x % d == r
  {
    var q', r' := x / d, x % d;
    assert x == q' * d + r';
    if q' > q {
      MulGap(q', q, d);
    } else if q' < q {
      MulGap(q, q', d);
    }
  }

  lemma DivHalf(v: nat, m: nat)
    ensures (v / 2) / Pow2(m) == v / Pow2(m + 1)
  {
    var h := v / 2;
    var q, r := h / Pow2(m), h % Pow2(m);
    assert h == q * Pow2(m) + r;
    assert v == q * Pow2(m + 1) + (2 * r + v % 2);
    DivUnique(v, Pow2(m + 1), q, 2 * r + v % 2);
  }

  lemma ShiftByMultiple(v: int, d: int, c: int)
    requires d > 0
    ensures (v + c * d) / d == v / d + c
    ensures (v + c * d) % d == v % d
  {
    var q, r := v / d, v % d;
    assert v + c * d == (q + c) * d + r;
    DivUnique(v + c * d, d, q + c, r);
  }

  lemma Pow2Eight()
    ensures Pow2(8) == 256
  {
    assert Pow2(4) == 16;
  }

  lemma Pow2Split(j: nat)
    requires j < 8
    ensures 256 == Pow2(j) * (2 * Pow2(7 - j))
  {
    if j > 0 {
      Pow2Split(j - 1);
    } else {
      Pow2Eight();
    }
  }

  // ---------------------------------------------------------------------
  // Bits of one byte

  /** The value of `bits` read most significant bit first. */
  function Horner(bits: seq<bool>): (v: nat)
    ensures v < Pow2(|bits|)
  {
    if bits == [] then 0
    else 2 * Horner(bits[..|bits| - 1]) + (if bits[|bits| - 1] then 1 else 0)
  }

  /** The low `k` bits of `v`, most significant first. */
  function BitsOf(v: nat, k: nat): (r: seq<bool>)
    ensures |r| == k
  {
    if k == 0 then [] else BitsOf(v / 2, k - 1) + [v % 2 == 1]
  }

  /** Reading back the bits of a value gives the bits it was built from. */
  lemma {:induction false} BitsOfHorner(bits: seq<bool>)
    ensures BitsOf(Horner(bits), |bits|) == bits
  {
    if bits != [] {
      var init := bits[..|bits| - 1];
      BitsOfHorner(init);
      assert bits == init + [bits[|bits| - 1]];
    }
  }

  /** Bit `i` (from the left) of `BitsOf(v, k)` is bit `k - 1 - i` of `v`. */
  lemma {:induction false} BitsOfAt(v: nat, k: nat, i: nat)
    requires i < k
    ensures BitsOf(v, k)[i] == ((v / Pow2(k - 1 - i)) % 2 == 1)
  {
    if i < k - 1 {
      BitsOfAt(v / 2, k - 1, i);
      DivHalf(v, k - 2 - i);
    }
  }

  /** The eight bits of a byte, bit 7 first. */
  function ByteBits(b: Byte): (r: seq<bool>)
    ensures |r| == 8
  {
    BitsOf(b, 8)
  }

  /** `(buf >> j) & 1` where `buf` is the byte read as a signed `char`: the
      shift is arithmetic (floor division by 2^j). */
  function ShiftBit(b: Byte, j: nat): bool
    requires j < 8
  {
    (SignedChar(b) / Pow2(j)) % 2 == 1
  }

  /** Sign extension does not disturb bits 0..7: `(buf >> j) & 1` is the
      bit the packer put at position `7 - j` of the byte. */
  lemma ShiftBitIsByteBit(b: Byte, j: nat)
    requires j < 8
    ensures ShiftBit(b, j) == ByteBits(b)[7 - j]
  {
    BitsOfAt(b, 8, 7 - j);
    if b >= 128 {
      SignedShift(b, j);
      var q, half := b / Pow2(j), Pow2(7 - j);
      ShiftByMultiple(q, 2, -half);
      assert SignedChar(b) / Pow2(j) == q + -half * 2;
    }
  }

  /** For a byte of 128 or more, the shifted negative `char` value differs
      from the shifted byte by 2 * 2^(7-j), an even number. */
  lemma SignedShift(b: Byte, j: nat)
    requires j < 8 && b >= 128
    ensures SignedChar(b) / Pow2(j) == b / Pow2(j) - 2 * Pow2(7 - j)
  {
    var d, half: int := Pow2(j), Pow2(7 - j);
    Pow2Split(j);
    var c := -2 * half;
    assert c * d == -(d * (2 * half));
    ShiftByMultiple(b, d, c);
  }

  // ---------------------------------------------------------------------
  // Packing and unpacking

  /** The number of zero bits that pad `n` bits to whole bytes. */
  function PadLength(n: nat): (p: nat)
    ensures p < 8 && (n + p) % 8 == 0
  {
    (8 - n % 8) % 8
  }

  lemma PadShort(n: nat)
    requires 0 < n < 8
    ensures PadLength(n) == 8 - n
  {
  }

  lemma PadShift(n: nat)
    ensures PadLength(n + 8) == PadLength(n)
  {
    ShiftByMultiple(n, 8, 1);
  }

  /** The bytes `write_bits` emits for the bit string `bits`: whole bytes
      as they fill, and a last, partly filled byte padded with zeros. */
  function Pack(bits: seq<bool>): seq<Byte>
    decreases |bits|
  {
    Pow2Eight();
    if bits == [] then []
    else if |bits| < 8 then [Horner(bits + Zeros(8 - |bits|))]
    else [Horner(bits[..8])] + Pack(bits[8..])
  }

  /** The bits `read_bits` visits for some bytes, each byte bit 7 first. */
  function Unpack(bytes: seq<Byte>): seq<bool> {
    if bytes == [] then [] else ByteBits(bytes[0]) + Unpack(bytes[1..])
  }

  lemma {:induction false} UnpackLength(bytes: seq<Byte>)
    ensures |Unpack(bytes)| == 8 * |bytes|
  {
    if bytes != [] {
      UnpackLength(bytes[1..]);
    }
  }

  /** `write_bits` emits ceil(|bits| / 8) bytes. */
  lemma {:induction false} PackLength(bits: seq<bool>)
    ensures |Pack(bits)| == (|bits| + 7) / 8
    decreases |bits|
  {
    if |bits| >= 8 {
      PackLength(bits[8..]);
    }
  }

  lemma {:induction false} UnpackSingle(b: Byte)
    ensures Unpack([b]) == ByteBits(b)
  {
    assert [b][1..] == [];
  }

  /** Read back bit by bit, the packed bytes are the bits followed by the
      zero padding of the last byte. */
  lemma {:induction false} UnpackPack(bits: seq<bool>)
    ensures Unpack(Pack(bits)) == bits + Zeros(PadLength(|bits|))
    decreases |bits|
  {
    if bits == [] {
    } else if |bits| < 8 {
      UnpackPartial(bits);
    } else {
      UnpackFull(bits);
    }
  }

  lemma {:induction false} UnpackPartial(bits: seq<bool>)
    requires 0 < |bits| < 8
    ensures Unpack(Pack(bits)) == bits + Zeros(PadLength(|bits|))
  {
    Pow2Eight();
    var full := bits + Zeros(8 - |bits|);
    BitsOfHorner(full);
    var b: Byte := Horner(full);
    assert Pack(bits) == [b];
    UnpackSingle(b);
    PadShort(|bits|);
  }

  lemma {:induction false} UnpackFull(bits: seq<bool>)
    requires |bits| >= 8
    ensures Unpack(Pack(bits)) == bits + Zeros(PadLength(|bits|))
    decreases |bits|, 0
  {
    Pow2Eight();
    var head, tail := bits[..8], bits[8..];
    BitsOfHorner(head);
    var b: Byte := Horner(head);
    var packed := Pack(bits);
    assert packed == [b] + Pack(tail);
    assert packed[0] == b && packed[1..] == Pack(tail);
    UnpackPack(tail);
    assert Unpack(packed) == ByteBits(b) + Unpack(Pack(tail));
    assert bits == head + tail;
    PadShift(|tail|);
  }

  /** Bit `m` of byte `k` sits at index `8 * k + m` of the unpacked bits. */
  lemma {:induction false} UnpackAt(bytes: seq<Byte>, k: nat, m: nat)
    requires k < |bytes| && m < 8
    ensures |Unpack(bytes)| == 8 * |bytes|
    ensures Unpack(bytes)[8 * k + m] == ByteBits(bytes[k])[m]
  {
    UnpackLength(bytes);
    if k > 0 {
      UnpackAt(bytes[1..], k - 1, m);
    }
  }

  /** `(buf >> j) & 1` on byte `k` of the input is bit `8 * k + 7 - j` of
      its unpacked bits. */
  lemma ShiftBitAt(bytes: seq<Byte>, k: nat, j: nat)
    requires k < |bytes| && j < 8
    ensures |Unpack(bytes)| == 8 * |bytes|
    ensures Unpack(bytes)[8 * k + 7 - j] == ShiftBit(bytes[k], j)
  {
    UnpackAt(bytes, k, 7 - j);
    ShiftBitIsByteBit(bytes[k], j);
  }

  lemma {:induction false} HornerSnoc(bits: seq<bool>, b: bool)
    ensures Horner(bits + [b]) == 2 * Horner(bits) + (if b then 1 else 0)
  {
    assert (bits + [b])[..|bits|] == bits;
  }

  /** Zero bits appended at the low end multiply the value by a power of
      two. */
  lemma Double(h: int, p: int)
    ensures h * (2 * p) == 2 * (h * p)
  {
  }

  lemma {:induction false} HornerZeros(bits: seq<bool>, k: nat)
    ensures Horner(bits + Zeros(k)) == Horner(bits) * Pow2(k)
  {
    if k > 0 {
      var shorter := bits + Zeros(k - 1);
      HornerZeros(bits, k - 1);
      assert bits + Zeros(k) == shorter + [false];
      HornerSnoc(shorter, false);
      var h, p := Horner(bits), Pow2(k - 1);
      assert Pow2(k) == 2 * p;
      Double(h, p);
    } else {
      assert bits + Zeros(k) == bits;
    }
  }

  /** Bits that fill whole bytes pack separately from what follows. */
  lemma {:induction false} PackAppend(a: seq<bool>, p: seq<bool>)
    requires |a| % 8 == 0
    ensures Pack(a + p) == Pack(a) + Pack(p)
    decreases |a|
  {
    if a != [] {
      assert |a| >= 8;
      ShiftByMultiple(|a| - 8, 8, 1);
      assert |a[8..]| % 8 == 0;
      assert Pack(a) == [Horner(a[..8])] + Pack(a[8..]);
      assert (a + p)[..8] == a[..8];
      assert (a + p)[8..] == a[8..] + p;
      PackAppend(a[8..], p);
      assert Pack(a + p) == [Horner(a[..8])] + Pack(a[8..] + p);
    } else {
      assert a + p == p;
    }
  }

  /** The bytes of eight bits, and of one to seven bits padded with zeros. */
  lemma {:induction false} PackOneByte(p: seq<bool>)
    requires 0 < |p| <= 8
    ensures Pack(p) == [Horner(p) * Pow2(8 - |p|)]
  {
    Pow2Eight();
    if |p| == 8 {
      assert p[..8] == p && p[8..] == [];
      assert p + Zeros(0) == p;
    } else {
      HornerZeros(p, 8 - |p|);
    }
  }

  /** The value of a byte whose high bits are `bits` and whose other bits
      are zero: the buffer of `write_bits` once it holds `bits`, bit `i` of
      the sequence at position `7 - i` of the byte. */
  function Placed(bits: seq<bool>): nat
    requires |bits| <= 8
  {
    if bits == [] then 0
    else Placed(bits[..|bits| - 1]) + (if bits[|bits| - 1] then Pow2(8 - |bits|) else 0)
  }

  /** Setting the bit at position `7 - |pending|` of a buffer holding
      `pending` (`buf |= bit << (7 - pos)`) makes it hold one more bit.  That
      bit of the buffer is still clear, so the OR is an addition. */
  lemma PlacedPush(pending: seq<bool>, b: bool)
    requires |pending| < 8
    ensures Placed(pending + [b]) == Placed(pending) + (if b then Pow2(7 - |pending|) else 0)
  {
    var bits := pending + [b];
    PlacedLast(bits);
    DropLast(pending, b);
    var e := 7 - |pending|;
    assert 8 - |bits| == e;
    assert Pow2(8 - |bits|) == Pow2(e);
    assert Placed(bits[..|bits| - 1]) == Placed(pending);
  }

  lemma DropLast<T>(s: seq<T>, x: T)
    ensures |s + [x]| == |s| + 1
    ensures (s + [x])[..|s + [x]| - 1] == s && (s + [x])[|s + [x]| - 1] == x
  {
  }

  /** The last bit of a non-empty buffer is worth 2^(8 - its count). */
  lemma PlacedLast(bits: seq<bool>)
    requires 0 < |bits| <= 8
    ensures Placed(bits) == Placed(bits[..|bits| - 1]) + (if bits[|bits| - 1] then Pow2(8 - |bits|) else 0)
  {
  }

  /** The buffer is the number read from its bits with zeros after them. */
  lemma {:induction false} PlacedHorner(bits: seq<bool>)
    requires |bits| <= 8
    ensures Placed(bits) == Horner(bits) * Pow2(8 - |bits|)
  {
    if bits != [] {
      var init := bits[..|bits| - 1];
      PlacedHorner(init);
      var bit := if bits[|bits| - 1] then 1 else 0;
      assert (if bits[|bits| - 1] then Pow2(8 - |bits|) else 0) == bit * Pow2(8 - |bits|);
      Distribute(Placed(bits), Placed(init), Horner(bits), Horner(init), bit,
                 Pow2(8 - |bits|), Pow2(8 - |init|));
    }
  }

  lemma Distribute(placedFull: int, placedInit: int, next: int, h: int, bit: int, p: int, q: int)
    requires placedFull == placedInit + bit * p && placedInit == h * q
    requires next == 2 * h + bit && q == 2 * p
    ensures placedFull == next * p
  {
  }

  /** A buffer holding one to eight bits is the byte they pack into. */
  lemma PackPlaced(p: seq<bool>)
    requires 0 < |p| <= 8
    ensures Pack(p) == [Placed(p)]
  {
    PackOneByte(p);
    PlacedHorner(p);
  }

  // ---------------------------------------------------------------------
  // The code bits of an input

  /** `table[symbol]` on the copy of the code table: a symbol without an
      entry gets the empty string that `std::map::operator[]` inserts. */
  function CodeOf(table: map<Byte, Code>, x: Byte): Code {
    if x in table then table[x] else []
  }

  /** The codes of the bytes of `s`, one after another. */
  function EncodeBits(table: map<Byte, Code>, s: seq<Byte>): seq<bool> {
    if s == [] then [] else CodeOf(table, s[0]) + EncodeBits(table, s[1..])
  }

  lemma {:induction false} EncodeBitsSnoc(table: map<Byte, Code>, s: seq<Byte>, x: Byte)
    ensures EncodeBits(table, s + [x]) == EncodeBits(table, s) + CodeOf(table, x)
  {
    if s != [] {
      assert (s + [x])[1..] == s[1..] + [x];
      EncodeBitsSnoc(table, s[1..], x);
    } else {
      assert [x][1..] == [];
    }
  }

  /** With the code "1" for the only symbol, `n` copies of it encode as `n`
      one bits. */
  lemma {:induction false} EncodeBitsSingle(x: Byte, s: seq<Byte>)
    requires forall i :: 0 <= i < |s| ==> s[i] == x
    ensures EncodeBits(map[x := [true]], s) == Ones(|s|)
  {
    if s != [] {
      EncodeBitsSingle(x, s[1..]);
      assert [true] + Ones(|s| - 1) == Ones(|s|);
    }
  }
}
