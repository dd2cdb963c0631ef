/** The header of a compressed file (src/encoding.cpp, `write_frequency_table`
    and `read_frequency_table`): the number of bytes of the original file and
    the alphabet size as 4-byte `int`s, then for every table entry in map order
    the symbol byte and its 4-byte frequency.  An `int` is stored as its
    32-bit two's complement, least significant byte first. */
module Header {
  import opened Common
  import opened CharOrder

  const Two31: int := 0x8000_0000
  const Two32: int := 0x1_0000_0000

  /** The four bytes of an `int`, least significant first. */
  function Int32Bytes(v: Int32): (r: seq<Byte>)
    ensures |r| == 4
  {
    var u := if v < 0 then v + Two32 else v;
    var a := u / 256;
    var b := a / 256;
    var c := b / 256;
    [u % 256, a % 256, b % 256, c]
  }

  /** The `int` whose four bytes, least significant first, are `bs`. */
  function Int32Of(bs: seq<Byte>): Int32
    requires |bs| == 4
  {
    var b0, b1, b2, b3: int := bs[0], bs[1], bs[2], bs[3];
    var u := b0 + 256 * (b1 + 256 * (b2 + 256 * b3));
    if u >= Two31 then u - Two32 else u
  }

  /** An `int` reads back as the value written. */
  lemma Int32RoundTrip(v: Int32)
    ensures Int32Of(Int32Bytes(v)) == v
  {
    var u := if v < 0 then v + Two32 else v;
    var a := u / 256;
    var b := a / 256;
    var c := b / 256;
    assert u == u % 256 + 256 * a;
    assert a == a % 256 + 256 * b;
    assert b == b % 256 + 256 * c;
  }

  /** The (symbol, frequency) pairs of the header, five bytes each. */
  function EntryBytes(es: seq<(Byte, Int32)>): (r: seq<Byte>)
    ensures |r| == 5 * |es|
  {
    if es == [] then [] else [es[0].0] + Int32Bytes(es[0].1) + EntryBytes(es[1..])
  }

  lemma {:induction false} EntryBytesSnoc(es: seq<(Byte, Int32)>, e: (Byte, Int32))
    ensures EntryBytes(es + [e]) == EntryBytes(es) + [e.0] + Int32Bytes(e.1)
  {
    if es == [] {
      assert [e][1..] == [];
    } else {
      assert (es + [e])[1..] == es[1..] + [e];
      EntryBytesSnoc(es[1..], e);
    }
  }

  /** The whole header as `write_frequency_table` emits it. */
  function HeaderBytes(numberOfChars: Int32, alphabetSize: Int32, es: seq<(Byte, Int32)>): (r: seq<Byte>)
    ensures |r| == 8 + 5 * |es|
  {
    Int32Bytes(numberOfChars) + Int32Bytes(alphabetSize) + EntryBytes(es)
  }

  /** Reading `k` (symbol, frequency) pairs from the front of `bs`, or
      `None` when the bytes run out first. */
  function ReadEntries(bs: seq<Byte>, k: nat): (r: Option<seq<(Byte, Int32)>>)
    ensures r.Some? ==> |r.value| == k && 5 * k <= |bs|
  {
    if k == 0 then Some([])
    else if |bs| < 5 then None
    else
      match ReadEntries(bs[5..], k - 1)
      case None => None
      case Some(rest) => Some([(bs[0], Int32Of(bs[1..5]))] + rest)
  }

  /** `es` followed by the pairs read, or `None` if reading failed. */
  function Prepend(es: seq<(Byte, Int32)>, r: Option<seq<(Byte, Int32)>>): Option<seq<(Byte, Int32)>> {
    match r
    case None => None
    case Some(rest) => Some(es + rest)
  }

  lemma PrependNothing(r: Option<seq<(Byte, Int32)>>)
    ensures Prepend([], r) == r
  {
    if r.Some? {
      assert [] + r.value == r.value;
    }
  }

  /** Reading pairs one at a time, as the loop of `read_frequency_table`
      does, reads the same pairs as reading them all. */
  lemma ReadEntriesStep(bs: seq<Byte>, k: nat, es: seq<(Byte, Int32)>)
    requires k > 0 && |bs| >= 5
    ensures Prepend(es, ReadEntries(bs, k))
      == Prepend(es + [(bs[0], Int32Of(bs[1..5]))], ReadEntries(bs[5..], k - 1))
  {
    match ReadEntries(bs[5..], k - 1)
    case None =>
    case Some(rest) =>
      assert es + ([(bs[0], Int32Of(bs[1..5]))] + rest) == es + [(bs[0], Int32Of(bs[1..5]))] + rest;
  }

  /** The same step on the pairs from offset `pos` of `bs`. */
  lemma ReadEntriesAt(bs: seq<Byte>, pos: nat, k: nat, es: seq<(Byte, Int32)>)
    requires k > 0 && pos + 5 <= |bs|
    ensures Prepend(es, ReadEntries(bs[pos..], k))
      == Prepend(es + [(bs[pos], Int32Of(bs[pos + 1..pos + 5]))], ReadEntries(bs[pos + 5..], k - 1))
  {
    var rest := bs[pos..];
    assert rest[0] == bs[pos] && rest[1..5] == bs[pos + 1..pos + 5] && rest[5..] == bs[pos + 5..];
    ReadEntriesStep(rest, k, es);
  }

  /** The pairs written read back as the same pairs, whatever follows them. */
  lemma {:induction false} ReadEntriesRoundTrip(es: seq<(Byte, Int32)>, rest: seq<Byte>)
    ensures ReadEntries(EntryBytes(es) + rest, |es|) == Some(es)
  {
    if es != [] {
      var tail := EntryBytes(es[1..]) + rest;
      EntryBytesFront(es, rest);
      ReadEntriesRoundTrip(es[1..], rest);
      Int32RoundTrip(es[0].1);
      assert es == [es[0]] + es[1..];
    }
  }

  /** The first pair's five bytes and what follows them. */
  lemma EntryBytesFront(es: seq<(Byte, Int32)>, rest: seq<Byte>)
    requires es != []
    ensures var bs := EntryBytes(es) + rest;
      |bs| >= 5 && bs[0] == es[0].0 && bs[1..5] == Int32Bytes(es[0].1) &&
      bs[5..] == EntryBytes(es[1..]) + rest
  {
    var tail := EntryBytes(es[1..]) + rest;
    assert EntryBytes(es) + rest == [es[0].0] + Int32Bytes(es[0].1) + tail;
    FrontParts(es[0].0, Int32Bytes(es[0].1), tail);
  }

  lemma FrontParts(x: Byte, w: seq<Byte>, tail: seq<Byte>)
    requires |w| == 4
    ensures var bs := [x] + w + tail; bs[0] == x && bs[1..5] == w && bs[5..] == tail
  {
    var bs := [x] + w + tail;
    assert bs[1..5] == w;
    assert bs[5..] == tail;
  }

  /** The fields `read_frequency_table` takes from a stream: the byte count,
      the alphabet size, the pairs, and the number of header bytes. */
  datatype HeaderFields = HeaderFields(numberOfChars: Int32, alphabetPower: Int32,
                                       entries: seq<(Byte, Int32)>, size: nat)

  /** The number of pairs the reading loop `for (int i = 0; i < alphabet_power; ++i)`
      takes: none for a negative count. */
  function PairCount(alphabetPower: Int32): nat {
    if alphabetPower < 0 then 0 else alphabetPower
  }

  /** The header at the front of `bs`, or `Truncated` when it is cut short. */
  function ParseHeader(bs: seq<Byte>): (r: Result<HeaderFields, Fault>)
    ensures r.Ok? ==> r.value.size == 8 + 5 * PairCount(r.value.alphabetPower) <= |bs|
    ensures r.Ok? ==> |r.value.entries| == PairCount(r.value.alphabetPower)
  {
    if |bs| < 8 then Err(Truncated)
    else
      var n, k := Int32Of(bs[..4]), Int32Of(bs[4..8]);
      match ReadEntries(bs[8..], PairCount(k))
      case None => Err(Truncated)
      case Some(es) => Ok(HeaderFields(n, k, es, 8 + 5 * PairCount(k)))
  }

  /** A header written with `k` pairs reads back as the same fields,
      followed by the body. */
  lemma {:induction false} ParseHeaderBytes(n: Int32, k: Int32, es: seq<(Byte, Int32)>, body: seq<Byte>)
    requires |es| == k
    ensures ParseHeader(HeaderBytes(n, k, es) + body) == Ok(HeaderFields(n, k, es, 8 + 5 * k))
  {
    var bs := HeaderBytes(n, k, es) + body;
    assert bs == Int32Bytes(n) + Int32Bytes(k) + (EntryBytes(es) + body);
    assert bs[..4] == Int32Bytes(n);
    assert bs[4..8] == Int32Bytes(k);
    assert bs[8..] == EntryBytes(es) + body;
    Int32RoundTrip(n);
    Int32RoundTrip(k);
    ReadEntriesRoundTrip(es, body);
  }

  /** The header written for a byte count and a table reads back as that
      count, the table's size and its entries in map order, followed by the
      body. */
  lemma {:induction false} HeaderRoundTrip(n: Int32, m: map<Byte, Int32>, body: seq<Byte>)
    ensures |m| <= Int32Max
    ensures ParseHeader(HeaderBytes(n, |m|, Entries(m)) + body)
      == Ok(HeaderFields(n, |m|, Entries(m), 8 + 5 * |m|))
  {
    MapSizeBound(m);
    KeysInOrderLength(m);
    ParseHeaderBytes(n, |m|, Entries(m), body);
  }

  // ---------------------------------------------------------------------
  // Filling the table from the pairs

  /** `tree.add_symbol(symbol, frequency)` for every pair in turn; as
      `std::map::insert`, a symbol already present keeps its frequency. */
  function InsertAll(m: map<Byte, Int32>, es: seq<(Byte, Int32)>): map<Byte, Int32>
    decreases |es|
  {
    if es == [] then m
    else InsertAll(if es[0].0 in m then m else m[es[0].0 := es[0].1], es[1..])
  }

  lemma {:induction false} InsertAllSnoc(m: map<Byte, Int32>, es: seq<(Byte, Int32)>, e: (Byte, Int32))
    ensures InsertAll(m, es + [e]) == var r := InsertAll(m, es); if e.0 in r then r else r[e.0 := e.1]
    decreases |es|
  {
    if es == [] {
      assert [e][1..] == [];
    } else {
      assert (es + [e])[1..] == es[1..] + [e];
      InsertAllSnoc(if es[0].0 in m then m else m[es[0].0 := es[0].1], es[1..], e);
    }
  }

  /** The map whose entries are the pairs `m` has for the keys `ks`. */
  function Restrict(m: map<Byte, Int32>, ks: seq<Byte>): map<Byte, Int32>
    requires forall k :: k in ks ==> k in m
  {
    map k | k in ks :: m[k]
  }

  lemma {:induction false} InsertAllKeys(m: map<Byte, Int32>, acc: map<Byte, Int32>, ks: seq<Byte>)
    requires StrictlyAscending(ks)
    requires forall k :: k in ks ==> k in m && k !in acc
    ensures InsertAll(acc, EntriesOf(m, ks)) == acc + Restrict(m, ks)
    decreases |ks|
  {
    if ks != [] {
      var k0 := ks[0];
      InsertAllHead(m, acc, ks);
      InsertAllKeys(m, acc[k0 := m[k0]], ks[1..]);
      RestrictCons(m, ks);
      UpdateUnion(acc, Restrict(m, ks[1..]), k0, m[k0]);
    }
  }

  /** The first pair of `EntriesOf(m, ks)` is inserted as a new key. */
  lemma {:induction false} InsertAllHead(m: map<Byte, Int32>, acc: map<Byte, Int32>, ks: seq<Byte>)
    requires StrictlyAscending(ks) && ks != []
    requires forall k :: k in ks ==> k in m && k !in acc
    ensures InsertAll(acc, EntriesOf(m, ks)) == InsertAll(acc[ks[0] := m[ks[0]]], EntriesOf(m, ks[1..]))
    ensures StrictlyAscending(ks[1..]) && ks[0] !in ks[1..]
    ensures forall k :: k in ks[1..] ==> k in m && k !in acc[ks[0] := m[ks[0]]]
  {
    AscendingHead(ks);
    assert EntriesOf(m, ks)[1..] == EntriesOf(m, ks[1..]);
    assert forall i, j :: 0 <= i < j < |ks[1..]| ==> ks[1..][i] == ks[i + 1] && ks[1..][j] == ks[j + 1];
  }

  lemma UpdateUnion(a: map<Byte, Int32>, b: map<Byte, Int32>, k: Byte, v: Int32)
    requires k !in b
    ensures a[k := v] + b == a + b[k := v]
  {
  }

  lemma RestrictCons(m: map<Byte, Int32>, ks: seq<Byte>)
    requires ks != [] && forall k :: k in ks ==> k in m
    ensures Restrict(m, ks) == Restrict(m, ks[1..])[ks[0] := m[ks[0]]]
  {
    assert forall k :: k in ks <==> k == ks[0] || k in ks[1..];
  }

  /** Adding the entries of a table, in map order, to an empty table
      rebuilds the table. */
  lemma {:induction false} InsertAllEntries(m: map<Byte, Int32>)
    ensures InsertAll(map[], Entries(m)) == m
  {
    var ks := KeysInOrder(m);
    InsertAllKeys(m, map[], ks);
    RestrictToAllKeys(m, ks);
    assert map[] + m == m;
  }

  lemma RestrictToAllKeys(m: map<Byte, Int32>, ks: seq<Byte>)
    requires forall k :: k in ks <==> k in m
    ensures Restrict(m, ks) == m
  {
  }
}
