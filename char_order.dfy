/** The iteration order of a `std::map<char, V>`: ascending by the signed
    value of the `char` key, so that the bytes 0x80..0xFF (the negative chars
    -128..-1) come before 0x00..0x7F.  Both the leaves of the code tree and the
    entries of the file header are produced in this order. */
module CharOrder {
  import opened Common

  /** The value of a byte read as a signed `char`. */
  function SignedChar(b: Byte): (c: int)
    ensures -128 <= c < 128
    ensures c % 256 == b % 256
  {
    if b < 128 then b else b - 256
  }

  /** Position of a byte in the key order, 0 for 0x80 up to 255 for 0x7F. */
  function Rank(b: Byte): (r: nat)
    ensures r < 256
    ensures ByteOfRank(r) == b
  {
    SignedChar(b) + 128
  }

  function ByteOfRank(r: nat): Byte
    requires r < 256
  {
    if r < 128 then r + 128 else r - 128
  }

  /** `a` precedes `b` as `std::map<char, V>` keys. */
  predicate CharLess(a: Byte, b: Byte) {
    SignedChar(a) < SignedChar(b)
  }

  ghost predicate StrictlyAscending(ks: seq<Byte>) {
    forall i, j :: 0 <= i < j < |ks| ==> Rank(ks[i]) < Rank(ks[j])
  }

  /** The keys of `m` whose rank is at least `r`, in key order. */
  function KeysFrom<V>(m: map<Byte, V>, r: nat): (ks: seq<Byte>)
    requires r <= 256
    ensures StrictlyAscending(ks)
    ensures forall x :: x in ks <==> x in m && Rank(x) >= r
    decreases 256 - r
  {
    if r == 256 then []
    else
      var rest := KeysFrom(m, r + 1);
      if ByteOfRank(r) in m then [ByteOfRank(r)] + rest else rest
  }

  /** The keys of `m` in the order a `std::map<char, V>` iterates them. */
  function KeysInOrder<V>(m: map<Byte, V>): (ks: seq<Byte>)
    ensures StrictlyAscending(ks)
    ensures forall x :: x in ks <==> x in m
  {
    KeysFrom(m, 0)
  }

  /** In an ascending sequence the head is the one element of rank below
      every other, and the tail holds exactly the other elements. */
  lemma {:induction false} AscendingHead(ks: seq<Byte>)
    requires StrictlyAscending(ks) && ks != []
    ensures forall x :: x in ks ==> Rank(ks[0]) <= Rank(x)
    ensures forall x :: x in ks[1..] <==> x in ks && x != ks[0]
  {
    assert ks == [ks[0]] + ks[1..];
    forall x | x in ks[1..]
      ensures x != ks[0]
    {
      var k :| 0 <= k < |ks[1..]| && ks[1..][k] == x;
      assert ks[k + 1] == x;
    }
  }

  lemma HeadIsElement<T>(s: seq<T>)
    ensures s != [] ==> s[0] in s
  {
  }

  /** Two strictly ascending key sequences with the same elements are equal. */
  lemma {:induction false} AscendingUnique(a: seq<Byte>, b: seq<Byte>)
    requires StrictlyAscending(a) && StrictlyAscending(b)
    requires forall x :: x in a <==> x in b
    ensures a == b
  {
    if a == [] {
      HeadIsElement(b);
    } else {
      assert a[0] in b;
      AscendingHead(a);
      AscendingHead(b);
      assert Rank(a[0]) == Rank(b[0]);
      assert a[0] == b[0];
      AscendingUnique(a[1..], b[1..]);
      assert a == [a[0]] + a[1..];
      assert b == [b[0]] + b[1..];
    }
  }

  /** Any strictly ascending sequence of exactly the keys of `m` is
      `KeysInOrder(m)`. */
  lemma {:induction false} KeysInOrderUnique<V>(m: map<Byte, V>, ks: seq<Byte>)
    requires StrictlyAscending(ks)
    requires forall x :: x in ks <==> x in m
    ensures ks == KeysInOrder(m)
  {
    AscendingUnique(ks, KeysInOrder(m));
  }

  /** The key order depends on the keys alone, not on the values. */
  lemma {:induction false} KeysFromSameKeys<U, V>(m: map<Byte, U>, n: map<Byte, V>, r: nat)
    requires r <= 256 && m.Keys == n.Keys
    ensures KeysFrom(m, r) == KeysFrom(n, r)
    decreases 256 - r
  {
    if r < 256 {
      KeysFromSameKeys(m, n, r + 1);
      assert ByteOfRank(r) in m <==> ByteOfRank(r) in n;
    }
  }

  lemma {:induction false} KeysInOrderSameKeys<U, V>(m: map<Byte, U>, n: map<Byte, V>)
    requires m.Keys == n.Keys
    ensures KeysInOrder(m) == KeysInOrder(n)
  {
    KeysFromSameKeys(m, n, 0);
  }

  /** A `std::map` visits each of its keys exactly once. */
  lemma {:induction false} KeysInOrderLength<V>(m: map<Byte, V>)
    ensures |KeysInOrder(m)| == |m|
  {
    var ks := KeysInOrder(m);
    DistinctSetSize(ks);
    assert Elements(ks) == m.Keys;
  }

  /** The (key, value) pairs of `m` for the keys `ks`, in that order. */
  function EntriesOf<V>(m: map<Byte, V>, ks: seq<Byte>): (es: seq<(Byte, V)>)
    requires forall k :: k in ks ==> k in m
    ensures |es| == |ks|
    ensures forall i :: 0 <= i < |ks| ==> es[i] == (ks[i], m[ks[i]])
  {
    if ks == [] then [] else [(ks[0], m[ks[0]])] + EntriesOf(m, ks[1..])
  }

  /** The entries of `m` in the order a range-for over a `std::map<char, V>`
      visits them. */
  function Entries<V>(m: map<Byte, V>): seq<(Byte, V)> {
    EntriesOf(m, KeysInOrder(m))
  }

  /** The `i`-th entry visited is the `i`-th key with its value. */
  lemma EntryAt<V>(m: map<Byte, V>, i: nat)
    requires i < |KeysInOrder(m)|
    ensures |Entries(m)| == |KeysInOrder(m)|
    ensures Entries(m)[i] == (KeysInOrder(m)[i], m[KeysInOrder(m)[i]])
  {
  }

  lemma {:induction false} RankAtLeastIndex(ks: seq<Byte>, i: nat)
    requires StrictlyAscending(ks) && i < |ks|
    ensures Rank(ks[i]) >= i
  {
    if i > 0 {
      RankAtLeastIndex(ks, i - 1);
    }
  }

  /** A `std::map<char, V>` has at most 256 entries. */
  lemma {:induction false} MapSizeBound<V>(m: map<Byte, V>)
    ensures |m| <= 256
  {
    var ks := KeysInOrder(m);
    KeysInOrderLength(m);
    if |ks| > 256 {
      RankAtLeastIndex(ks, 256);
    }
  }
}
