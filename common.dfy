/** Basic types shared by the whole model: bytes, the C `int` range,
    Option/Result, powers of two and constant bit strings. */
module Common {

  /** One raw byte of a file, read through a C `char`. */
  type Byte = x: int | 0 <= x < 256

  const Int32Min: int := -0x8000_0000
  const Int32Max: int := 0x7fff_ffff

  /** The range of a C `int` on the platforms the program targets. */
  type Int32 = x: int | Int32Min <= x <= Int32Max

  /** A code word: the '0'/'1' string of the source, `true` standing for '1'. */
  type Code = seq<bool>

  datatype Option<+T> = None | Some(value: T)

  datatype Result<+T, +E> = Ok(value: T) | Err(error: E)

  /** Why a run of the decompressor goes wrong on input the compressor
      would not have written. */
  datatype Fault =
    | Truncated          // the stream ends inside the header
    | EmptyAlphabet      // `build` on an empty list takes the front of an empty list
    | Overflow           // a parent frequency does not fit an `int`
    | NullDereference    // `read_bits` follows a null child pointer
    | UnsetSymbol        // `read_bits` prints the never-set symbol of an internal node

  function Pow2(k: nat): (r: nat)
    ensures r >= 1
  {
    if k == 0 then 1 else 2 * Pow2(k - 1)
  }

  function Zeros(n: nat): (z: seq<bool>)
    ensures |z| == n && forall i :: 0 <= i < n ==> !z[i]
  {
    seq(n, _ => false)
  }

  function Ones(n: nat): (o: seq<bool>)
    ensures |o| == n && forall i :: 0 <= i < n ==> o[i]
  {
    seq(n, _ => true)
  }

  function Repeat<T>(x: T, n: nat): (r: seq<T>)
    ensures |r| == n && forall i :: 0 <= i < n ==> r[i] == x
  {
    seq(n, _ => x)
  }

  /** Extending a prefix by one element. */
  lemma Snoc<T>(s: seq<T>, i: nat)
    requires i < |s|
    ensures s[..i + 1] == s[..i] + [s[i]]
  {
  }

  /** A slice that is a concatenation splits into a slice per part. */
  lemma SliceSplit<T>(s: seq<T>, i: nat, a: seq<T>, b: seq<T>)
    requires i + |a| + |b| <= |s| && s[i..i + |a| + |b|] == a + b
    ensures s[i..i + |a|] == a && s[i + |a|..i + |a| + |b|] == b
  {
    assert s[i..i + |a|] == s[i..i + |a| + |b|][..|a|];
    assert s[i + |a|..i + |a| + |b|] == s[i..i + |a| + |b|][|a|..];
  }

  /** The set of the elements of a sequence. */
  function Elements<T>(s: seq<T>): set<T> {
    set x | x in s
  }

  lemma {:induction false} DistinctSetSize<T>(s: seq<T>)
    requires forall i, j :: 0 <= i < j < |s| ==> s[i] != s[j]
    ensures |Elements(s)| == |s|
  {
    if s == [] {
      assert Elements(s) == {};
    } else {
      DistinctSetSize(s[1..]);
      assert s[0] !in Elements(s[1..]);
      assert Elements(s) == {s[0]} + Elements(s[1..]);
    }
  }

}
