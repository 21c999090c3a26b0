/** Bytes, little-endian fields and the small value types the other modules share. */
module Bytes {

  type byte = x: int | 0 <= x < 256

  datatype Option<+T> = None | Some(value: T)

  const TWO_16: int := 0x1_0000
  const TWO_32: int := 0x1_0000_0000
  const TWO_63: int := 0x8000_0000_0000_0000
  const TWO_64: int := 0x1_0000_0000_0000_0000

  function Min(a: nat, b: nat): nat {
    if a < b then a else b
  }

  /** The 16-bit little-endian field at offset `at`. */
  function LE16(s: seq<byte>, at: nat): (r: nat)
    requires at + 2 <= |s|
    ensures r < TWO_16
  {
    var b0: int, b1: int := s[at], s[at + 1];
    b0 + 0x100 * b1
  }

  /** The 32-bit little-endian field at offset `at`. */
  function LE32(s: seq<byte>, at: nat): (r: nat)
    requires at + 4 <= |s|
    ensures r < TWO_32
  {
    LE16(s, at) + TWO_16 * LE16(s, at + 2)
  }

  function Put16(n: nat): (r: seq<byte>)
    requires n < TWO_16
    ensures |r| == 2
  {
    [n % 256, n / 256]
  }

  function Put32(n: nat): (r: seq<byte>)
    requires n < TWO_32
    ensures |r| == 4
  {
    Put16(n % TWO_16) + Put16(n / TWO_16)
  }

  /** A 16-bit number written at an offset is read back from that offset. */
  lemma Field16(s: seq<byte>, at: nat, n: nat)
    requires n < TWO_16 && at + 2 <= |s| && s[at..at + 2] == Put16(n)
    ensures LE16(s, at) == n
  {
    assert s[at] == s[at..at + 2][0] && s[at + 1] == s[at..at + 2][1];
  }

  /** A 32-bit number written at an offset is read back from that offset. */
  lemma Field32(s: seq<byte>, at: nat, n: nat)
    requires n < TWO_32 && at + 4 <= |s| && s[at..at + 4] == Put32(n)
    ensures LE32(s, at) == n
  {
    assert s[at..at + 2] == s[at..at + 4][..2] == Put16(n % TWO_16);
    assert s[at + 2..at + 4] == s[at..at + 4][2..] == Put16(n / TWO_16);
    Field16(s, at, n % TWO_16);
    Field16(s, at + 2, n / TWO_16);
  }

  function Zeros(n: nat): seq<byte> {
    seq(n, _ => 0)
  }

  /** `buf` with `x` stored at offset `at`. */
  function Splice(buf: seq<byte>, at: nat, x: seq<byte>): seq<byte>
    requires at + |x| <= |buf|
  {
    buf[..at] + x + buf[at + |x|..]
  }

  lemma Assoc<T>(a: seq<T>, b: seq<T>, c: seq<T>)
    ensures a + b + c == a + (b + c)
  {
  }

  lemma SubSlice<T>(s: seq<T>, at: nat, n: nat, i: nat, j: nat)
    requires i <= j <= n && at + n <= |s|
    ensures s[at..at + n][i..j] == s[at + i..at + j]
  {
    var x := s[at..at + n];
    forall k | 0 <= k < j - i ensures x[i..j][k] == s[at + i..at + j][k] {
      assert x[i + k] == s[at + (i + k)];
    }
  }

  lemma MiddleSlice<T>(a: seq<T>, x: seq<T>, b: seq<T>)
    ensures (a + x + b)[|a|..|a| + |x|] == x
  {
  }

  lemma CutAppend<T>(a: seq<T>, b: seq<T>, n: nat)
    requires n <= |a|
    ensures (a + b)[..n] == a[..n] && (a + b)[n..] == a[n..] + b
    ensures n == |a| ==> (a + b)[..n] == a && (a + b)[n..] == b
  {
  }

  /** The concatenation of a list of byte strings. */
  function Concat(xs: seq<seq<byte>>): seq<byte> {
    if xs == [] then [] else xs[0] + Concat(xs[1..])
  }

  lemma {:induction false} ConcatAppend(xs: seq<seq<byte>>, ys: seq<seq<byte>>)
    ensures Concat(xs + ys) == Concat(xs) + Concat(ys)
  {
    if xs == [] {
      assert xs + ys == ys;
    } else {
      ConcatAppend(xs[1..], ys);
      assert (xs + ys)[0] == xs[0] && (xs + ys)[1..] == xs[1..] + ys;
    }
  }

  predicate AllSized(xs: seq<seq<byte>>, size: nat) {
    forall i :: 0 <= i < |xs| ==> |xs[i]| == size
  }

  lemma {:induction false} ConcatLength(xs: seq<seq<byte>>, size: nat)
    requires AllSized(xs, size)
    ensures |Concat(xs)| == |xs| * size
  {
    if xs != [] {
      ConcatLength(xs[1..], size);
      assert |xs| * size == size + (|xs| - 1) * size;
    }
  }

  /** Block i of a concatenation of equally long blocks stands at byte i * size. */
  lemma {:induction false} ConcatBlock(xs: seq<seq<byte>>, size: nat, i: nat)
    requires i < |xs| && AllSized(xs, size)
    ensures i * size + size <= |Concat(xs)| == |xs| * size
    ensures Concat(xs)[i * size..i * size + size] == xs[i]
  {
    ConcatLength(xs, size);
    assert xs == xs[..i] + [xs[i]] + xs[i + 1..];
    ConcatAppend(xs[..i] + [xs[i]], xs[i + 1..]);
    ConcatAppend(xs[..i], [xs[i]]);
    ConcatLength(xs[..i], size);
    assert Concat([xs[i]]) == xs[i] + Concat([]);
  }

  lemma QuotientNat(a: nat, b: nat)
    requires b > 0
    ensures 0 <= a / b
  {
  }

  lemma ProductNat(a: nat, b: nat)
    ensures 0 <= a * b
  {
  }

  lemma MulMono(a: nat, b: nat, c: nat)
    requires a <= b
    ensures a * c <= b * c
  {
    assert (b - a) * c >= 0;
  }

  /** `x` stands at `offset` in the file. */
  predicate Holds(file: seq<byte>, offset: nat, x: seq<byte>) {
    offset + |x| <= |file| && file[offset..offset + |x|] == x
  }

  lemma HoldsParts(file: seq<byte>, offset: nat, x: seq<byte>, y: seq<byte>)
    requires Holds(file, offset, x + y)
    ensures Holds(file, offset, x) && Holds(file, offset + |x|, y)
  {
    var all := file[offset..offset + |x + y|];
    assert file[offset..offset + |x|] == all[..|x|];
    assert file[offset + |x|..offset + |x| + |y|] == all[|x|..];
  }
}
