/** Octets, the ASCII codes the wire formats name, and the scanning functions every parser here uses. */
module Bytes {
  newtype byte = x: int | 0 <= x < 256

  const NUL: byte := 0
  const LF: byte := 10
  const CR: byte := 13
  const SP: byte := 32
  const COLON: byte := 58
  const SEMI: byte := 59
  const EQUALS: byte := 61
  const AT: byte := 64
  const BACKSLASH: byte := 92

  datatype Option<+T> = None | Some(value: T)

  /** The bytes of a text that is plain ASCII. */
  function Ascii(text: string): (r: seq<byte>)
    requires forall i :: 0 <= i < |text| ==> text[i] as int < 128
    ensures |r| == |text| && forall i :: 0 <= i < |r| ==> r[i] as int == text[i] as int
  {
    seq(|text|, i requires 0 <= i < |text| => text[i] as int as byte)
  }

  /** Position of the first `c`, or the length when there is none (`std::find`, `strchr`). */
  function Find<T(==)>(s: seq<T>, c: T): (k: nat)
    ensures k <= |s|
    ensures forall i :: 0 <= i < k ==> s[i] != c
    ensures k < |s| ==> s[k] == c
  {
    if s == [] || s[0] == c then 0 else 1 + Find(s[1..], c)
  }

  /** `Find` is the only position with no `c` before it and a `c` (or the end) at it. */
  lemma {:induction false} FindIs<T>(s: seq<T>, c: T, k: nat)
    requires k <= |s| && forall i :: 0 <= i < k ==> s[i] != c
    requires k < |s| ==> s[k] == c
    ensures Find(s, c) == k
  {
    if k > 0 {
      FindIs(s[1..], c, k - 1);
    }
  }

  /** The first position is decided by the text up to it. */
  lemma FindPrefix<T>(s: seq<T>, t: seq<T>, c: T)
    ensures Find(s, c) < |s| ==> Find(s + t, c) == Find(s, c)
    ensures Find(s, c) == |s| ==> Find(s + t, c) == |s| + Find(t, c)
  {
    hide Find;
    var k := Find(s, c);
    FindIs(s + t, c, if k < |s| then k else |s| + Find(t, c));
  }

  lemma SliceOfSlice<T>(s: seq<T>, lo: nat, hi: nat, i: nat, j: nat)
    requires lo <= hi <= |s| && i <= j <= hi - lo
    ensures s[lo..hi][i..j] == s[lo + i..lo + j]
  {
    var a, b := s[lo..hi][i..j], s[lo + i..lo + j];
    assert |a| == |b|;
    forall k | 0 <= k < |a| ensures a[k] == b[k] {
      assert a[k] == s[lo..hi][i + k] == s[lo + i + k];
    }
  }

  lemma SnocCons<T>(a: seq<T>, x: T, b: seq<T>)
    ensures (a + [x]) + b == a + ([x] + b)
  {
  }

  /** Leading spaces dropped. */
  function Trim(s: seq<byte>): (r: seq<byte>)
    ensures |r| <= |s|
    ensures r != [] ==> r[0] != SP
  {
    if s != [] && s[0] == SP then Trim(s[1..]) else s
  }

  /** Terminated text: what a C string starting here holds. */
  function CString(s: seq<byte>): (r: seq<byte>) {
    s[..Find(s, NUL)]
  }

  /** One trailing carriage return removed. */
  function StripCR(s: seq<byte>): (r: seq<byte>)
    ensures r <= s && |s| - 1 <= |r|
  {
    if s != [] && s[|s| - 1] == CR then s[..|s| - 1] else s
  }

  /** All pieces in order. */
  function Concat<T>(pieces: seq<seq<T>>): seq<T> {
    if pieces == [] then [] else pieces[0] + Concat(pieces[1..])
  }

  lemma {:induction false} ConcatSnoc<T>(pieces: seq<seq<T>>, p: seq<T>)
    ensures Concat(pieces + [p]) == Concat(pieces) + p
  {
    if pieces == [] {
      assert pieces + [p] == [p];
    } else {
      assert (pieces + [p])[1..] == pieces[1..] + [p];
      ConcatSnoc(pieces[1..], p);
    }
  }
}
