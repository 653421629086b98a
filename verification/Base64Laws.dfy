/** The codec against section 4 of RFC 4648: the alphabet as printed there, and both directions as a change of base. */
module Base64Laws {
  import opened Bytes
  import opened Base64

  /** Table 1 of the standard: upper case, lower case, digits, plus, slash. */
  lemma AlphabetIs(v: nat)
    requires v < 64
    ensures Alphabet(v) as int ==
      if v < 26 then 'A' as int + v
      else if v < 52 then 'a' as int + (v - 26)
      else if v < 62 then '0' as int + (v - 52)
      else if v == 62 then '+' as int
      else '/' as int
  {
  }

  /** The number that bytes spell, most significant first. */
  function Octets(s: seq<byte>): nat {
    if s == [] then 0 else Octets(s[..|s| - 1]) * 256 + s[|s| - 1] as nat
  }

  /** The number that the alphabet characters of a text spell; the other bytes do not matter. */
  function Sextets(s: seq<byte>): nat {
    if s == [] then 0
    else
      var before, c := Sextets(s[..|s| - 1]), s[|s| - 1];
      if InAlphabet(c) then before * 64 + Value(c) else before
  }

  lemma OctetsSnoc(s: seq<byte>, a: byte)
    ensures Octets(s + [a]) == Octets(s) * 256 + a as nat
  {
    assert (s + [a])[..|s|] == s;
  }

  lemma SextetsSnoc(s: seq<byte>, c: byte)
    ensures Sextets(s + [c]) == if InAlphabet(c) then Sextets(s) * 64 + Value(c) else Sextets(s)
  {
    assert (s + [c])[..|s|] == s;
  }

  lemma OctetsThree(s: seq<byte>, a: byte, b: byte, c: byte)
    ensures Octets(s + [a, b, c]) == Octets(s) * 16777216 + Pack(a, b, c)
  {
    hide Octets;
    OctetsSnoc(s, a);
    OctetsSnoc(s + [a], b);
    OctetsSnoc(s + [a] + [b], c);
    assert s + [a, b, c] == s + [a] + [b] + [c];
  }

  lemma SextetsFour(s: seq<byte>, v3: nat, v2: nat, v1: nat, v0: nat)
    requires v3 < 64 && v2 < 64 && v1 < 64 && v0 < 64
    ensures Sextets(s + [Alphabet(v3), Alphabet(v2), Alphabet(v1), Alphabet(v0)]) ==
      Sextets(s) * 16777216 + 262144 * v3 + 4096 * v2 + 64 * v1 + v0
  {
    hide Sextets, Alphabet, Value;
    var a, b, c, d := Alphabet(v3), Alphabet(v2), Alphabet(v1), Alphabet(v0);
    ValueInvertsAlphabet(a, v3);
    ValueInvertsAlphabet(b, v2);
    ValueInvertsAlphabet(c, v1);
    ValueInvertsAlphabet(d, v0);
    SextetsSnoc(s, a);
    SextetsSnoc(s + [a], b);
    SextetsSnoc(s + [a] + [b], c);
    SextetsSnoc(s + [a] + [b] + [c], d);
    assert s + [a, b, c, d] == s + [a] + [b] + [c] + [d];
  }

  lemma GroupDigits(a: byte, b: byte, c: byte) returns (v3: nat, v2: nat, v1: nat, v0: nat)
    ensures v3 < 64 && v2 < 64 && v1 < 64 && v0 < 64 && Pack(a, b, c) == 262144 * v3 + 4096 * v2 + 64 * v1 + v0
    ensures EncodeGroup(a, b, c) == [Alphabet(v3), Alphabet(v2), Alphabet(v1), Alphabet(v0)]
  {
    hide Alphabet;
    v3, v2, v1, v0 := SextetsOf(Pack(a, b, c));
  }

  /** Whole groups: the characters of the encoding spell the same number as the bytes. */
  lemma {:induction false} EncodeGroupsIs(s: seq<byte>)
    requires |s| % 3 == 0
    ensures Sextets(Encode(s)) == Octets(s)
    decreases |s|
  {
    hide Encode, EncodeGroup, Octets, Sextets, Pack;
    if s == [] {
      EncodeNothing();
      Nothing();
    } else {
      var n := |s| - 3;
      var t, a, b, c := s[..n], s[n], s[n + 1], s[n + 2];
      assert s == t + [a, b, c];
      EncodeGroupsIs(t);
      EncodeAppend(t, [a, b, c]);
      OneGroup(a, b, c);
      var v3, v2, v1, v0 := GroupDigits(a, b, c);
      SextetsFour(Encode(t), v3, v2, v1, v0);
      OctetsThree(t, a, b, c);
    }
  }

  lemma Nothing()
    ensures Octets([]) == 0 && Sextets([]) == 0
  {
  }

  lemma OneGroup(a: byte, b: byte, c: byte)
    ensures Encode([a, b, c]) == EncodeGroup(a, b, c)
  {
    EncodeNothing();
    assert [a, b, c][3..] == [];
    assert EncodeGroup(a, b, c) + [] == EncodeGroup(a, b, c);
  }

  lemma LastOne(s: seq<byte>, a: byte)
    ensures var e := EncodeTail([a]);
      && Sextets(s + e) == Sextets(s) * 4096 + a as nat * 16
      && InAlphabet(e[0]) && InAlphabet(e[1]) && e[2..] == [61, 61]
  {
    hide Sextets, Alphabet, Value, EncodeTail;
    var v2, v1 := EncodeOne(a);
    var x, y := Alphabet(v2), Alphabet(v1);
    ValueInvertsAlphabet(x, v2);
    ValueInvertsAlphabet(y, v1);
    PadIsNone();
    SextetsSnoc(s, x);
    SextetsSnoc(s + [x], y);
    SextetsSnoc(s + [x] + [y], PAD);
    SextetsSnoc(s + [x] + [y] + [PAD], PAD);
    assert s + EncodeTail([a]) == s + [x] + [y] + [PAD] + [PAD];
  }

  lemma PadIsNone()
    ensures PAD == 61 && !InAlphabet(PAD)
  {
  }

  lemma LastTwo(s: seq<byte>, a: byte, b: byte)
    ensures var e := EncodeTail([a, b]);
      && Sextets(s + e) == Sextets(s) * 262144 + (a as nat * 256 + b as nat) * 4
      && InAlphabet(e[0]) && InAlphabet(e[1]) && InAlphabet(e[2]) && e[3..] == [61]
  {
    hide Sextets, Alphabet, Value, EncodeTail;
    var v2, v1, v0 := EncodeTwo(a, b);
    var x, y, z := Alphabet(v2), Alphabet(v1), Alphabet(v0);
    ValueInvertsAlphabet(x, v2);
    ValueInvertsAlphabet(y, v1);
    ValueInvertsAlphabet(z, v0);
    PadIsNone();
    SextetsSnoc(s, x);
    SextetsSnoc(s + [x], y);
    SextetsSnoc(s + [x] + [y], z);
    SextetsSnoc(s + [x] + [y] + [z], PAD);
    assert s + EncodeTail([a, b]) == s + [x] + [y] + [z] + [PAD];
  }

  function Thirds(n: nat): (m: nat)
    ensures m % 3 == 0 && m + n % 3 == n
  {
    n - n % 3
  }

  lemma EncodeOneMore(t: seq<byte>, a: byte)
    requires |t| % 3 == 0
    ensures Sextets(Encode(t + [a])) == Octets(t + [a]) * 16
  {
    hide Encode, EncodeTail, Octets, Sextets;
    EncodeAppend(t, [a]);
    EncodeGroupsIs(t);
    EncodeShort([a]);
    LastOne(Encode(t), a);
    OctetsSnoc(t, a);
  }

  lemma EncodeTwoMore(t: seq<byte>, a: byte, b: byte)
    requires |t| % 3 == 0
    ensures Sextets(Encode(t + [a, b])) == Octets(t + [a, b]) * 4
  {
    hide Encode, EncodeTail, Octets, Sextets;
    EncodeAppend(t, [a, b]);
    EncodeGroupsIs(t);
    EncodeShort([a, b]);
    LastTwo(Encode(t), a, b);
    OctetsSnoc(t, a);
    OctetsSnoc(t + [a], b);
    assert t + [a, b] == t + [a] + [b];
  }

  /** For every input the characters spell the number of the bytes, filled up with zero bits to a whole character. */
  lemma EncodeIs(s: seq<byte>)
    ensures Sextets(Encode(s)) ==
      if |s| % 3 == 0 then Octets(s) else if |s| % 3 == 1 then Octets(s) * 16 else Octets(s) * 4
  {
    hide Encode, Octets, Sextets;
    var r, n := |s| % 3, Thirds(|s|);
    var t := s[..n];
    if r == 0 {
      EncodeGroupsIs(s);
    } else if r == 1 {
      EncodeOneMore(t, s[|s| - 1]);
      assert s == t + [s[|s| - 1]];
    } else {
      EncodeTwoMore(t, s[|s| - 2], s[|s| - 1]);
      assert s == t + [s[|s| - 2], s[|s| - 1]];
    }
  }

  /** Character `i` of the encoding of `n` bytes is from the alphabet, or the padding that the standard puts there. */
  ghost predicate Shaped(e: seq<byte>, n: nat) {
    forall i :: 0 <= i < |e| ==> if i < (4 * n + 2) / 3 then InAlphabet(e[i]) else e[i] == 61
  }

  lemma {:induction false} EncodeShape(s: seq<byte>)
    ensures Shaped(Encode(s), |s|)
  {
    hide Value;
    PadIsNone();
    if |s| >= 3 {
      EncodeShape(s[3..]);
      GroupInAlphabet(s[0], s[1], s[2]);
      var g, e := EncodeGroup(s[0], s[1], s[2]), Encode(s[3..]);
      assert (4 * |s| + 2) / 3 == 4 + (4 * (|s| - 3) + 2) / 3;
      forall i | 0 <= i < |Encode(s)|
        ensures if i < (4 * |s| + 2) / 3 then InAlphabet(Encode(s)[i]) else Encode(s)[i] == 61
      {
        assert Encode(s)[i] == if i < 4 then g[i] else e[i - 4];
      }
    } else if |s| == 1 {
      LastOne([], s[0]);
      assert s == [s[0]];
    } else if |s| == 2 {
      LastTwo([], s[0], s[1]);
      assert s == [s[0], s[1]];
    }
  }

  lemma GroupInAlphabet(a: byte, b: byte, c: byte)
    ensures forall i :: 0 <= i < 4 ==> InAlphabet(EncodeGroup(a, b, c)[i])
  {
    hide Alphabet, Value, EncodeGroup;
    var v3, v2, v1, v0 := GroupDigits(a, b, c);
    ValueInvertsAlphabet(Alphabet(v3), v3);
    ValueInvertsAlphabet(Alphabet(v2), v2);
    ValueInvertsAlphabet(Alphabet(v1), v1);
    ValueInvertsAlphabet(Alphabet(v0), v0);
  }

  // ------------------------------------------------------------ decoding

  predicate AllAlphabet(f: seq<byte>) {
    forall i :: 0 <= i < |f| ==> InAlphabet(f[i])
  }

  lemma {:induction false} CountAll(f: seq<byte>)
    requires AllAlphabet(f)
    ensures Count(f) == |f|
  {
    hide InAlphabet;
    if f != [] {
      assert forall i :: 0 <= i < |f[1..]| ==> f[1..][i] == f[i + 1];
      CountAll(f[1..]);
    }
  }

  lemma DigitOf(c: byte) returns (v: nat)
    requires InAlphabet(c)
    ensures v < 64 && c == Alphabet(v)
  {
    hide Alphabet, Value;
    v := Value(c);
    ValueInvertsAlphabet(c, v);
  }

  lemma BytesOf(n: nat) returns (a: byte, b: byte, c: byte)
    requires n < 16777216
    ensures Pack(a, b, c) == n
  {
    var x, y := n / 256, n % 256;
    a, b, c := (x / 256) as byte, (x % 256) as byte, y as byte;
  }

  lemma GroupFor(v3: nat, v2: nat, v1: nat, v0: nat) returns (a: byte, b: byte, c: byte)
    requires v3 < 64 && v2 < 64 && v1 < 64 && v0 < 64
    ensures Pack(a, b, c) == 262144 * v3 + 4096 * v2 + 64 * v1 + v0
    ensures EncodeGroup(a, b, c) == [Alphabet(v3), Alphabet(v2), Alphabet(v1), Alphabet(v0)]
  {
    hide Alphabet, EncodeGroup;
    hide Pack;
    a, b, c := BytesOf(262144 * v3 + 4096 * v2 + 64 * v1 + v0);
    var w3, w2, w1, w0 := GroupDigits(a, b, c);
    SameDigits(4096 * v3 + 64 * v2 + v1, v0, 4096 * w3 + 64 * w2 + w1, w0);
    SameDigits(64 * v3 + v2, v1, 64 * w3 + w2, w1);
    SameDigits(v3, v2, w3, w2);
  }

  lemma SameDigits(x: nat, d: nat, y: nat, e: nat)
    requires 64 * x + d == 64 * y + e && d < 64 && e < 64
    ensures x == y && d == e
  {
  }

  /** Whole groups: the decoded bytes spell the same number as the characters. */
  lemma {:induction false} DecodeGroupsIs(f: seq<byte>)
    requires AllAlphabet(f) && |f| % 4 == 0
    ensures Decode(f).Some? && Octets(Decode(f).value) == Sextets(f)
    decreases |f|
  {
    hide Decode, EncodeGroup, Octets, Sextets, Pack, InAlphabet, Count, Alphabet;
    if f == [] {
      DecodeNothing();
      Nothing();
    } else {
      var n := |f| - 4;
      var t := f[..n];
      var v3 := DigitOf(f[n]);
      var v2 := DigitOf(f[n + 1]);
      var v1 := DigitOf(f[n + 2]);
      var v0 := DigitOf(f[n + 3]);
      var a, b, c := GroupFor(v3, v2, v1, v0);
      assert f == t + EncodeGroup(a, b, c);
      DecodeGroupsIs(t);
      CountAll(t);
      DecodeAppend(t, EncodeGroup(a, b, c));
      DecodeGroup(a, b, c, []);
      DecodeNothing();
      assert EncodeGroup(a, b, c) + [] == EncodeGroup(a, b, c) && [a, b, c] + [] == [a, b, c];
      OctetsThree(Decode(t).value, a, b, c);
      SextetsFour(t, v3, v2, v1, v0);
    }
  }

  lemma DecodeNothing()
    ensures Decode([]) == Some([])
  {
  }

  lemma LeftoverTwo(w: nat)
    requires w < 4096
    ensures DecodeTail(4096 + w) == Some([(w / 16) as byte])
  {
    var q, r := w / 16, w % 16;
    assert w == 16 * q + r;
    assert (4096 + w) * 4096 == 65536 * (256 + q) + 4096 * r;
  }

  lemma LeftoverThree(a: nat, b: nat, r: nat)
    requires a < 256 && b < 256 && r < 4
    ensures DecodeTail(262144 + (1024 * a + 4 * b + r)) == Some([a as byte, b as byte])
  {
    var n := (262144 + (1024 * a + 4 * b + r)) * 64;
    assert n == 65536 * (256 + a) + (256 * b + 64 * r);
    assert n == 256 * (65536 + 256 * a + b) + 64 * r;
    Div65536(n, 256 + a, 256 * b + 64 * r);
    Div256(n, 65536 + 256 * a + b, 64 * r);
    Div256(65536 + 256 * a + b, 256 + a, b);
    Div256(256 + a, 1, a);
  }

  lemma DecodeTwoIs(x: byte, y: byte) returns (r: byte)
    requires InAlphabet(x) && InAlphabet(y)
    ensures Decode([x, y]) == Some([r])
    ensures Sextets([x, y]) / 16 == r as int
  {
    hide DecodeFrom, DecodeTail, Sextets, Alphabet, Value;
    var v := DigitOf(x);
    var u := DigitOf(y);
    ValueInvertsAlphabet(x, v);
    ValueInvertsAlphabet(y, u);
    var w := 64 * v + u;
    DecodeTwo(v, u, []);
    assert [x] + ([y] + []) == [x, y];
    DecodeEnd(4096 + w);
    LeftoverTwo(w);
    r := (w / 16) as byte;
    Nothing();
    SextetsSnoc([], x);
    SextetsSnoc([] + [x], y);
    assert [] + [x] + [y] == [x, y];
  }

  lemma DecodeThreeIs(x: byte, y: byte, z: byte) returns (r: seq<byte>)
    requires InAlphabet(x) && InAlphabet(y) && InAlphabet(z)
    ensures Decode([x, y, z]) == Some(r) && |r| == 2
    ensures Sextets([x, y, z]) / 4 == r[0] as int * 256 + r[1] as int
  {
    hide DecodeFrom, DecodeTail, Sextets, Alphabet, Value;
    var v := DigitOf(x);
    var u := DigitOf(y);
    var t := DigitOf(z);
    ValueInvertsAlphabet(x, v);
    ValueInvertsAlphabet(y, u);
    ValueInvertsAlphabet(z, t);
    var w := 4096 * v + 64 * u + t;
    DecodeTwo(v, u, [z] + []);
    assert [x] + ([y] + ([z] + [])) == [x, y, z];
    ShiftLevel(4096 + 64 * v + u, t);
    DecodeSextet(4096 + 64 * v + u, t, []);
    DecodeEnd(262144 + w);
    var a, b, l := Quarters(w);
    LeftoverThree(a, b, l);
    r := [a as byte, b as byte];
    Nothing();
    SextetsSnoc([], x);
    SextetsSnoc([] + [x], y);
    SextetsSnoc([] + [x] + [y], z);
    assert [] + [x] + [y] + [z] == [x, y, z];
  }

  lemma Quarters(w: nat) returns (a: nat, b: nat, l: nat)
    requires w < 262144
    ensures a < 256 && b < 256 && l < 4 && w == 1024 * a + 4 * b + l && w / 4 == 256 * a + b
  {
    var q := w / 4;
    a, b, l := q / 256, q % 256, w % 4;
    assert w == 4 * q + l && q == 256 * a + b;
  }

  /** The characters of two sequences of which the second is short, by its length. */
  lemma SextetsAppend(s: seq<byte>, a: seq<byte>)
    requires AllAlphabet(a)
    ensures |a| == 2 ==> Sextets(s + a) == Sextets(s) * 4096 + Sextets(a)
    ensures |a| == 3 ==> Sextets(s + a) == Sextets(s) * 262144 + Sextets(a)
  {
    hide InAlphabet, Sextets, Value;
    if |a| == 2 {
      SextetsTwo(s, a);
    } else if |a| == 3 {
      var t := a[..2];
      SextetsTwo(s, t);
      SextetsSnoc(s + t, a[2]);
      SextetsSnoc(t, a[2]);
      assert s + a == s + t + [a[2]] && a == t + [a[2]];
    }
  }

  lemma SextetsTwo(s: seq<byte>, a: seq<byte>)
    requires AllAlphabet(a) && |a| == 2
    ensures Sextets(s + a) == Sextets(s) * 4096 + Sextets(a)
  {
    hide InAlphabet, Sextets, Value;
    Nothing();
    SextetsSnoc(s, a[0]);
    SextetsSnoc(s + [a[0]], a[1]);
    SextetsSnoc([], a[0]);
    SextetsSnoc([] + [a[0]], a[1]);
    assert s + a == s + [a[0]] + [a[1]] && a == [] + [a[0]] + [a[1]];
  }

  lemma {:induction false} SextetsFilter(s: seq<byte>)
    ensures Sextets(Filter(s)) == Sextets(s) && AllAlphabet(Filter(s))
    decreases |s|
  {
    hide InAlphabet, Value, Sextets, Filter;
    if s == [] {
      FilterNothing();
    } else {
      var t, c := s[..|s| - 1], s[|s| - 1];
      assert s == t + [c];
      SextetsFilter(t);
      FilterSnoc(t, c);
      SextetsSnoc(t, c);
      SextetsSnoc(Filter(t), c);
      assert Filter(t) + [] == Filter(t);
    }
  }

  lemma FilterNothing()
    ensures Filter([]) == []
  {
  }

  lemma {:induction false} FilterSnoc(s: seq<byte>, c: byte)
    ensures Filter(s + [c]) == Filter(s) + if InAlphabet(c) then [c] else []
  {
    if s == [] {
      assert s + [c] == [c] && [c][1..] == [];
    } else {
      assert (s + [c])[1..] == s[1..] + [c];
      FilterSnoc(s[1..], c);
    }
  }

  /** For every text that is accepted, the bytes spell the number of its alphabet characters, without the bits that fill
      no byte. */
  lemma DecodeIs(s: seq<byte>)
    requires Count(s) % 4 != 1
    ensures Decode(s).Some? && |Decode(s).value| == Count(s) * 3 / 4
    ensures Octets(Decode(s).value) ==
      if Count(s) % 4 == 0 then Sextets(s) else if Count(s) % 4 == 2 then Sextets(s) / 16 else Sextets(s) / 4
  {
    hide Count, Filter, Octets, Sextets, DecodeFrom, InAlphabet;
    DecodeFailsIff(s);
    DecodeFilter(1, s);
    SextetsFilter(s);
    var f := Filter(s);
    assert |f| == Count(s) && Decode(f) == Decode(s);
    AllAlphabetIs(f);
  }

  lemma AllAlphabetIs(f: seq<byte>)
    requires AllAlphabet(f) && |f| % 4 != 1
    ensures Decode(f).Some?
    ensures Octets(Decode(f).value) ==
      if |f| % 4 == 0 then Sextets(f) else if |f| % 4 == 2 then Sextets(f) / 16 else Sextets(f) / 4
  {
    hide Count, Octets, Sextets, Decode, InAlphabet;
    var n := |f| / 4 * 4;
    var t, a := f[..n], f[n..];
    assert f == t + a && |a| == |f| % 4;
    DecodeGroupsIs(t);
    CountAll(t);
    DecodeAppend(t, a);
    SextetsAppend(t, a);
    var d := Decode(t).value;
    if |a| == 0 {
      assert t == f && a == [];
      DecodeNothing();
      assert d + [] == d;
    } else if |a| == 2 {
      assert a == [a[0], a[1]];
      var r := DecodeTwoIs(a[0], a[1]);
      OctetsSnoc(d, r);
      Sixteenth(Sextets(t), Sextets(a));
    } else {
      assert a == [a[0], a[1], a[2]];
      var r := DecodeThreeIs(a[0], a[1], a[2]);
      OctetsSnoc(d, r[0]);
      OctetsSnoc(d + [r[0]], r[1]);
      assert d + r == d + [r[0]] + [r[1]];
      Quarter(Sextets(t), Sextets(a));
    }
  }

  lemma Sixteenth(x: nat, y: nat)
    ensures (x * 4096 + y) / 16 == x * 256 + y / 16
  {
    var q, r := y / 16, y % 16;
    assert x * 4096 + y == 16 * (x * 256 + q) + r;
  }

  lemma Quarter(x: nat, y: nat)
    ensures (x * 262144 + y) / 4 == x * 65536 + y / 4
  {
    var q, r := y / 4, y % 4;
    assert x * 262144 + y == 4 * (x * 65536 + q) + r;
  }
}
