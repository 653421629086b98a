/** The Base64 codec (section 4 of RFC 4648) with its sentinel-bit accumulator. Shifts and masks of the 32-bit
    accumulator are written as multiplication, division and remainder, wrap-around included. */
module Base64 {
  import opened Bytes

  const PAD: byte := 61
  const WORD := 0x1_0000_0000

  function EncodedSize(len: nat): nat { (len + 2) / 3 * 4 }

  function DecodedSize(len: nat): nat { (len + 3) / 4 * 3 }

  /** On 32-bit words the source's shifts, ors and masks are this arithmetic. */
  lemma WordArithmetic(w: bv32, v: bv32)
    requires v < 64
    ensures (w << 6) | v == w * 64 + v
    ensures 0x3f & w == w % 64 && 0x3f & (w >> 6) == w / 64 % 64
    ensures 0x3f & (w >> 12) == w / 4096 % 64 && 0x3f & (w >> 18) == w / 262144 % 64
  {
  }

  /** Packing the bytes of a group, and of a final partial group. */
  lemma WordPacking(a: bv32, b: bv32, c: bv32)
    requires a < 256 && b < 256 && c < 256
    ensures (a << 16) | (b << 8) | c == a * 65536 + b * 256 + c
    ensures (a << 10) | (b << 2) == a * 1024 + b * 4
  {
  }

  /** The bytes put out, each a word converted to eight bits; the leftover bits shifted; the tests of the sentinel. */
  lemma WordOutputs(w: bv32)
    ensures 0xff & w == w % 256 && 0xff & (w >> 8) == w / 256 % 256 && 0xff & (w >> 16) == w / 65536 % 256
    ensures w << 6 == w * 64 && w << 12 == w * 4096
    ensures w >> 6 == w / 64 && w >> 12 == w / 4096 && w >> 18 == w / 262144 && w >> 24 == w / 16777216
  {
  }

  // ------------------------------------------------------------ the alphabet tables

  function Alphabet(v: nat): byte
    requires v < 64
  {
    if v < 26 then (65 + v) as byte
    else if v < 52 then (97 + v - 26) as byte
    else if v < 62 then (48 + v - 52) as byte
    else if v == 62 then 43
    else 47
  }

  /** The reverse table: -1 for every byte outside the alphabet. */
  function Value(c: byte): (v: int)
    ensures -1 <= v < 64
  {
    if 65 <= c <= 90 then c as int - 65
    else if 97 <= c <= 122 then c as int - 97 + 26
    else if 48 <= c <= 57 then c as int - 48 + 52
    else if c == 43 then 62
    else if c == 47 then 63
    else -1
  }

  lemma ValueInvertsAlphabet(c: byte, v: nat)
    requires v < 64
    ensures Value(c) == v <==> c == Alphabet(v)
  {
  }

  predicate InAlphabet(c: byte) { Value(c) != -1 }

  // ------------------------------------------------------------ encoding

  function Sextet(buffer: nat, i: nat): byte
    requires i < 4
  {
    var shifted := match i case 0 => buffer case 1 => buffer / 64 case 2 => buffer / 4096 case _ => buffer / 262144;
    Alphabet(shifted % 64)
  }

  function Pack(a: byte, b: byte, c: byte): nat {
    a as int * 65536 + b as int * 256 + c as int
  }

  /** The final partial group: its 18-bit accumulator is read from sextet 2 down. */
  function EncodeTail(s: seq<byte>): (r: seq<byte>)
    requires |s| < 3
    ensures |r| == EncodedSize(|s|)
  {
    if s == [] then []
    else
      var buffer := s[0] as int * 1024 + (if |s| == 2 then s[1] as int * 4 else 0);
      [Sextet(buffer, 2), Sextet(buffer, 1), if |s| == 2 then Sextet(buffer, 0) else PAD, PAD]
  }

  function EncodeGroup(a: byte, b: byte, c: byte): (r: seq<byte>)
    ensures |r| == 4
  {
    var buffer := Pack(a, b, c);
    [Sextet(buffer, 3), Sextet(buffer, 2), Sextet(buffer, 1), Sextet(buffer, 0)]
  }

  function Encode(s: seq<byte>): (r: seq<byte>)
    ensures |r| == EncodedSize(|s|)
  {
    if |s| < 3 then EncodeTail(s)
    else
      EncodedSizeStep(|s| - 3);
      EncodeGroup(s[0], s[1], s[2]) + Encode(s[3..])
  }

  lemma EncodedSizeStep(n: nat)
    ensures EncodedSize(n + 3) == EncodedSize(n) + 4
  {
    assert (n + 5) / 3 == (n + 2) / 3 + 1;
  }

  /** Whole groups encode independently of what follows. */
  lemma {:induction false} EncodeAppend(s: seq<byte>, t: seq<byte>)
    requires |s| % 3 == 0
    ensures Encode(s + t) == Encode(s) + Encode(t)
  {
    if s == [] {
      assert s + t == t;
    } else {
      assert (s + t)[3..] == s[3..] + t;
      EncodeAppend(s[3..], t);
    }
  }

  method Put4(output: array<byte>, o: nat, a: byte, b: byte, c: byte, d: byte, ghost size: nat)
    requires o + 4 <= size <= output.Length
    modifies output
    ensures output[..o + 4] == old(output[..o]) + [a, b, c, d] && output[size..] == old(output[size..])
  {
    output[o], output[o + 1], output[o + 2], output[o + 3] := a, b, c, d;
  }

  lemma SizeInGroups(n: nat, g: nat)
    ensures 3 * g < n ==> 4 * g + 4 <= EncodedSize(n)
    ensures 3 * g <= n < 3 * g + 3 ==> EncodedSize(n) == 4 * g + (if n == 3 * g then 0 else 4)
  {
    if 3 * g <= n < 3 * g + 3 {
      assert (n + 2) / 3 == g + (if n == 3 * g then 0 else 1);
    } else if 3 * g < n {
      assert (n + 2) / 3 >= g + 1;
    }
  }

  method EncodeInto(input: seq<byte>, output: array<byte>)
    requires output.Length >= EncodedSize(|input|)
    modifies output
    ensures output[..EncodedSize(|input|)] == Encode(input)
    ensures output[EncodedSize(|input|)..] == old(output[EncodedSize(|input|)..])
  {
    hide Sextet, Encode, EncodedSize, EncodeTail, EncodeGroup, Pack;
    var cursor, o := 0, 0;
    ghost var size, groups := EncodedSize(|input|), 0;
    ghost var later := output[size..];
    EncodeNothing();
    SizeInGroups(|input|, 0);
    while |input| - cursor >= 3
      invariant cursor == 3 * groups <= |input| && o == 4 * groups <= size
      invariant output[..o] == Encode(input[..cursor])
      invariant output[size..] == later
    {
      SizeInGroups(|input|, groups);
      EncodeSnoc(input, cursor);
      GroupIs(input[cursor], input[cursor + 1], input[cursor + 2]);
      var buffer := Pack(input[cursor], input[cursor + 1], input[cursor + 2]);
      Put4(output, o, Sextet(buffer, 3), Sextet(buffer, 2), Sextet(buffer, 1), Sextet(buffer, 0), size);
      cursor := cursor + 3;
      o := o + 4;
      groups := groups + 1;
    }
    SizeInGroups(|input|, groups);
    EncodeAppend(input[..cursor], input[cursor..]);
    assert input[..cursor] + input[cursor..] == input;
    EncodeShort(input[cursor..]);
    TailIs(input[cursor..]);
    if cursor < |input| {
      var buffer := input[cursor] as int * 1024;
      cursor := cursor + 1;
      if cursor < |input| {
        buffer := buffer + input[cursor] as int * 4;
      }
      Put4(output, o, Sextet(buffer, 2), Sextet(buffer, 1),
           if cursor < |input| then Sextet(buffer, 0) else PAD, PAD, size);
    }
  }

  lemma GroupIs(a: byte, b: byte, c: byte)
    ensures var buffer := Pack(a, b, c);
      EncodeGroup(a, b, c) == [Sextet(buffer, 3), Sextet(buffer, 2), Sextet(buffer, 1), Sextet(buffer, 0)]
  {
  }

  lemma TailIs(s: seq<byte>)
    requires |s| < 3
    ensures s == [] ==> EncodeTail(s) == []
    ensures |s| == 1 ==> EncodeTail(s) == [Sextet(s[0] as int * 1024, 2), Sextet(s[0] as int * 1024, 1), PAD, PAD]
    ensures |s| == 2 ==> var buffer := s[0] as int * 1024 + s[1] as int * 4;
      EncodeTail(s) == [Sextet(buffer, 2), Sextet(buffer, 1), Sextet(buffer, 0), PAD]
  {
  }

  lemma EncodeNothing()
    ensures Encode([]) == []
  {
  }

  lemma EncodeShort(s: seq<byte>)
    requires |s| < 3
    ensures Encode(s) == EncodeTail(s)
  {
  }

  lemma EncodeSnoc(input: seq<byte>, cursor: nat)
    requires cursor % 3 == 0 && cursor + 3 <= |input|
    ensures Encode(input[..cursor + 3]) ==
      Encode(input[..cursor]) + EncodeGroup(input[cursor], input[cursor + 1], input[cursor + 2])
  {
    var g := input[cursor..cursor + 3];
    assert input[..cursor + 3] == input[..cursor] + g;
    EncodeAppend(input[..cursor], g);
    assert g[3..] == [];
    assert Encode(g) == EncodeGroup(g[0], g[1], g[2]) + Encode([]);
  }

  // ------------------------------------------------------------ decoding

  /** `buffer << 6 | value` on 32 bits. */
  function Shift(buffer: nat, value: nat): nat
    requires value < 64
  {
    buffer * 64 % WORD + value
  }

  function Low8(n: nat): byte {
    (n % 256) as byte
  }

  /** What the leftover bits are worth, by how far the sentinel has moved; one lone sextet is an error. */
  function DecodeTail(buffer: nat): (r: Option<seq<byte>>) {
    if buffer / 262144 != 0 then
      var b := buffer * 64 % WORD;
      Some([Low8(b / 65536), Low8(b / 256)])
    else if buffer / 4096 != 0 then
      var b := buffer * 4096 % WORD;
      Some([Low8(b / 65536)])
    else if buffer / 64 != 0 then None
    else Some([])
  }

  function Group(buffer: nat): seq<byte> {
    [Low8(buffer / 65536), Low8(buffer / 256), Low8(buffer)]
  }

  function Prepend(a: seq<byte>, r: Option<seq<byte>>): Option<seq<byte>> {
    if r.Some? then Some(a + r.value) else None
  }

  function DecodeFrom(buffer: nat, s: seq<byte>): Option<seq<byte>>
    decreases |s|
  {
    if s == [] then DecodeTail(buffer)
    else if Value(s[0]) == -1 then DecodeFrom(buffer, s[1..])
    else
      var b := Shift(buffer, Value(s[0]));
      if b / 16777216 != 0 then Prepend(Group(b), DecodeFrom(1, s[1..]))
      else DecodeFrom(b, s[1..])
  }

  function Decode(s: seq<byte>): Option<seq<byte>> {
    DecodeFrom(1, s)
  }

  /** The number of sextets behind the sentinel bit. */
  function Level(buffer: nat): nat {
    if buffer < 64 then 0 else if buffer < 4096 then 1 else if buffer < 262144 then 2 else 3
  }

  /** The accumulator between steps: a sentinel bit above zero to three sextets. */
  predicate Sentinel(buffer: nat) {
    buffer == 1 || 64 <= buffer < 128 || 4096 <= buffer < 8192 || 262144 <= buffer < 524288
  }

  function Count(s: seq<byte>): nat {
    if s == [] then 0 else (if InAlphabet(s[0]) then 1 else 0) + Count(s[1..])
  }

  function Filter(s: seq<byte>): (r: seq<byte>)
    ensures |r| == Count(s)
    ensures forall i :: 0 <= i < |r| ==> InAlphabet(r[i])
  {
    if s == [] then []
    else if InAlphabet(s[0]) then [s[0]] + Filter(s[1..])
    else Filter(s[1..])
  }

  /** One step: the accumulator never wraps, and a group is complete after four sextets. */
  lemma ShiftLevel(buffer: nat, v: nat)
    requires Sentinel(buffer) && v < 64
    ensures Shift(buffer, v) == buffer * 64 + v
    ensures Shift(buffer, v) / 16777216 != 0 <==> Level(buffer) == 3
    ensures Level(buffer) < 3 ==> Sentinel(Shift(buffer, v)) && Level(Shift(buffer, v)) == Level(buffer) + 1
  {
  }

  lemma FourMore(n: nat)
    ensures (n + 4) % 4 == n % 4 && (n + 4) * 3 / 4 == n * 3 / 4 + 3
  {
  }

  /** Failure and length, for every input: a lone sextet at the end is the only error. */
  lemma {:induction false} DecodeShape(buffer: nat, s: seq<byte>)
    requires Sentinel(buffer)
    ensures DecodeFrom(buffer, s).None? <==> (Level(buffer) + Count(s)) % 4 == 1
    ensures DecodeFrom(buffer, s).Some? ==> |DecodeFrom(buffer, s).value| == (Level(buffer) + Count(s)) * 3 / 4
    decreases |s|
  {
    hide Shift, Group, DecodeTail, Level, Sentinel, Value;
    if s == [] {
      LevelMax(buffer);
      TailShape(buffer);
    } else if !InAlphabet(s[0]) {
      DecodeShape(buffer, s[1..]);
    } else {
      var b := Shift(buffer, Value(s[0]));
      ShiftLevel(buffer, Value(s[0]));
      if Level(buffer) == 3 {
        LevelOne();
        DecodeShape(1, s[1..]);
        GroupLength(b);
        FourMore(Count(s[1..]));
      } else {
        LevelMax(buffer);
        DecodeShape(b, s[1..]);
      }
    }
  }

  lemma LevelMax(buffer: nat)
    ensures Level(buffer) <= 3
  {
  }

  lemma TailShape(buffer: nat)
    requires Sentinel(buffer)
    ensures DecodeTail(buffer).None? <==> Level(buffer) == 1
    ensures DecodeTail(buffer).Some? ==> |DecodeTail(buffer).value| == Level(buffer) * 3 / 4
  {
  }

  lemma GroupLength(buffer: nat)
    ensures |Group(buffer)| == 3
  {
  }

  lemma {:induction false} CountBound(s: seq<byte>)
    ensures Count(s) <= |s|
  {
    if s != [] {
      CountBound(s[1..]);
    }
  }

  /** `decode` fails exactly when the alphabet characters are one over a multiple of four, and never yields more
      than `decoded_size` bytes. */
  lemma DecodeFailsIff(s: seq<byte>)
    ensures Decode(s).None? <==> Count(s) % 4 == 1
    ensures Decode(s).Some? ==> |Decode(s).value| == Count(s) * 3 / 4 <= DecodedSize(|s|)
  {
    DecodeShape(1, s);
    CountBound(s);
  }

  /** The sizes are the least multiples that hold every result. */
  lemma SizesAre(n: nat)
    ensures EncodedSize(n) % 4 == 0 && 4 * n <= 3 * EncodedSize(n) < 4 * n + 12
    ensures DecodedSize(n) % 3 == 0 && 3 * n <= 4 * DecodedSize(n) < 3 * n + 12
  {
    var p, q := (n + 2) / 3, (n + 3) / 4;
    assert n + 2 == 3 * p + (n + 2) % 3 && n + 3 == 4 * q + (n + 3) % 4;
  }

  /** Only the alphabet characters matter. */
  lemma {:induction false} DecodeFilter(buffer: nat, s: seq<byte>)
    ensures DecodeFrom(buffer, s) == DecodeFrom(buffer, Filter(s))
    decreases |s|
  {
    hide Shift, Group, DecodeTail;
    if s != [] {
      if InAlphabet(s[0]) {
        assert Filter(s)[1..] == Filter(s[1..]);
        var b := Shift(buffer, Value(s[0]));
        DecodeFilter(1, s[1..]);
        DecodeFilter(b, s[1..]);
      } else {
        DecodeFilter(buffer, s[1..]);
      }
    }
  }

  /** A piece with whole groups of alphabet characters decodes independently of what follows. */
  lemma {:induction false} DecodeAppendFrom(buffer: nat, s: seq<byte>, t: seq<byte>)
    requires Sentinel(buffer) && (Level(buffer) + Count(s)) % 4 == 0
    ensures DecodeFrom(buffer, s).Some?
    ensures DecodeFrom(buffer, s + t) == Prepend(DecodeFrom(buffer, s).value, Decode(t))
    decreases |s|
  {
    hide Shift, Group, DecodeTail;
    DecodeShape(buffer, s);
    if s == [] {
      assert s + t == t;
      TailShape(buffer);
      PrependNothing(Decode(t));
    } else {
      assert (s + t)[1..] == s[1..] + t;
      if !InAlphabet(s[0]) {
        DecodeAppendFrom(buffer, s[1..], t);
      } else {
        var v := Value(s[0]);
        var b := Shift(buffer, v);
        ShiftLevel(buffer, v);
        if Level(buffer) == 3 {
          DecodeAppendFrom(1, s[1..], t);
          PrependTwice(Group(b), DecodeFrom(1, s[1..]).value, Decode(t));
        } else {
          DecodeAppendFrom(b, s[1..], t);
        }
      }
    }
  }

  lemma PrependNothing(r: Option<seq<byte>>)
    ensures Prepend([], r) == r
  {
    if r.Some? {
      assert [] + r.value == r.value;
    }
  }

  lemma PrependTwice(a: seq<byte>, b: seq<byte>, r: Option<seq<byte>>)
    ensures Prepend(a, Prepend(b, r)) == Prepend(a + b, r)
  {
    if r.Some? {
      assert a + (b + r.value) == (a + b) + r.value;
    }
  }

  lemma DecodeAppend(s: seq<byte>, t: seq<byte>)
    requires Count(s) % 4 == 0
    ensures Decode(s).Some? && Decode(s + t) == Prepend(Decode(s).value, Decode(t))
  {
    DecodeAppendFrom(1, s, t);
  }

  /** What two pieces give when they are decoded one by one. */
  function Joined(a: Option<seq<byte>>, b: Option<seq<byte>>): Option<seq<byte>> {
    if a.Some? then Prepend(a.value, b) else None
  }

  lemma {:induction false} CountAppend(s: seq<byte>, t: seq<byte>)
    ensures Count(s + t) == Count(s) + Count(t)
  {
    if s == [] {
      assert s + t == t;
    } else {
      assert (s + t)[1..] == s[1..] + t;
      CountAppend(s[1..], t);
    }
  }

  /** Two characters more behind a partial group: failure comes or goes, or there is one byte too many. */
  lemma TwoMore(n: nat, m: nat)
    requires m == n + 2 && n % 4 != 0
    ensures if n % 4 == 1 || n % 4 == 3 then (n % 4 == 1) != (m % 4 == 1) else m % 4 != 1 && m * 3 / 4 == n * 3 / 4 + 2
  {
    var q, r := n / 4, n % 4;
    assert n == 4 * q + r;
    if r == 2 {
      assert n * 3 == 4 * (3 * q + 1) + 2;
      assert m * 3 == 4 * (3 * q + 3);
    }
  }

  lemma PartialGroupBreaks(s: seq<byte>)
    requires Count(s) % 4 != 0
    ensures Decode(s + [65, 65]) != Joined(Decode(s), Decode([65, 65]))
  {
    hide Decode, Count;
    var t: seq<byte> := [65, 65];
    CountAppend(s, t);
    TwoLetters();
    TwoMore(Count(s), Count(s + t));
    DecodeFailsIff(s);
    DecodeFailsIff(t);
    DecodeFailsIff(s + t);
  }

  /** Decoding a piece separately from whatever follows it is right if and only if it holds whole groups. */
  lemma DecodeAppendIff(s: seq<byte>)
    ensures (forall t :: Decode(s + t) == Joined(Decode(s), Decode(t))) <==> Count(s) % 4 == 0
  {
    hide Decode, Count;
    if Count(s) % 4 == 0 {
      forall t ensures Decode(s + t) == Joined(Decode(s), Decode(t)) {
        DecodeAppend(s, t);
      }
    } else {
      PartialGroupBreaks(s);
    }
  }

  lemma TwoLetters()
    ensures Count([65, 65]) == 2
  {
    assert [65 as byte, 65][1..] == [65];
    assert [65 as byte][1..] == [];
  }

  /** A padded piece twice, "QQ==QQ==": the padding ends nothing, and three bytes come out instead of two. */
  lemma PaddedPiecesRunTogether()
    ensures var piece: seq<byte> := [81, 81, PAD, PAD];
      && Joined(Decode(piece), Decode(piece)) == Some([65, 65])
      && Decode(piece + piece).Some? && |Decode(piece + piece).value| == 3
  {
    hide Decode, Count;
    var piece: seq<byte> := [81, 81, PAD, PAD];
    assert piece == EncodeTail([65]);
    DecodeEncodeOne(65);
    assert [65 as byte] + [65] == [65, 65];
    CountAppend([81, 81], [PAD, PAD]);
    CountAppend(piece, piece);
    assert [81, 81] + [PAD, PAD] == piece;
    PieceCounts();
    DecodeFailsIff(piece + piece);
  }

  lemma PieceCounts()
    ensures Count([81, 81]) == 2 && Count([PAD, PAD]) == 0
  {
    assert [81 as byte, 81][1..] == [81] && [81 as byte][1..] == [];
    assert [PAD, PAD][1..] == [PAD] && [PAD][1..] == [];
  }

  lemma DecodeAt(input: seq<byte>, i: nat, buffer: nat)
    requires i < |input|
    ensures DecodeFrom(buffer, input[i..]) ==
      if !InAlphabet(input[i]) then DecodeFrom(buffer, input[i + 1..])
      else
        var b := Shift(buffer, Value(input[i]));
        if b / 16777216 != 0 then Prepend(Group(b), Decode(input[i + 1..])) else DecodeFrom(b, input[i + 1..])
  {
    assert input[i..][1..] == input[i + 1..];
  }

  lemma DecodeEnd(buffer: nat)
    ensures DecodeFrom(buffer, []) == DecodeTail(buffer)
  {
  }

  /** The decoder over a buffer of `decoded_size` bytes: it stays inside, and on success has written the result. */
  method DecodeInto(input: seq<byte>, output: array<byte>) returns (end: Option<nat>)
    requires output.Length >= DecodedSize(|input|)
    modifies output
    ensures end.Some? <==> Decode(input).Some?
    ensures end.Some? ==> end.value <= DecodedSize(|input|) && output[..end.value] == Decode(input).value
    ensures output[DecodedSize(|input|)..] == old(output[DecodedSize(|input|)..])
  {
    hide Shift, Group, DecodeTail, DecodeFrom, Level, Sentinel;
    var buffer, o := 1, 0;
    ghost var size, count := DecodedSize(|input|), 0;
    ghost var later := output[size..];
    LevelOne();
    PrependNothing(Decode(input));
    assert input[0..] == input;
    for i := 0 to |input|
      invariant Sentinel(buffer) && count <= i && count % 4 == Level(buffer)
      invariant o == count / 4 * 3 && o <= output.Length
      invariant output[size..] == later
      invariant Decode(input) == Prepend(output[..o], DecodeFrom(buffer, input[i..]))
    {
      DecodeAt(input, i, buffer);
      var value := Value(input[i]);
      if value != -1 {
        ShiftLevel(buffer, value);
        buffer := Shift(buffer, value);
        count := count + 1;
        if buffer / 16777216 != 0 {
          ghost var done := output[..o];
          PrependTwice(done, Group(buffer), Decode(input[i + 1..]));
          Put3(output, o, buffer, size);
          o := o + 3;
          buffer := 1;
          LevelOne();
        }
      }
    }
    assert input[|input|..] == [];
    DecodeEnd(buffer);
    end := Finish(output, o, buffer, size);
  }

  lemma LevelOne()
    ensures Level(1) == 0 && Sentinel(1)
  {
  }

  method Put3(output: array<byte>, o: nat, buffer: nat, ghost size: nat)
    requires o + 3 <= size <= output.Length
    modifies output
    ensures output[..o + 3] == old(output[..o]) + Group(buffer) && output[size..] == old(output[size..])
  {
    output[o], output[o + 1], output[o + 2] := Low8(buffer / 65536), Low8(buffer / 256), Low8(buffer);
  }

  /** The leftover bits after the last character. */
  method Finish(output: array<byte>, o: nat, buffer: nat, ghost size: nat) returns (end: Option<nat>)
    requires Sentinel(buffer) && o + (if Level(buffer) == 0 then 0 else 3) <= size <= output.Length
    modifies output
    ensures end.Some? <==> DecodeTail(buffer).Some?
    ensures end.Some? ==> end.value <= size && output[..end.value] == old(output[..o]) + DecodeTail(buffer).value
    ensures output[size..] == old(output[size..])
  {
    var n := o;
    if buffer / 262144 != 0 {
      var b := buffer * 64 % WORD;
      output[n], output[n + 1] := Low8(b / 65536), Low8(b / 256);
      n := n + 2;
    } else if buffer / 4096 != 0 {
      var b := buffer * 4096 % WORD;
      output[n] := Low8(b / 65536);
      n := n + 1;
    } else if buffer / 64 != 0 {
      return None;
    }
    end := Some(n);
  }

  // ------------------------------------------------------------ the round trip

  /** Quotient and remainder by the divisors that occur, from the number written out. */
  lemma Div64(n: nat, q: nat, r: nat)
    requires n == 64 * q + r && r < 64
    ensures n / 64 == q && n % 64 == r
  {
  }

  lemma Div4096(n: nat, q: nat, r: nat)
    requires n == 4096 * q + r && r < 4096
    ensures n / 4096 == q
  {
  }

  lemma Div262144(n: nat, q: nat, r: nat)
    requires n == 262144 * q + r && r < 262144
    ensures n / 262144 == q
  {
  }

  lemma Div256(n: nat, q: nat, r: nat)
    requires n == 256 * q + r && r < 256
    ensures n / 256 == q && n % 256 == r
  {
  }

  lemma Div65536(n: nat, q: nat, r: nat)
    requires n == 65536 * q + r && r < 65536
    ensures n / 65536 == q
  {
  }

  /** The four sextets of a 24-bit number are its digits. */
  lemma SextetsOf(buffer: nat) returns (a: nat, b: nat, c: nat, d: nat)
    requires buffer < 16777216
    ensures a < 64 && b < 64 && c < 64 && d < 64
    ensures a == buffer / 262144 % 64 && b == buffer / 4096 % 64 && c == buffer / 64 % 64 && d == buffer % 64
    ensures buffer == 262144 * a + 4096 * b + 64 * c + d
  {
    d := buffer % 64;
    var x := buffer / 64;
    c := x % 64;
    var y := x / 64;
    b := y % 64;
    a := y / 64;
    Div4096(buffer, y, 64 * c + d);
    Div262144(buffer, a, 4096 * b + 64 * c + d);
    Div64(a, 0, a);
  }

  /** Four sextets of the accumulator shifted in again put it behind the sentinel. */
  lemma Reassemble(buffer: nat)
    requires buffer < 16777216
    ensures var a, b, c, d := buffer / 262144 % 64, buffer / 4096 % 64, buffer / 64 % 64, buffer % 64;
      Shift(Shift(Shift(Shift(1, a), b), c), d) == 16777216 + buffer
  {
    hide Shift;
    var a, b, c, d := SextetsOf(buffer);
    ShiftLevel(1, a);
    ShiftLevel(64 + a, b);
    ShiftLevel(4096 + 64 * a + b, c);
    ShiftLevel(262144 + 4096 * a + 64 * b + c, d);
  }

  lemma UnpackGroup(a: byte, b: byte, c: byte)
    ensures Group(16777216 + Pack(a, b, c)) == [a, b, c]
  {
    var n, x, y, z := 16777216 + Pack(a, b, c), a as int, b as int, c as int;
    Div256(n, 65536 + 256 * x + y, z);
    Div256(65536 + 256 * x + y, 256 + x, y);
    Div65536(n, 256 + x, 256 * y + z);
    Div256(256 + x, 1, x);
  }

  lemma DecodeSextet(buffer: nat, v: nat, s: seq<byte>)
    requires v < 64
    ensures var b := Shift(buffer, v);
      DecodeFrom(buffer, [Alphabet(v)] + s) ==
        if b / 16777216 != 0 then Prepend(Group(b), Decode(s)) else DecodeFrom(b, s)
  {
    ValueInvertsAlphabet(Alphabet(v), v);
    assert ([Alphabet(v)] + s)[1..] == s;
  }

  lemma DecodeGroup(a: byte, b: byte, c: byte, s: seq<byte>)
    ensures Decode(EncodeGroup(a, b, c) + s) == Prepend([a, b, c], Decode(s))
  {
    hide Shift, Group, Alphabet;
    var buffer := Pack(a, b, c);
    var v3, v2, v1, v0 := buffer / 262144 % 64, buffer / 4096 % 64, buffer / 64 % 64, buffer % 64;
    var s0 := [Alphabet(v0)] + s;
    var s1 := [Alphabet(v1)] + s0;
    var s2 := [Alphabet(v2)] + s1;
    var s3 := [Alphabet(v3)] + s2;
    assert EncodeGroup(a, b, c) + s == s3;
    var b3 := Shift(1, v3);
    var b2 := Shift(b3, v2);
    var b1 := Shift(b2, v1);
    ShiftLevel(1, v3);
    ShiftLevel(b3, v2);
    ShiftLevel(b2, v1);
    ShiftLevel(b1, v0);
    DecodeSextet(1, v3, s2);
    DecodeSextet(b3, v2, s1);
    DecodeSextet(b2, v1, s0);
    DecodeSextet(b1, v0, s);
    Reassemble(buffer);
    UnpackGroup(a, b, c);
  }

  lemma SkipPad(buffer: nat, s: seq<byte>)
    ensures DecodeFrom(buffer, [PAD] + s) == DecodeFrom(buffer, s)
  {
    assert ([PAD] + s)[1..] == s;
  }

  lemma DecodeTwo(v2: nat, v1: nat, s: seq<byte>)
    requires v2 < 64 && v1 < 64
    ensures Decode([Alphabet(v2)] + ([Alphabet(v1)] + s)) == DecodeFrom(4096 + 64 * v2 + v1, s)
    ensures Sentinel(4096 + 64 * v2 + v1) && Level(4096 + 64 * v2 + v1) == 2
  {
    hide Shift, Group, Alphabet, DecodeTail;
    ShiftLevel(1, v2);
    ShiftLevel(64 + v2, v1);
    DecodeSextet(1, v2, [Alphabet(v1)] + s);
    DecodeSextet(64 + v2, v1, s);
  }

  lemma EncodeOne(a: byte) returns (v2: nat, v1: nat)
    ensures v2 < 64 && v1 < 64 && 64 * v2 + v1 == a as int * 16
    ensures EncodeTail([a]) == [Alphabet(v2)] + ([Alphabet(v1)] + ([PAD] + ([PAD] + [])))
  {
    hide Alphabet, Sextet;
    var buffer := a as int * 1024;
    var _, u2, u1, u0 := SextetsOf(buffer);
    assert u0 == 0;
    v2, v1 := u2, u1;
    TailIs([a]);
    SextetIs(buffer, u2, u1);
  }

  lemma SextetIs(buffer: nat, v2: nat, v1: nat)
    requires v2 == buffer / 4096 % 64 && v1 == buffer / 64 % 64
    ensures Sextet(buffer, 2) == Alphabet(v2) && Sextet(buffer, 1) == Alphabet(v1)
  {
  }

  lemma DecodeEncodeOne(a: byte)
    ensures Decode(EncodeTail([a])) == Some([a])
  {
    hide Shift, Group, Alphabet, DecodeTail, DecodeFrom, EncodeTail;
    var v2, v1 := EncodeOne(a);
    var b := 4096 + 64 * v2 + v1;
    DecodeTwo(v2, v1, [PAD] + ([PAD] + []));
    SkipPad(b, [PAD] + []);
    SkipPad(b, []);
    DecodeEnd(b);
    TailTwo(b, a);
  }

  lemma EncodeTwo(a: byte, b: byte) returns (v2: nat, v1: nat, v0: nat)
    ensures v2 < 64 && v1 < 64 && v0 < 64 && 4096 * v2 + 64 * v1 + v0 == a as int * 1024 + b as int * 4
    ensures EncodeTail([a, b]) == [Alphabet(v2)] + ([Alphabet(v1)] + ([Alphabet(v0)] + ([PAD] + [])))
  {
    hide Alphabet, Sextet;
    var buffer := a as int * 1024 + b as int * 4;
    var _, u2, u1, u0 := SextetsOf(buffer);
    v2, v1, v0 := u2, u1, u0;
    TailIs([a, b]);
    SextetIs(buffer, u2, u1);
    LowSextetIs(buffer, u0);
  }

  lemma LowSextetIs(buffer: nat, v0: nat)
    requires v0 == buffer % 64
    ensures Sextet(buffer, 0) == Alphabet(v0)
  {
  }

  lemma DecodeEncodeTwo(a: byte, b: byte)
    ensures Decode(EncodeTail([a, b])) == Some([a, b])
  {
    hide Shift, Group, Alphabet, DecodeTail, DecodeFrom, EncodeTail;
    var buffer := a as int * 1024 + b as int * 4;
    var v2, v1, v0 := EncodeTwo(a, b);
    var b1 := 4096 + 64 * v2 + v1;
    DecodeTwo(v2, v1, [Alphabet(v0)] + ([PAD] + []));
    ShiftLevel(b1, v0);
    DecodeSextet(b1, v0, [PAD] + []);
    SkipPad(262144 + buffer, []);
    DecodeEnd(262144 + buffer);
    TailThree(262144 + buffer, a, b);
  }

  lemma DecodeEncodeTail(s: seq<byte>)
    requires |s| < 3
    ensures Decode(EncodeTail(s)) == Some(s)
  {
    hide Shift, Group, Alphabet, DecodeTail;
    if s == [] {
      TailOne();
    } else if |s| == 1 {
      DecodeEncodeOne(s[0]);
      assert s == [s[0]];
    } else {
      DecodeEncodeTwo(s[0], s[1]);
      assert s == [s[0], s[1]];
    }
  }

  lemma TailOne()
    ensures DecodeTail(1) == Some([])
  {
  }

  lemma TailTwo(buffer: nat, a: byte)
    requires buffer == 4096 + a as int * 16
    ensures DecodeTail(buffer) == Some([a])
  {
    assert buffer * 4096 % WORD / 65536 == 256 + a as int;
  }

  lemma TailThree(buffer: nat, a: byte, b: byte)
    requires buffer == 262144 + a as int * 1024 + b as int * 4
    ensures DecodeTail(buffer) == Some([a, b])
  {
    assert buffer * 64 % WORD / 256 == 65536 + a as int * 256 + b as int;
    assert buffer * 64 % WORD / 65536 == 256 + a as int;
  }

  /** Decoding an encoding gives the bytes back. */
  lemma {:induction false} RoundTrip(s: seq<byte>)
    ensures Decode(Encode(s)) == Some(s)
  {
    hide Sextet, Decode, EncodeTail;
    if |s| < 3 {
      DecodeEncodeTail(s);
    } else {
      RoundTrip(s[3..]);
      DecodeGroup(s[0], s[1], s[2], Encode(s[3..]));
      assert s == [s[0], s[1], s[2]] + s[3..];
    }
  }
}
