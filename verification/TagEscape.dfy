/** `escapeval` of the `dump` command against the parser's unescape: inverse exactly without backslashes. */
module TagEscape {
  import opened Bytes
  import opened IrcMessage

  /** The replacement table of the `gsub`; a backslash stands for itself there. */
  function EscapeByte(c: byte): seq<byte> {
    if c == SP then [BACKSLASH, 115]
    else if c == SEMI then [BACKSLASH, 58]
    else if c == LF then [BACKSLASH, 110]
    else if c == CR then [BACKSLASH, 114]
    else [c]
  }

  function EscapeVal(s: seq<byte>): seq<byte> {
    if s == [] then [] else EscapeByte(s[0]) + EscapeVal(s[1..])
  }

  lemma UnescapeEscapeHead(c: byte, rest: seq<byte>)
    requires c != BACKSLASH
    ensures Unescape(EscapeByte(c) + rest) == [c] + Unescape(rest)
  {
    var t := EscapeByte(c) + rest;
    assert t[|EscapeByte(c)|..] == rest;
  }

  /** The decoder after a stray backslash swallows the first byte of what follows. */
  lemma UnescapeBackslash(c: byte, rest: seq<byte>)
    ensures Unescape([BACKSLASH, c] + rest) == [Escaped(c)] + Unescape(rest)
  {
    assert ([BACKSLASH, c] + rest)[2..] == rest;
  }

  lemma UnescapeLetter(c: byte, rest: seq<byte>)
    requires c != BACKSLASH
    ensures Unescape([c] + rest) == [c] + Unescape(rest)
  {
    assert ([c] + rest)[1..] == rest;
  }

  /** A stray backslash turns an escape into two bytes at most. */
  lemma StrayBackslash(c: byte, rest: seq<byte>)
    ensures |Unescape([BACKSLASH] + (EscapeByte(c) + rest))| <= 2 + |Unescape(rest)|
  {
    hide Unescape;
    var e := EscapeByte(c);
    assert [BACKSLASH] + (e + rest) == [BACKSLASH, e[0]] + (e[1..] + rest);
    UnescapeBackslash(e[0], e[1..] + rest);
    if |e| == 1 {
      assert e[1..] + rest == rest;
    } else {
      assert e[1..] == [e[1]];
      UnescapeLetter(e[1], rest);
    }
  }

  /** Decoding never yields more bytes than were escaped, nor does a stray backslash in front help. */
  lemma {:induction false} RoundTripLength(v: seq<byte>)
    ensures |Unescape(EscapeVal(v))| <= |v|
    ensures |Unescape([BACKSLASH] + EscapeVal(v))| <= |v| + 1
    decreases |v|
  {
    hide Unescape, EscapeByte;
    if v == [] {
      Nothing();
    } else {
      var rest := EscapeVal(v[1..]);
      RoundTripLength(v[1..]);
      StrayBackslash(v[0], rest);
      if v[0] == BACKSLASH {
        BackslashItself();
      } else {
        UnescapeEscapeHead(v[0], rest);
      }
    }
  }

  lemma Nothing()
    ensures Unescape(EscapeVal([])) == [] && Unescape([BACKSLASH] + EscapeVal([])) == []
  {
    assert [BACKSLASH] + EscapeVal([]) == [BACKSLASH];
  }

  lemma BackslashItself()
    ensures EscapeByte(BACKSLASH) == [BACKSLASH]
  {
  }

  lemma {:induction false} RoundTripWithout(v: seq<byte>)
    requires BACKSLASH !in v
    ensures Unescape(EscapeVal(v)) == v
  {
    if v != [] {
      UnescapeEscapeHead(v[0], EscapeVal(v[1..]));
      RoundTripWithout(v[1..]);
    }
  }

  lemma {:induction false} RoundTripWith(v: seq<byte>)
    requires BACKSLASH in v
    ensures Unescape(EscapeVal(v)) != v
  {
    var rest := EscapeVal(v[1..]);
    if v[0] != BACKSLASH {
      UnescapeEscapeHead(v[0], rest);
      RoundTripWith(v[1..]);
      assert v == [v[0]] + v[1..];
    } else if |v| > 1 {
      var e, tail := EscapeByte(v[1]), EscapeVal(v[2..]);
      assert v[1..][1..] == v[2..];
      assert [BACKSLASH] + (e + tail) == [BACKSLASH, e[0]] + (e[1..] + tail);
      UnescapeBackslash(e[0], e[1..] + tail);
      if v[1] == BACKSLASH {
        assert e[1..] + tail == tail;
        RoundTripLength(v[2..]);
      } else if |e| == 2 {
        assert (e[1..] + tail)[0] == e[1];
        assert Unescape(EscapeVal(v))[1] == e[1];
      } else {
        assert Unescape(EscapeVal(v))[0] == Escaped(v[1]);
      }
    }
  }

  /** A dumped tag value is read back unchanged if and only if it holds no backslash. */
  lemma RoundTrip(v: seq<byte>)
    ensures Unescape(EscapeVal(v)) == v <==> BACKSLASH !in v
  {
    if BACKSLASH in v {
      RoundTripWith(v);
    } else {
      RoundTripWithout(v);
    }
  }
}
