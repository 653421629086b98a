/** Whole messages as text: what is printed with tags and a source, and what the parser makes of it. */
module MessageText {
  import opened Bytes
  import opened IrcMessage
  import opened SendCommand
  import opened TagEscape

  function Spaces(n: nat): (r: seq<byte>)
    ensures |r| == n && forall i :: 0 <= i < n ==> r[i] == SP
  {
    if n == 0 then [] else [SP] + Spaces(n - 1)
  }

  /** Pieces with a semicolon between each two. */
  function Joined(pieces: seq<seq<byte>>): seq<byte>
    requires pieces != []
  {
    if |pieces| == 1 then pieces[0] else pieces[0] + [SEMI] + Joined(pieces[1..])
  }

  function TagText(t: Tag): seq<byte> {
    if t.val == [] then t.key else t.key + [EQUALS] + EscapeVal(t.val)
  }

  function TagTexts(tags: seq<Tag>): (r: seq<seq<byte>>)
    ensures |r| == |tags|
  {
    seq(|tags|, i requires 0 <= i < |tags| => TagText(tags[i]))
  }

  function TagsPart(tags: seq<Tag>, n: nat): seq<byte> {
    if tags != [] then [AT] + Joined(TagTexts(tags)) + ([SP] + Spaces(n)) else []
  }

  function SourcePart(source: seq<byte>, n: nat): seq<byte> {
    if source != [] then [COLON] + source + ([SP] + Spaces(n)) else []
  }

  /** The start of a message up to its command. The numbers are of superfluous spaces, which may stand wherever one
      space does and at the start of the line. */
  function Prefix(tags: seq<Tag>, source: seq<byte>, afterTags: nat, afterSource: nat): seq<byte> {
    TagsPart(tags, afterTags) + SourcePart(source, afterSource)
  }

  predicate GoodKey(key: seq<byte>) {
    key != [] && EQUALS !in key && SEMI !in key && SP !in key
  }

  predicate GoodTags(tags: seq<Tag>) {
    forall i :: 0 <= i < |tags| ==> GoodKey(tags[i].key) && BACKSLASH !in tags[i].val
  }

  /** The command is one word that is not mistaken for tags or for a source. */
  predicate GoodMessage(m: Message) {
    && GoodTags(m.tags) && SP !in m.source
    && m.command != [] && SP !in m.command
    && (m.source == [] ==> m.command[0] != COLON)
    && (m.source == [] && m.tags == [] ==> m.command[0] != AT)
  }

  // ------------------------------------------------------------ spaces

  lemma {:induction false} TrimSpaces(n: nat, t: seq<byte>)
    ensures Trim(Spaces(n) + t) == Trim(t)
  {
    if n == 0 {
      assert Spaces(0) + t == t;
    } else {
      assert (Spaces(n) + t)[1..] == Spaces(n - 1) + t;
      TrimSpaces(n - 1, t);
    }
  }

  lemma TrimNothing(t: seq<byte>)
    requires t == [] || t[0] != SP
    ensures Trim(t) == t
  {
  }

  /** A word, any number of spaces, and the next thing. */
  lemma WordOff(w: seq<byte>, n: nat, t: seq<byte>)
    requires SP !in w
    ensures FirstWord(w + ([SP] + Spaces(n)) + t) == w
    ensures AfterWord(w + ([SP] + Spaces(n)) + t) == Trim(t)
    ensures FirstWord(w) == w && AfterWord(w) == []
  {
    hide Find, Trim;
    var s := w + ([SP] + Spaces(n)) + t;
    FindIs(s, SP, |w|);
    FindIs(w, SP, |w|);
    assert s[..|w|] == w && w[..|w|] == w;
    assert s[|w| + 1..] == Spaces(n) + t;
    TrimSpaces(n, t);
  }

  // ------------------------------------------------------------ tags

  /** What an escape sequence stands for: a semicolon for a colon, a space for `s`, CR and LF for `r` and `n`, and any
      other character, a backslash among them, for itself. A backslash at the end stands for nothing. */
  lemma EscapesAre(c: byte, rest: seq<byte>)
    ensures Unescape([92, c] + rest) ==
      [if c == 58 then 59 else if c == 115 then 32 else if c == 114 then 13 else if c == 110 then 10 else c] +
      Unescape(rest)
    ensures c != 92 ==> Unescape([c] + rest) == [c] + Unescape(rest)
    ensures Unescape([92]) == [] && Unescape([]) == []
  {
    UnescapeBackslash(c, rest);
    if c != 92 {
      UnescapeLetter(c, rest);
    }
  }

  /** An escaped value can stand in a tag: it holds nothing that ends the value, the tags, or the line. */
  lemma {:induction false} EscapedIsSafe(v: seq<byte>)
    ensures var e := EscapeVal(v); 59 !in e && 32 !in e && 13 !in e && 10 !in e
  {
    if v != [] {
      EscapedIsSafe(v[1..]);
    }
  }

  lemma TagTextIs(t: Tag)
    requires GoodKey(t.key) && BACKSLASH !in t.val
    ensures SEMI !in TagText(t) && SP !in TagText(t) && TagText(t) != []
    ensures ParseTag(TagText(t)) == Ok(t)
  {
    hide EscapeVal, Unescape, Find;
    EscapedIsSafe(t.val);
    RoundTripWithout(t.val);
    var s := TagText(t);
    FindIs(s, EQUALS, |t.key|);
    assert s[..|t.key|] == t.key;
    if t.val != [] {
      assert s[|t.key| + 1..] == EscapeVal(t.val);
    }
  }

  /** A key with an equals sign and nothing behind it is a key without one. */
  lemma EmptyValue(key: seq<byte>)
    requires GoodKey(key)
    ensures ParseTag(key + [EQUALS]) == Ok(Tag(key, [])) == ParseTag(key)
  {
    hide Find;
    FindIs(key + [EQUALS], EQUALS, |key|);
    FindIs(key, EQUALS, |key|);
    assert (key + [EQUALS])[..|key|] == key && (key + [EQUALS])[|key| + 1..] == [];
  }

  predicate AllTags(pieces: seq<seq<byte>>) {
    forall i :: 0 <= i < |pieces| ==> ParseTag(pieces[i]).Ok?
  }

  /** The pieces between semicolons are parsed one by one; an empty key anywhere fails the whole list. */
  lemma {:induction false} ParsePieces(pieces: seq<seq<byte>>)
    requires pieces != [] && forall i :: 0 <= i < |pieces| ==> SEMI !in pieces[i]
    ensures var r := ParseTags(Joined(pieces));
      if AllTags(pieces) then
        r.Ok? && |r.value| == |pieces| && forall i :: 0 <= i < |pieces| ==> Ok(r.value[i]) == ParseTag(pieces[i])
      else r == Err(MissingTag)
  {
    hide ParseTag, Find;
    var s := Joined(pieces);
    FindIs(s, SEMI, |pieces[0]|);
    assert s[..|pieces[0]|] == pieces[0];
    if |pieces| > 1 {
      assert s[|pieces[0]| + 1..] == Joined(pieces[1..]);
      ParsePieces(pieces[1..]);
      AllTagsCons(pieces);
    }
    ParseTagFails(pieces[0]);
  }

  lemma AllTagsCons(pieces: seq<seq<byte>>)
    requires pieces != []
    ensures AllTags(pieces) <==> ParseTag(pieces[0]).Ok? && AllTags(pieces[1..])
  {
    hide ParseTag;
    if AllTags(pieces) {
      assert forall i :: 0 <= i < |pieces[1..]| ==> pieces[1..][i] == pieces[i + 1];
    }
    if ParseTag(pieces[0]).Ok? && AllTags(pieces[1..]) {
      forall i | 0 <= i < |pieces| ensures ParseTag(pieces[i]).Ok? {
        assert i > 0 ==> pieces[i] == pieces[1..][i - 1];
      }
    }
  }

  /** A tag fails exactly when nothing stands before its first equals sign. */
  lemma ParseTagFails(s: seq<byte>)
    ensures ParseTag(s) == Err(MissingTag) <==> s == [] || s[0] == 61
    ensures ParseTag(s).Err? ==> ParseTag(s) == Err(MissingTag)
  {
  }

  lemma {:induction false} JoinedIsOneWord(pieces: seq<seq<byte>>)
    requires pieces != [] && forall i :: 0 <= i < |pieces| ==> SP !in pieces[i]
    ensures SP !in Joined(pieces)
  {
    if |pieces| > 1 {
      JoinedIsOneWord(pieces[1..]);
    }
  }

  lemma TagsReadBack(tags: seq<Tag>)
    requires tags != [] && GoodTags(tags)
    ensures SP !in Joined(TagTexts(tags)) && ParseTags(Joined(TagTexts(tags))) == Ok(tags)
  {
    hide ParseTag, ParseTags, Joined, TagText, GoodKey;
    var pieces := TagTexts(tags);
    forall i | 0 <= i < |tags|
      ensures SEMI !in pieces[i] && SP !in pieces[i] && ParseTag(pieces[i]) == Ok(tags[i])
    {
      TagTextIs(tags[i]);
    }
    JoinedIsOneWord(pieces);
    ParsePieces(pieces);
    assert ParseTags(Joined(pieces)).value == tags;
  }

  // ------------------------------------------------------------ messages

  lemma TagsOff(tags: seq<Tag>, n: nat, rest: seq<byte>)
    requires GoodTags(tags) && (rest != [] ==> rest[0] != SP && (tags == [] ==> rest[0] != AT))
    ensures TagStage(TagsPart(tags, n) + rest) == Stage(Ok(tags), rest)
  {
    hide Joined, ParseTags, FirstWord, AfterWord, Trim, GoodTags;
    TrimNothing(rest);
    var s := TagsPart(tags, n) + rest;
    if tags != [] {
      TagsReadBack(tags);
      var word := Joined(TagTexts(tags));
      assert s == [AT] + (word + ([SP] + Spaces(n)) + rest);
      assert s[1..] == word + ([SP] + Spaces(n)) + rest;
      WordOff(word, n, rest);
    } else {
      assert s == rest;
    }
  }

  lemma SourceOff(source: seq<byte>, n: nat, rest: seq<byte>)
    requires SP !in source && (rest != [] ==> rest[0] != SP && (source == [] ==> rest[0] != COLON))
    ensures SourceStage(SourcePart(source, n) + rest) == Stage(source, rest)
  {
    hide FirstWord, AfterWord, Trim;
    TrimNothing(rest);
    var s := SourcePart(source, n) + rest;
    if source != [] {
      assert s == [COLON] + (source + ([SP] + Spaces(n)) + rest);
      assert s[1..] == source + ([SP] + Spaces(n)) + rest;
      WordOff(source, n, rest);
    } else {
      assert s == rest;
    }
  }

  /** The stages take the prefix off, whatever follows it, as long as that is not mistaken for one. */
  lemma PrefixOff(tags: seq<Tag>, source: seq<byte>, n: nat, k: nat, rest: seq<byte>)
    requires GoodTags(tags) && SP !in source
    requires rest != [] ==>
      rest[0] != SP && (source == [] ==> rest[0] != COLON) && (source == [] && tags == [] ==> rest[0] != AT)
    ensures var t := TagStage(Prefix(tags, source, n, k) + rest);
      t.part == Ok(tags) && SourceStage(t.rest) == Stage(source, rest)
  {
    hide TagsPart, TagStage, SourceStage, GoodTags;
    var second := SourcePart(source, k) + rest;
    assert Prefix(tags, source, n, k) + rest == TagsPart(tags, n) + second;
    assert source != [] ==> second[0] == COLON;
    TagsOff(tags, n, second);
    SourceOff(source, k, rest);
  }

  lemma LeadingSpaces(n: nat, s: seq<byte>)
    ensures ParseMessage(Spaces(n) + s) == ParseMessage(s)
  {
    TrimSpaces(n, s);
  }

  lemma PrefixStarts(tags: seq<Tag>, source: seq<byte>, n: nat, k: nat)
    ensures var p := Prefix(tags, source, n, k);
      if tags != [] then p != [] && p[0] == AT else if source != [] then p != [] && p[0] == COLON else p == []
  {
  }

  /** A whole message is read back exactly as it was printed, tags, source, command and arguments, if and only if only
      the last argument needed a colon. */
  lemma MessageReadBackIff(m: Message, before: nat, afterTags: nat, afterSource: nat)
    requires GoodMessage(m)
    ensures var text := Prefix(m.tags, m.source, afterTags, afterSource) + (m.command + Body(m.args));
      ParseMessage(Spaces(before) + text) == Ok(m) <==> OnlyLastRendered(m.args)
  {
    hide Prefix, Body, TagStage, SourceStage, Trim, FirstWord, AfterWord, ParseArgs;
    hide GoodTags, OnlyLastRendered, Readable;
    var rest := m.command + Body(m.args);
    var s := Prefix(m.tags, m.source, afterTags, afterSource) + rest;
    assert rest[0] == m.command[0];
    LeadingSpaces(before, s);
    PrefixOff(m.tags, m.source, afterTags, afterSource, rest);
    PrefixStarts(m.tags, m.source, afterTags, afterSource);
    TrimNothing(s);
    WordThenBody(m.command, m.args);
    ParseArgsText(m.args);
    ReadableIsAll(m.args);
    ArgsCount(m.args);
  }

  lemma ArgsCount(args: seq<seq<byte>>)
    ensures |ParseArgs(ArgsText(args))| == Readable(args)
  {
    hide ParseArgs, ArgsText, Readable, Body;
    ParseArgsText(args);
    if args == [] {
      NoArgs();
    }
  }

  /** A line with nothing behind its tags and source, or with nothing at all, has no command. */
  lemma NoCommand(tags: seq<Tag>, source: seq<byte>, before: nat, afterTags: nat, afterSource: nat)
    requires GoodTags(tags) && SP !in source
    ensures ParseMessage(Spaces(before) + Prefix(tags, source, afterTags, afterSource)) == Err(MissingCommand)
  {
    hide Prefix, TagStage, SourceStage, Trim, GoodTags;
    var s := Prefix(tags, source, afterTags, afterSource);
    LeadingSpaces(before, s);
    PrefixOff(tags, source, afterTags, afterSource, []);
    assert s + [] == s;
    PrefixStarts(tags, source, afterTags, afterSource);
    TrimNothing(s);
  }

  /** A tag without a key fails the message whatever follows. */
  lemma NoKey(pieces: seq<seq<byte>>, n: nat, rest: seq<byte>)
    requires pieces != [] && forall i :: 0 <= i < |pieces| ==> SEMI !in pieces[i] && SP !in pieces[i]
    requires exists i :: 0 <= i < |pieces| && (pieces[i] == [] || pieces[i][0] == EQUALS)
    ensures ParseMessage([AT] + (Joined(pieces) + ([SP] + Spaces(n)) + rest)) == Err(MissingTag)
  {
    hide Joined, ParseTags, ParseTag, FirstWord, AfterWord;
    var i :| 0 <= i < |pieces| && (pieces[i] == [] || pieces[i][0] == EQUALS);
    ParseTagFails(pieces[i]);
    ParsePieces(pieces);
    JoinedIsOneWord(pieces);
    var tail := Joined(pieces) + ([SP] + Spaces(n)) + rest;
    WordOff(Joined(pieces), n, rest);
    assert ([AT] + tail)[1..] == tail;
    TrimNothing([AT] + tail);
  }
}
