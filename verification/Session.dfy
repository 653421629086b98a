/** The receive loop: bytes in any chunking to messages. */
module Session {
  import opened Bytes
  import opened IrcMessage
  import opened InPlaceParser
  import opened LineBuffers

  /** How a session over a finite stream stands when the stream has been consumed, or why it ended before. */
  datatype Status = Waiting(tail: seq<byte>) | BufferFull | Malformed(error: ParseError)

  datatype Outcome = Outcome(messages: seq<Message>, status: Status)

  /** What is parsed of one raw line. */
  function LineText(raw: seq<byte>): seq<byte> {
    Trim(CString(StripCR(raw)))
  }

  function Deliver(text: seq<byte>, rest: Outcome): Outcome {
    if text == [] then rest
    else
      match ParseMessage(text)
      case Err(e) => Outcome([], Malformed(e))
      case Ok(m) => Outcome([m] + rest.messages, rest.status)
  }

  /** The session as a function of the stream alone: a plain split on newline with a limit on the line length. */
  function Receive(s: seq<byte>, cap: nat): Outcome
    decreases |s|
  {
    var k := Find(s, LF);
    if k >= cap then Outcome([], BufferFull)
    else if k == |s| then Outcome([], Waiting(s))
    else Deliver(LineText(s[..k]), Receive(s[k + 1..], cap))
  }

  function After(done: seq<Message>, rest: Outcome): Outcome {
    Outcome(done + rest.messages, rest.status)
  }

  lemma AfterNothing(rest: Outcome)
    ensures After([], rest) == rest
  {
    assert [] + rest.messages == rest.messages;
  }

  datatype NextLine = NextLine(text: seq<byte>, rest: seq<byte>)

  /** The first line with something in it (or the empty text) and the bytes behind it. */
  function NextText(s: seq<byte>): (r: NextLine)
    decreases |s|
  {
    var k := Find(s, LF);
    if k == |s| then NextLine([], s)
    else if LineText(s[..k]) == [] then NextText(s[k + 1..])
    else NextLine(LineText(s[..k]), s[k + 1..])
  }

  /** Buffered bytes can be dispatched before the rest of the stream is known. */
  lemma {:induction false} ReceiveBuffered(s: seq<byte>, t: seq<byte>, cap: nat)
    requires |s| <= cap
    ensures Receive(s + t, cap) == Deliver(NextText(s).text, Receive(NextText(s).rest + t, cap))
    ensures NextText(s).text == [] ==> Find(NextText(s).rest, LF) == |NextText(s).rest|
    ensures |NextText(s).rest| <= |s| && (NextText(s).text != [] ==> |NextText(s).rest| < |s|)
    decreases |s|
  {
    hide LineText, Find;
    var k := Find(s, LF);
    FindPrefix(s, t, LF);
    if k < |s| {
      assert (s + t)[..k] == s[..k];
      assert (s + t)[k + 1..] == s[k + 1..] + t;
      ReceiveBuffered(s[k + 1..], t, cap);
    }
  }

  /** The text at a pointer, as a C string. */
  lemma LineAt(mem: seq<byte>, p: nat, raw: seq<byte>) returns (e: nat)
    requires HoldsLine(mem, p, StripCR(raw))
    ensures Terminated(mem, p, e) && mem[p..e] == CString(StripCR(raw))
  {
    hide StripCR, Find;
    var text := StripCR(raw);
    e := p + Find(text, NUL);
    assert mem[p..e] == mem[p..p + |text|][..e - p];
    assert forall i :: p <= i < p + |text| ==> mem[i] == mem[p..p + |text|][i - p];
  }

  /** A cursor at terminated text that lies before the buffered bytes. */
  ghost predicate LineReady(buff: LineBuffer, p: nat, e: nat, text: seq<byte>)
    reads buff, buff.buffer
  {
    e < buff.start <= buff.buffer.Length && Terminated(buff.buffer[..], p, e) && buff.buffer[p..e] == text
  }

  /** One line with its leading spaces skipped, empty or not. */
  method NextTrimmedLine(buff: LineBuffer) returns (line: Option<nat>, ghost e: nat)
    requires buff.Valid()
    modifies buff`start, buff`search, buff.buffer
    ensures buff.Valid() && old(buff.start) <= buff.start
    ensures SameRange(buff.buffer[..], old(buff.buffer[..]), 0, old(buff.start))
    ensures line.None? <==> Find(old(buff.Pending()), LF) == |old(buff.Pending())|
    ensures line.None? ==> buff.Pending() == old(buff.Pending())
    ensures line.Some? ==> old(buff.start) <= line.value
    ensures line.Some? ==> buff.Pending() == old(buff.Pending())[Find(old(buff.Pending()), LF) + 1..]
    ensures line.Some? ==>
      LineReady(buff, line.value, e, LineText(old(buff.Pending())[..Find(old(buff.Pending()), LF)]))
  {
    hide Find, StripCR, HoldsLine, Trim, CString;
    ghost var pending := buff.Pending();
    line := buff.NextLine();
    e := 0;
    if line.Some? {
      ghost var mem := buff.buffer[..buff.start];
      e := LineAt(mem, line.value, pending[..Find(pending, LF)]);
      assert mem[line.value..e] == buff.buffer[line.value..e];
      var p := SkipSpaces(buff.buffer, line.value, e);
      line := Some(p);
    }
  }

  method SkipSpaces(buf: array<byte>, first: nat, ghost e: nat) returns (p: nat)
    requires Terminated(buf[..], first, e)
    ensures first <= p && Terminated(buf[..], p, e) && buf[p..e] == Trim(buf[first..e])
  {
    hide Trim;
    p := first;
    while buf[p] == SP
      modifies {}
      invariant first <= p <= e
      invariant Trim(buf[..][p..e]) == Trim(buf[..][first..e])
      decreases e - p
    {
      TrimAt(buf[..], p, e);
      p := p + 1;
    }
    TrimAt(buf[..], p, e);
  }

  /** Skip lines with nothing but spaces; `e` is where the returned line ends. */
  method GetNonemptyLine(buff: LineBuffer) returns (line: Option<nat>, ghost e: nat)
    requires buff.Valid()
    modifies buff`start, buff`search, buff.buffer
    ensures buff.Valid() && old(buff.start) <= buff.start
    ensures SameRange(buff.buffer[..], old(buff.buffer[..]), 0, old(buff.start))
    ensures buff.Pending() == NextText(old(buff.Pending())).rest
    ensures line.None? <==> NextText(old(buff.Pending())).text == []
    ensures line.Some? ==> old(buff.start) <= line.value
    ensures line.Some? ==> LineReady(buff, line.value, e, NextText(old(buff.Pending())).text)
  {
    hide Find, LineText;
    ghost var whole := NextText(buff.Pending());
    while true
      invariant buff.Valid() && old(buff.start) <= buff.start
      invariant SameRange(buff.buffer[..], old(buff.buffer[..]), 0, old(buff.start))
      invariant whole == NextText(buff.Pending())
      decreases |buff.Pending()|
    {
      line, e := NextTrimmedLine(buff);
      if line.None? || buff.buffer[line.value] != NUL {
        return;
      }
    }
  }

  /** Parse a line, pre-load the next one, and only then read the message out of the buffer. */
  method ParseAndPreload(buff: LineBuffer, line: nat, ghost e: nat, ghost text: seq<byte>)
      returns (m: Result<Message>, next: Option<nat>, ghost e': nat)
    requires buff.Valid() && LineReady(buff, line, e, text)
    modifies buff`start, buff`search, buff.buffer
    ensures buff.Valid() && m == ParseMessage(text)
    ensures m.Ok? ==> buff.Pending() == NextText(old(buff.Pending())).rest
    ensures m.Ok? ==> (next.None? <==> NextText(old(buff.Pending())).text == [])
    ensures m.Ok? && next.Some? ==> LineReady(buff, next.value, e', NextText(old(buff.Pending())).text)
  {
    hide Find, ParseMessage, NextText;
    ghost var before := buff.buffer[..];
    var view := ParseIrcMessage(buff.buffer, line, e);
    if view.Err? {
      return Err(view.error), None, 0;
    }
    ghost var parsed := buff.buffer[..];
    assert parsed[buff.start..buff.end] == before[buff.start..buff.end];
    next, e' := GetNonemptyLine(buff);
    MessageStable(parsed, buff.buffer[..], view.value, line, e);
    m := Ok(MessageText(buff.buffer[..], view.value));
  }

  /** Dispatch all complete lines in the buffer; `later` is what has not been received yet. */
  method Dispatch(buff: LineBuffer, ghost later: seq<byte>, ghost cap: nat)
      returns (out: seq<Message>, bad: Option<ParseError>)
    requires buff.Valid() && buff.buffer.Length <= cap
    modifies buff`start, buff`search, buff.buffer
    ensures buff.Valid()
    ensures bad.None? ==> Find(buff.Pending(), LF) == |buff.Pending()|
    ensures Receive(old(buff.Pending()) + later, cap) == if bad.Some? then Outcome(out, Malformed(bad.value))
      else After(out, Receive(buff.Pending() + later, cap))
  {
    hide Find, NextText, Receive, ParseMessage;
    ghost var next := NextText(buff.Pending());
    ReceiveBuffered(buff.Pending(), later, cap);
    ghost var whole := Deliver(next.text, Receive(next.rest + later, cap));
    AfterNothing(whole);
    out := [];
    ghost var e: nat;
    var line;
    line, e := GetNonemptyLine(buff);
    while line.Some?
      invariant buff.Valid() && buff.Pending() == next.rest
      invariant line.None? <==> next.text == []
      invariant line.Some? ==> LineReady(buff, line.value, e, next.text)
      invariant line.None? ==> Find(next.rest, LF) == |next.rest|
      invariant whole == After(out, Deliver(next.text, Receive(next.rest + later, cap)))
      decreases line.Some?, |next.rest|
    {
      ReceiveBuffered(next.rest, later, cap);
      ghost var rest := Receive(next.rest + later, cap);
      ghost var next' := NextText(next.rest);
      var m;
      m, line, e := ParseAndPreload(buff, line.value, e, next.text);
      if m.Err? {
        AfterStopped(out, m.error);
        return out, Some(m.error);
      }
      SnocCons(out, m.value, rest.messages);
      next := next';
      out := out + [m.value];
    }
    bad := None;
  }

  lemma AfterStopped(out: seq<Message>, e: ParseError)
    ensures After(out, Outcome([], Malformed(e))) == Outcome(out, Malformed(e))
  {
    assert out + [] == out;
  }

  lemma AfterAfter(a: seq<Message>, b: seq<Message>, rest: Outcome)
    ensures After(a, After(b, rest)) == After(a + b, rest)
  {
    assert a + (b + rest.messages) == (a + b) + rest.messages;
  }

  /** The session: read whatever arrives, dispatch complete lines, keep the partial one.
      The size of every read is left open: between one byte and what fits. */
  method SessionThread(cap: nat, stream: seq<byte>) returns (out: seq<Message>, status: Status)
    ensures Outcome(out, status) == Receive(stream, cap)
  {
    hide Find, Receive;
    ghost var whole := Receive(stream, cap);
    var buff := new LineBuffer(cap);
    var pos := 0;
    out := [];
    AfterNothing(whole);
    assert buff.Pending() + stream[0..] == stream;
    while true
      invariant buff.Valid() && fresh(buff) && fresh(buff.buffer) && buff.buffer.Length == cap
      invariant pos <= |stream| && buff.start == 0
      invariant Find(buff.Pending(), LF) == |buff.Pending()|
      invariant whole == After(out, Receive(buff.Pending() + stream[pos..], cap))
      decreases |stream| - pos
    {
      var _, size := buff.Prepare();
      if size == 0 || pos == |stream| {
        ReceiveStuck(buff.Pending(), stream[pos..], cap);
        assert out + [] == out;
        return out, if size == 0 then BufferFull else Waiting(buff.buffer[buff.start..buff.end]);
      }
      var n: nat :| 1 <= n <= size && n <= |stream| - pos;
      Arrive(buff.Pending(), stream, pos, n);
      buff.Commit(stream[pos..pos + n]);
      pos := pos + n;
      ghost var rest := Receive(buff.Pending() + stream[pos..], cap);
      var more, bad := Dispatch(buff, stream[pos..], cap);
      if bad.Some? {
        return out + more, Malformed(bad.value);
      }
      AfterAfter(out, more, Receive(buff.Pending() + stream[pos..], cap));
      out := out + more;
      buff.Shift();
    }
  }

  lemma Arrive(pending: seq<byte>, stream: seq<byte>, pos: nat, n: nat)
    requires pos + n <= |stream|
    ensures (pending + stream[pos..pos + n]) + stream[pos + n..] == pending + stream[pos..]
  {
  }

  lemma ReceiveStuck(s: seq<byte>, t: seq<byte>, cap: nat)
    requires Find(s, LF) == |s| <= cap
    ensures |s| == cap ==> Receive(s + t, cap) == Outcome([], BufferFull)
    ensures |s| < cap && t == [] ==> Receive(s + t, cap) == Outcome([], Waiting(s))
  {
    FindPrefix(s, t, LF);
    if t == [] {
      assert s + t == s;
    }
  }
}
