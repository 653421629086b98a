/** From the sender's calls, through the two-buffer writer and any chunking, to the receiver's messages. */
module EndToEnd {
  import opened Bytes
  import opened IrcMessage
  import opened Session
  import opened SendCommand
  import Connection

  const IRC_BUFFER_SIZE := 131072

  datatype Call = Call(cmd: seq<byte>, args: seq<seq<byte>>)

  predicate GoodCall(c: Call) {
    GoodCommand(c.cmd) && Sendable(c.cmd, c.args)
  }

  function Lines(calls: seq<Call>): seq<seq<byte>> {
    seq(|calls|, i requires 0 <= i < |calls| => Line(calls[i].cmd, calls[i].args))
  }

  /** What the receiver should make of the calls. */
  function Expected(calls: seq<Call>): (r: seq<Message>)
    ensures |r| == |calls|
  {
    seq(|calls|, i requires 0 <= i < |calls| => Message([], [], calls[i].cmd, calls[i].args))
  }

  /** One sent line at the front of the stream is one delivered message. */
  lemma ReceiveOne(c: Call, rest: seq<byte>, cap: nat)
    requires GoodCall(c) && cap >= MAX_LINE
    ensures Receive(Line(c.cmd, c.args) + rest, cap) ==
      After([Message([], [], c.cmd, c.args)], Receive(rest, cap))
  {
    hide Line, Find, LineText, ParseMessage, Body;
    var line := Line(c.cmd, c.args);
    SentLineReadBack(c.cmd, c.args);
    LineLength(c);
    FindPrefix(line, rest, LF);
    var k := |line| - 1;
    assert (line + rest)[..k] == line[..k];
    assert (line + rest)[k + 1..] == rest;
    assert c.cmd + Body(c.args) != [];
  }

  lemma LineLength(c: Call)
    requires GoodCall(c)
    ensures 0 < |Line(c.cmd, c.args)| <= MAX_LINE
  {
  }

  /** A session over any prefix of the sent lines delivers a prefix of the calls and waits for more:
      it never reports a full buffer or a malformed message. On the whole it delivers every call. */
  lemma {:induction false} ReceivePrefix(calls: seq<Call>, wire: seq<byte>, cap: nat)
    requires (forall i :: 0 <= i < |calls| ==> GoodCall(calls[i])) && cap >= MAX_LINE
    requires wire <= Concat(Lines(calls))
    ensures var r := Receive(wire, cap);
      r.status.Waiting? && r.messages <= Expected(calls)
    ensures wire == Concat(Lines(calls)) ==> Receive(wire, cap) == Outcome(Expected(calls), Waiting([]))
  {
    hide Receive, Line, GoodCall;
    if calls == [] {
      EmptyStream(cap);
    } else {
      var c, later := calls[0], calls[1..];
      var line := Line(c.cmd, c.args);
      assert Lines(calls)[1..] == Lines(later);
      assert Expected(calls) == [Message([], [], c.cmd, c.args)] + Expected(later);
      if |wire| < |line| {
        assert wire == line[..|wire|];
        PartialLine(c, |wire|, cap);
      } else {
        assert wire[..|line|] == line && wire == line + wire[|line|..];
        ReceivePrefix(later, wire[|line|..], cap);
        ReceiveOne(c, wire[|line|..], cap);
      }
      assert wire == Concat(Lines(calls)) ==> |wire| >= |line|;
    }
  }

  lemma EmptyStream(cap: nat)
    requires cap > 0
    ensures Receive([], cap) == Outcome([], Waiting([]))
  {
  }

  lemma PartialLine(c: Call, n: nat, cap: nat)
    requires GoodCall(c) && cap >= MAX_LINE && n < |Line(c.cmd, c.args)|
    ensures Receive(Line(c.cmd, c.args)[..n], cap) == Outcome([], Waiting(Line(c.cmd, c.args)[..n]))
  {
    hide Line;
    var line := Line(c.cmd, c.args);
    SentLineReadBack(c.cmd, c.args);
    LineLength(c);
    FindIs(line[..n], LF, n);
  }

  /** The calls as the writer's events carry them. */
  predicate Sends(es: seq<Connection.Event>, calls: seq<Call>) {
    && Connection.Written(es) == Concat(Lines(calls))
    && forall i :: 0 <= i < |es| ==> !es[i].Failed?
  }

  /** End to end, at every moment of every error-free run: what has reached the wire is received as a prefix of the
      calls; and when the writer is idle, as all of them. `SessionThread` gives this result for every chunking. */
  lemma WireDeliversCalls(calls: seq<Call>, es: seq<Connection.Event>)
    requires forall i :: 0 <= i < |calls| ==> GoodCall(calls[i])
    requires Connection.Legal(Connection.Initial, es) && Sends(es, calls)
    ensures var st := Connection.Run(Connection.Initial, es);
      var r := Receive(st.wire, IRC_BUFFER_SIZE);
      && r.status.Waiting? && r.messages <= Expected(calls)
      && (st.op.None? ==> r == Outcome(Expected(calls), Waiting([])))
  {
    hide Receive;
    Connection.RunDelivers(Connection.Initial, es);
    var st := Connection.Run(Connection.Initial, es);
    var all := Concat(Lines(calls));
    assert st.wire + Connection.Owed(st) == all;
    if st.op.None? {
      assert Connection.Owed(st) == [];
      assert st.wire == all;
    }
    ReceivePrefix(calls, st.wire, IRC_BUFFER_SIZE);
  }

  /** The same, carried through the receiving code: read the wire in whatever chunks it comes. */
  method Transfer(calls: seq<Call>, ghost es: seq<Connection.Event>, wire: seq<byte>)
      returns (out: seq<Message>, status: Status)
    requires forall i :: 0 <= i < |calls| ==> GoodCall(calls[i])
    requires Connection.Legal(Connection.Initial, es) && Sends(es, calls)
    requires wire == Connection.Run(Connection.Initial, es).wire
    ensures status.Waiting? && out <= Expected(calls)
    ensures Connection.Run(Connection.Initial, es).op.None? ==> out == Expected(calls) && status == Waiting([])
  {
    hide Receive;
    WireDeliversCalls(calls, es);
    out, status := SessionThread(IRC_BUFFER_SIZE, wire);
  }
}
