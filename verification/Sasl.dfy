/** SASL authentication: the 400-byte splitter and the task that reassembles the server's messages. */
module Sasl {
  import opened Bytes
  import opened IrcMessage
  import opened SendCommand
  import opened Session
  import Base64
  import EndToEnd

  const PLUS: byte := 43
  const CHUNK := 400

  /** "AUTHENTICATE" */
  const AUTHENTICATE: seq<byte> := [65, 85, 84, 72, 69, 78, 84, 73, 67, 65, 84, 69]

  // ------------------------------------------------------------ splitting

  /** The arguments of the AUTHENTICATE commands for an encoded body. */
  function Pieces(encoded: seq<byte>): (r: seq<seq<byte>>)
    ensures r != []
  {
    if encoded == [] then [[PLUS]]
    else if |encoded| < CHUNK then [encoded]
    else [encoded[..CHUNK]] + Pieces(encoded[CHUNK..])
  }

  function Calls(pieces: seq<seq<byte>>): seq<EndToEnd.Call> {
    seq(|pieces|, i requires 0 <= i < |pieces| => EndToEnd.Call(AUTHENTICATE, [pieces[i]]))
  }

  /** Bytes that an encoding consists of. */
  predicate Base64Text(s: seq<byte>) {
    forall i :: 0 <= i < |s| ==> Base64.InAlphabet(s[i]) || s[i] == Base64.PAD
  }

  lemma {:induction false} EncodeIsBase64Text(s: seq<byte>)
    ensures Base64Text(Base64.Encode(s))
  {
    if |s| >= 3 {
      EncodeIsBase64Text(s[3..]);
    }
  }

  /** Every piece is one short word: `send` neither rejects it nor puts a colon before it. */
  predicate GoodPiece(p: seq<byte>) {
    0 < |p| <= CHUNK && Base64Text(p)
  }

  lemma {:induction false} PiecesAreGood(encoded: seq<byte>)
    requires Base64Text(encoded)
    ensures forall i :: 0 <= i < |Pieces(encoded)| ==> GoodPiece(Pieces(encoded)[i])
  {
    if |encoded| >= CHUNK {
      PiecesAreGood(encoded[CHUNK..]);
    }
  }

  /** Piece by piece: all have 400 bytes but the last, which is what remains, or a plus sign when nothing does. */
  lemma {:induction false} PiecesAre(encoded: seq<byte>, i: nat)
    requires i <= |encoded| / 400
    ensures |Pieces(encoded)| == |encoded| / 400 + 1
    ensures Pieces(encoded)[i] ==
      if i < |encoded| / 400 then encoded[400 * i..400 * i + 400]
      else if |encoded| % 400 == 0 then ['+' as byte] else encoded[400 * i..]
    decreases |encoded|
  {
    if |encoded| >= 400 {
      var rest := encoded[400..];
      PiecesAre(rest, if i > 0 then i - 1 else 0);
      assert |rest| / 400 == |encoded| / 400 - 1 && |rest| % 400 == |encoded| % 400;
      if 0 < i < |encoded| / 400 {
        assert rest[400 * (i - 1)..400 * (i - 1) + 400] == encoded[400 * i..400 * i + 400];
      } else if i > 0 {
        assert rest[400 * (i - 1)..] == encoded[400 * i..];
      }
    }
  }

  lemma NoSeparators(c: byte)
    requires Base64.InAlphabet(c) || c == Base64.PAD
    ensures c != COLON && c != SP && c != NUL && c != CR && c != LF
  {
  }

  lemma LineOfOne(p: seq<byte>)
    requires PlainWord(p)
    ensures Line(AUTHENTICATE, [p]) == AUTHENTICATE + ([SP] + p) + [CR, LF]
  {
    assert Body([p]) == [SP] + p + [];
  }

  lemma GoodPieceIsSendable(p: seq<byte>)
    requires GoodPiece(p)
    ensures EndToEnd.GoodCall(EndToEnd.Call(AUTHENTICATE, [p])) && PlainWord(p)
  {
    hide Body, Base64.InAlphabet;
    forall i | 0 <= i < |p| ensures p[i] != COLON && p[i] != SP && p[i] != NUL && p[i] != CR && p[i] != LF {
      NoSeparators(p[i]);
    }
    LineOfOne(p);
  }

  lemma {:induction false} PiecesOf(encoded: seq<byte>, k: nat)
    requires k % CHUNK == 0 && k <= |encoded|
    ensures Pieces(encoded) == Chopped(encoded[..k]) + Pieces(encoded[k..])
  {
    if k == 0 {
      assert encoded[0..] == encoded;
    } else {
      var rest := encoded[CHUNK..];
      PiecesOf(rest, k - CHUNK);
      assert rest[k - CHUNK..] == encoded[k..];
      assert encoded[..k][..CHUNK] == encoded[..CHUNK];
      assert encoded[..k][CHUNK..] == rest[..k - CHUNK];
    }
  }

  /** Whole chunks only. */
  function Chopped(s: seq<byte>): seq<seq<byte>>
    requires |s| % CHUNK == 0
  {
    if s == [] then [] else [s[..CHUNK]] + Chopped(s[CHUNK..])
  }

  lemma {:induction false} ChoppedSnoc(s: seq<byte>, c: seq<byte>)
    requires |s| % CHUNK == 0 && |c| == CHUNK
    ensures Chopped(s + c) == Chopped(s) + [c]
  {
    if s == [] {
      assert s + c == c && c[..CHUNK] == c && c[CHUNK..] == [];
    } else {
      assert (s + c)[..CHUNK] == s[..CHUNK] && (s + c)[CHUNK..] == s[CHUNK..] + c;
      ChoppedSnoc(s[CHUNK..], c);
    }
  }

  /** What goes out for a piece. */
  lemma PieceLineIs(p: seq<byte>)
    requires GoodPiece(p)
    ensures Line(AUTHENTICATE, [p]) == Ascii("AUTHENTICATE ") + p + Ascii("\r\n")
  {
    hide Line, PlainWord, GoodPiece;
    GoodPieceIsSendable(p);
    LineOfOne(p);
    CommandIs();
    assert AUTHENTICATE + ([SP] + p) == AUTHENTICATE + [SP] + p;
  }

  lemma CommandIs()
    ensures Ascii("AUTHENTICATE ") == AUTHENTICATE + [SP] && Ascii("\r\n") == [CR, LF]
  {
  }

  /** Give up: an asterisk in place of a body. */
  method AbortSasl() returns (raw: seq<byte>)
    ensures raw == Ascii("AUTHENTICATE *\r\n")
  {
    var r := Send(AUTHENTICATE, [[42]]);
    AbortLine();
    raw := r.raw;
  }

  lemma AbortLine()
    ensures Sendable(AUTHENTICATE, [[42]]) && Line(AUTHENTICATE, [[42]]) == Ascii("AUTHENTICATE *\r\n")
  {
    assert PlainWord([42]);
    LineOfOne([42]);
    CommandIs();
    assert Ascii("AUTHENTICATE *\r\n") == AUTHENTICATE + ([SP] + [42]) + [CR, LF];
  }

  /** Transmit a body; no piece is rejected by `send`. */
  method SendAuthenticate(body: seq<byte>) returns (raws: seq<seq<byte>>)
    ensures raws == EndToEnd.Lines(Calls(Pieces(Base64.Encode(body))))
  {
    hide Pieces, Chopped, Base64.Encode;
    var encoded := Base64.Encode(body);
    EncodeIsBase64Text(body);
    var n := |encoded|;
    ghost var pieces: seq<seq<byte>> := [];
    raws := [];
    var i := 0;
    ChoppedNothing();
    while i < n
      invariant i % CHUNK == 0 || i >= n
      invariant 0 < i && i >= n ==> pieces + (if n % CHUNK == 0 then [[PLUS]] else []) == Pieces(encoded)
      invariant i < n ==> pieces == Chopped(encoded[..i])
      invariant raws == EndToEnd.Lines(Calls(pieces))
      invariant n == 0 ==> pieces == []
    {
      var piece := encoded[i..if i + CHUNK <= n then i + CHUNK else n];
      GoodPieceIsSendable(piece);
      var r := Send(AUTHENTICATE, [piece]);
      LinesSnoc(pieces, piece);
      NextPiece(encoded, i);
      raws := raws + [r.raw];
      pieces := pieces + [piece];
      i := i + CHUNK;
    }
    if n % CHUNK == 0 {
      GoodPieceIsSendable([PLUS]);
      var r := Send(AUTHENTICATE, [[PLUS]]);
      LinesSnoc(pieces, [PLUS]);
      NoPieces(encoded);
      raws := raws + [r.raw];
    }
  }

  lemma ChoppedNothing()
    ensures Chopped([]) == []
  {
  }

  lemma NoPieces(encoded: seq<byte>)
    ensures encoded == [] ==> Pieces(encoded) == [[PLUS]]
  {
  }

  lemma NextPiece(encoded: seq<byte>, i: nat)
    requires i % CHUNK == 0 && i < |encoded|
    ensures var n := |encoded|;
      var piece := encoded[i..if i + CHUNK <= n then i + CHUNK else n];
      if i + CHUNK < n then Chopped(encoded[..i + CHUNK]) == Chopped(encoded[..i]) + [piece]
      else Chopped(encoded[..i]) + [piece] + (if n % CHUNK == 0 then [[PLUS]] else []) == Pieces(encoded)
  {
    hide Chopped, Pieces;
    var n := |encoded|;
    if i + CHUNK <= n {
      FullPiece(encoded, i);
      if i + CHUNK == n {
        LastFullPiece(encoded, i);
      }
    } else {
      LastShortPiece(encoded, i);
    }
  }

  lemma FullPiece(encoded: seq<byte>, i: nat)
    requires i % CHUNK == 0 && i + CHUNK <= |encoded|
    ensures Chopped(encoded[..i + CHUNK]) == Chopped(encoded[..i]) + [encoded[i..i + CHUNK]]
  {
    hide Chopped;
    assert encoded[..i + CHUNK] == encoded[..i] + encoded[i..i + CHUNK];
    ChoppedSnoc(encoded[..i], encoded[i..i + CHUNK]);
  }

  lemma LastFullPiece(encoded: seq<byte>, i: nat)
    requires i % CHUNK == 0 && i + CHUNK == |encoded|
    ensures |encoded| % CHUNK == 0
    ensures Chopped(encoded[..i]) + [encoded[i..i + CHUNK]] + [[PLUS]] == Pieces(encoded)
  {
    hide Chopped, Pieces;
    var n := |encoded|;
    FullPiece(encoded, i);
    PiecesOf(encoded, n);
    NoPieces(encoded[n..]);
  }

  lemma LastShortPiece(encoded: seq<byte>, i: nat)
    requires i % CHUNK == 0 && i < |encoded| < i + CHUNK
    ensures |encoded| % CHUNK != 0
    ensures Chopped(encoded[..i]) + [encoded[i..|encoded|]] + [] == Pieces(encoded)
  {
    hide Chopped, Pieces;
    PiecesOf(encoded, i);
    ShortPiece(encoded[i..]);
    assert encoded[i..|encoded|] == encoded[i..];
    var a, b := Chopped(encoded[..i]), [encoded[i..]];
    assert a + b + [] == a + b;
    NotWhole(i, |encoded|);
  }

  lemma NotWhole(i: nat, n: nat)
    requires i % CHUNK == 0 && i < n < i + CHUNK
    ensures n % CHUNK != 0
  {
  }

  lemma ShortPiece(encoded: seq<byte>)
    requires 0 < |encoded| < CHUNK
    ensures Pieces(encoded) == [encoded]
  {
  }

  lemma LinesSnoc(pieces: seq<seq<byte>>, p: seq<byte>)
    ensures EndToEnd.Lines(Calls(pieces + [p])) == EndToEnd.Lines(Calls(pieces)) + [Line(AUTHENTICATE, [p])]
  {
  }

  // ------------------------------------------------------------ the task

  /** What one resume of the mechanism's coroutine does. */
  datatype Resume = Yield(reply: Option<seq<byte>>) | Return(reply: Option<seq<byte>>) | Throw

  /** A mechanism: any coroutine, as a function of the payloads it has been resumed with. */
  type Mechanism = seq<seq<byte>> -> Resume

  datatype ServerMsg = Authenticate(chunk: seq<byte>) | Success | Fail | Aborted

  datatype Outgoing = Reply(body: seq<byte>) | Abort

  datatype Result = Running | Returned(outcome: bool) | Raised

  datatype Task = Task(
    chunks: seq<seq<byte>>, payloads: seq<seq<byte>>, dead: bool, outcome: bool, sent: seq<Outgoing>, result: Result)

  const Start := Task([], [], false, true, [], Running)

  /** `coroutine.resume` and what the task does with its results; a dead coroutine cannot be resumed. */
  function Feed(mech: Mechanism, t: Task, payload: seq<byte>): Task {
    var payloads := t.payloads + [payload];
    var t' := t.(chunks := [], payloads := payloads);
    if t.dead then t'.(outcome := false, sent := t.sent + [Abort])
    else
      match mech(payloads)
      case Throw => t'.(dead := true, outcome := false, sent := t.sent + [Abort])
      case Yield(reply) => if reply.Some? then t'.(sent := t.sent + [Reply(reply.value)]) else t'
      case Return(reply) =>
        if reply.Some? then t'.(dead := true, sent := t.sent + [Reply(reply.value)]) else t'.(dead := true)
  }

  function Step(mech: Mechanism, t: Task, m: ServerMsg): Task {
    match m
    case Authenticate(chunk) =>
      var bytes := if chunk == [PLUS] then Some([]) else Base64.Decode(chunk);
      if bytes.None? then t.(result := Raised)
      else
        var t' := if chunk == [PLUS] then t else t.(chunks := t.chunks + [bytes.value]);
        if |chunk| < CHUNK then Feed(mech, t', Concat(t'.chunks)) else t'
    case Success => t.(result := Returned(t.dead && t.outcome))
    case Fail => t.(result := Returned(false))
    case Aborted => t.(result := Returned(false))
  }

  function Run(mech: Mechanism, t: Task, msgs: seq<ServerMsg>): Task
    decreases |msgs|
  {
    if msgs == [] || t.result != Running then t else Run(mech, Step(mech, t, msgs[0]), msgs[1..])
  }

  /** The task's loop over the server's messages. */
  method SaslTask(mech: Mechanism, msgs: seq<ServerMsg>) returns (t: Task)
    ensures t == Run(mech, Start, msgs)
  {
    hide Run, Feed;
    var outcome, chunks, payloads, dead, sent := true, [], [], false, [];
    var i := 0;
    assert msgs[0..] == msgs;
    while i < |msgs|
      invariant i <= |msgs|
      invariant Run(mech, Start, msgs) == Run(mech, Task(chunks, payloads, dead, outcome, sent, Running), msgs[i..])
      decreases |msgs| - i
    {
      ghost var before := Task(chunks, payloads, dead, outcome, sent, Running);
      RunOne(mech, before, msgs[i..]);
      assert msgs[i..][1..] == msgs[i + 1..];
      match msgs[i] {
      case Authenticate(chunk) =>
        if chunk != [PLUS] {
          var bytes := Base64.Decode(chunk);
          if bytes.None? {
            RunStopped(mech, before.(result := Raised), msgs[i + 1..]);
            return Task(chunks, payloads, dead, outcome, sent, Raised);
          }
          chunks := chunks + [bytes.value];
        }
        if |chunk| < CHUNK {
          var t' := Feed(mech, Task(chunks, payloads, dead, outcome, sent, Running), Concat(chunks));
          FeedRuns(mech, Task(chunks, payloads, dead, outcome, sent, Running), Concat(chunks));
          outcome, chunks, payloads, dead, sent := t'.outcome, t'.chunks, t'.payloads, t'.dead, t'.sent;
        }
      case Success =>
        RunStopped(mech, before.(result := Returned(dead && outcome)), msgs[i + 1..]);
        return Task(chunks, payloads, dead, outcome, sent, Returned(if dead then outcome else false));
      case _ =>
        RunStopped(mech, before.(result := Returned(false)), msgs[i + 1..]);
        return Task(chunks, payloads, dead, outcome, sent, Returned(false));
      }
      i := i + 1;
    }
    t := Task(chunks, payloads, dead, outcome, sent, Running);
    RunStopped(mech, t, msgs[i..]);
  }

  lemma RunOne(mech: Mechanism, t: Task, msgs: seq<ServerMsg>)
    requires msgs != [] && t.result == Running
    ensures Run(mech, t, msgs) == Run(mech, Step(mech, t, msgs[0]), msgs[1..])
  {
  }

  lemma RunStopped(mech: Mechanism, t: Task, msgs: seq<ServerMsg>)
    requires msgs == [] || t.result != Running
    ensures Run(mech, t, msgs) == t
  {
  }

  lemma FeedRuns(mech: Mechanism, t: Task, payload: seq<byte>)
    ensures Feed(mech, t, payload).result == t.result && Feed(mech, t, payload).payloads == t.payloads + [payload]
    ensures Feed(mech, t, payload).chunks == []
  {
  }

  // ------------------------------------------------------------ when the task reports success

  /** The mechanism, resumed with exactly these payloads, has yielded to all but the last and returned on the last. */
  ghost predicate CompleteRun(mech: Mechanism, payloads: seq<seq<byte>>) {
    && payloads != []
    && mech(payloads).Return?
    && forall n :: 0 < n < |payloads| ==> mech(payloads[..n]).Yield?
  }

  ghost predicate AllYield(mech: Mechanism, payloads: seq<seq<byte>>) {
    forall n :: 0 < n <= |payloads| ==> mech(payloads[..n]).Yield?
  }

  /** While the outcome is good, nothing has failed: the mechanism is waiting, or has returned and was left alone. */
  ghost predicate Honest(mech: Mechanism, t: Task) {
    && (if t.dead then exists n :: 0 < n <= |t.payloads| && !mech(t.payloads[..n]).Yield?
        else AllYield(mech, t.payloads))
    && (t.dead && t.outcome <==> CompleteRun(mech, t.payloads))
    && (!t.dead ==> t.outcome)
    && (t.outcome <==> Abort !in t.sent)
    && (t.result == Returned(true) ==> t.dead && t.outcome)
  }

  lemma FeedHonest(mech: Mechanism, t: Task, payload: seq<byte>)
    requires Honest(mech, t) && t.result == Running
    ensures Honest(mech, Feed(mech, t, payload))
  {
    var p := t.payloads + [payload];
    assert p[..|p|] == p && p[..|t.payloads|] == t.payloads;
    forall n | 0 < n <= |t.payloads| ensures p[..n] == t.payloads[..n] {
    }
    if t.dead {
      var n :| 0 < n <= |t.payloads| && !mech(t.payloads[..n]).Yield?;
      assert !mech(p[..n]).Yield?;
    } else if !mech(p).Yield? {
      assert !mech(p[..|p|]).Yield?;
    }
  }

  lemma {:induction false} RunHonest(mech: Mechanism, t: Task, msgs: seq<ServerMsg>)
    requires Honest(mech, t)
    ensures Honest(mech, Run(mech, t, msgs))
    decreases |msgs|
  {
    hide Honest, Feed;
    if msgs != [] && t.result == Running {
      StepHonest(mech, t, msgs[0]);
      RunHonest(mech, Step(mech, t, msgs[0]), msgs[1..]);
    }
  }

  lemma StepHonest(mech: Mechanism, t: Task, m: ServerMsg)
    requires Honest(mech, t) && t.result == Running
    ensures Honest(mech, Step(mech, t, m))
  {
    hide Feed;
    if m.Authenticate? && |m.chunk| < CHUNK {
      var bytes := if m.chunk == [PLUS] then Some([]) else Base64.Decode(m.chunk);
      if bytes.Some? {
        var t' := if m.chunk == [PLUS] then t else t.(chunks := t.chunks + [bytes.value]);
        FeedHonest(mech, t', Concat(t'.chunks));
      }
    }
  }

  // ------------------------------------------------------------ what the task answers

  /** The mechanism is over before it can be resumed with payload `n`. */
  ghost predicate EndsBefore(mech: Mechanism, payloads: seq<seq<byte>>, n: nat)
    requires n <= |payloads| + 1
  {
    exists m :: 0 < m < n && !mech(payloads[..m]).Yield?
  }

  /** The answer to payload `n`, counted from one: the mechanism's reply, when it has one, whether it goes on or ends
      with it; an abort when it fails or is over already. */
  ghost function Answer(mech: Mechanism, payloads: seq<seq<byte>>, n: nat): seq<Outgoing>
    requires 0 < n <= |payloads|
  {
    if EndsBefore(mech, payloads, n) then [Abort]
    else
      match mech(payloads[..n])
      case Throw => [Abort]
      case Yield(None) => []
      case Return(None) => []
      case Yield(Some(body)) => [Reply(body)]
      case Return(Some(body)) => [Reply(body)]
  }

  ghost function Answers(mech: Mechanism, payloads: seq<seq<byte>>, n: nat): seq<Outgoing>
    requires n <= |payloads|
  {
    if n == 0 then [] else Answers(mech, payloads, n - 1) + Answer(mech, payloads, n)
  }

  /** What has been sent is determined by the mechanism and the payloads alone. */
  ghost predicate Answered(mech: Mechanism, t: Task) {
    && t.sent == Answers(mech, t.payloads, |t.payloads|)
    && (t.dead <==> EndsBefore(mech, t.payloads, |t.payloads| + 1))
  }

  lemma {:induction false} AnswersPrefix(mech: Mechanism, p: seq<seq<byte>>, x: seq<byte>, n: nat)
    requires n <= |p|
    ensures Answers(mech, p + [x], n) == Answers(mech, p, n)
  {
    hide EndsBefore;
    if n > 0 {
      AnswersPrefix(mech, p, x, n - 1);
      assert (p + [x])[..n] == p[..n];
      EndsPrefix(mech, p, x, n);
    }
  }

  lemma EndsPrefix(mech: Mechanism, p: seq<seq<byte>>, x: seq<byte>, n: nat)
    requires n <= |p| + 1
    ensures EndsBefore(mech, p + [x], n) <==> EndsBefore(mech, p, n)
  {
    assert forall m :: 0 < m < n ==> (p + [x])[..m] == p[..m];
    if EndsBefore(mech, p, n) {
      var m :| 0 < m < n && !mech(p[..m]).Yield?;
      assert !mech((p + [x])[..m]).Yield?;
    }
  }

  lemma EndsNext(mech: Mechanism, p: seq<seq<byte>>, n: nat)
    requires 0 < n <= |p|
    ensures EndsBefore(mech, p, n + 1) <==> EndsBefore(mech, p, n) || !mech(p[..n]).Yield?
  {
  }

  lemma FeedAnswers(mech: Mechanism, t: Task, payload: seq<byte>)
    requires Answered(mech, t)
    ensures Answered(mech, Feed(mech, t, payload))
  {
    hide EndsBefore;
    var p, n := t.payloads + [payload], |t.payloads| + 1;
    assert p[..n] == p;
    AnswersPrefix(mech, t.payloads, payload, n - 1);
    EndsPrefix(mech, t.payloads, payload, n);
    EndsNext(mech, p, n);
    assert Answers(mech, p, n) == t.sent + Answer(mech, p, n);
    assert t.sent + [] == t.sent;
  }

  /** In every run: the replies of the mechanism, in order, each to its payload, and nothing else. */
  lemma {:induction false} RunAnswers(mech: Mechanism, t: Task, msgs: seq<ServerMsg>)
    requires Answered(mech, t)
    ensures Answered(mech, Run(mech, t, msgs))
    decreases |msgs|
  {
    hide Answered, Feed;
    if msgs != [] && t.result == Running {
      StepAnswers(mech, t, msgs[0]);
      RunAnswers(mech, Step(mech, t, msgs[0]), msgs[1..]);
    }
  }

  lemma StepAnswers(mech: Mechanism, t: Task, m: ServerMsg)
    requires Answered(mech, t)
    ensures Answered(mech, Step(mech, t, m))
  {
    hide Feed, Answers, EndsBefore;
    if m.Authenticate? && |m.chunk| < CHUNK {
      var bytes := if m.chunk == [PLUS] then Some([]) else Base64.Decode(m.chunk);
      if bytes.Some? {
        var t' := if m.chunk == [PLUS] then t else t.(chunks := t.chunks + [bytes.value]);
        FeedAnswers(mech, t', Concat(t'.chunks));
      }
    }
  }

  lemma StartAnswered(mech: Mechanism)
    ensures Answered(mech, Start)
  {
  }

  /** A message the task takes in its stride. */
  predicate Accepted(m: ServerMsg) {
    m.Authenticate? && (m.chunk == [PLUS] || Base64.Decode(m.chunk).Some?)
  }

  predicate AllAccepted(msgs: seq<ServerMsg>) {
    forall i :: 0 <= i < |msgs| ==> Accepted(msgs[i])
  }

  function ChunkBytes(chunk: seq<byte>): seq<byte>
    requires Accepted(Authenticate(chunk))
  {
    if chunk == [PLUS] then [] else Base64.Decode(chunk).value
  }

  /** The payloads in a stream of messages: a short chunk ends one. The mechanism has no say in this. */
  function Assemble(sofar: seq<byte>, msgs: seq<ServerMsg>): seq<seq<byte>>
    requires AllAccepted(msgs)
    decreases |msgs|
  {
    if msgs == [] then []
    else
      assert Accepted(msgs[0]);
      var now := sofar + ChunkBytes(msgs[0].chunk);
      if |msgs[0].chunk| < CHUNK then [now] + Assemble([], msgs[1..]) else Assemble(now, msgs[1..])
  }

  lemma StepAssembles(mech: Mechanism, t: Task, chunk: seq<byte>)
    requires Accepted(Authenticate(chunk))
    ensures var t' := Step(mech, t, Authenticate(chunk));
      var now := Concat(t.chunks) + ChunkBytes(chunk);
      && t'.result == t.result
      && (if |chunk| < CHUNK then t'.payloads == t.payloads + [now] && t'.chunks == []
          else t'.payloads == t.payloads && Concat(t'.chunks) == now)
  {
    hide Feed;
    if chunk == [PLUS] {
      assert Concat(t.chunks) + [] == Concat(t.chunks);
      FeedRuns(mech, t, Concat(t.chunks));
    } else {
      var t' := t.(chunks := t.chunks + [Base64.Decode(chunk).value]);
      ConcatSnoc(t.chunks, Base64.Decode(chunk).value);
      FeedRuns(mech, t', Concat(t'.chunks));
    }
  }

  /** Over any accepted messages the task keeps running and hands over exactly the assembled payloads. */
  lemma {:induction false} RunAssembles(mech: Mechanism, t: Task, msgs: seq<ServerMsg>)
    requires t.result == Running && AllAccepted(msgs)
    ensures Run(mech, t, msgs).result == Running
    ensures Run(mech, t, msgs).payloads == t.payloads + Assemble(Concat(t.chunks), msgs)
    decreases |msgs|
  {
    hide Step, Accepted, ChunkBytes, Concat;
    if msgs != [] {
      assert Accepted(msgs[0]);
      var chunk := Chunk(msgs[0]);
      var t' := Step(mech, t, msgs[0]);
      StepAssembles(mech, t, chunk);
      assert AllAccepted(msgs[1..]) by {
        forall i | 0 <= i < |msgs[1..]| ensures Accepted(msgs[1..][i]) {
          assert msgs[1..][i] == msgs[i + 1];
        }
      }
      ConcatNothing();
      RunAssembles(mech, t', msgs[1..]);
      if |chunk| < CHUNK {
        var now := Concat(t.chunks) + ChunkBytes(chunk);
        assert (t.payloads + [now]) + Assemble([], msgs[1..]) == t.payloads + ([now] + Assemble([], msgs[1..]));
      }
    }
  }

  lemma Chunk(m: ServerMsg) returns (chunk: seq<byte>)
    requires Accepted(m)
    ensures m == Authenticate(chunk)
  {
    chunk := m.chunk;
  }

  lemma ConcatNothing()
    ensures Concat<byte>([]) == []
  {
  }

  lemma {:induction false} RunAppend(mech: Mechanism, t: Task, a: seq<ServerMsg>, b: seq<ServerMsg>)
    ensures Run(mech, t, a + b) == Run(mech, Run(mech, t, a), b)
    decreases |a|
  {
    hide Step;
    if a == [] {
      assert a + b == b;
    } else {
      assert (a + b)[1..] == a[1..] + b;
      if t.result == Running {
        RunAppend(mech, Step(mech, t, a[0]), a[1..], b);
      }
    }
  }

  /** The 903 that decides: everything before it was accepted, and the payloads were one complete mechanism run. */
  ghost predicate GoodSuccess(mech: Mechanism, msgs: seq<ServerMsg>, k: nat) {
    k < |msgs| && msgs[k].Success? && AllAccepted(msgs[..k]) && CompleteRun(mech, Assemble([], msgs[..k]))
  }

  lemma RunTo(mech: Mechanism, msgs: seq<ServerMsg>, k: nat)
    requires k < |msgs| && AllAccepted(msgs[..k]) && !Accepted(msgs[k])
    ensures var t := Run(mech, Start, msgs[..k]);
      t.payloads == Assemble([], msgs[..k]) && Honest(mech, t) && Run(mech, Start, msgs) == Step(mech, t, msgs[k])
  {
    hide Step;
    var t := Run(mech, Start, msgs[..k]);
    RunAssembles(mech, Start, msgs[..k]);
    RunHonest(mech, Start, msgs[..k]);
    assert [] + Assemble([], msgs[..k]) == Assemble([], msgs[..k]);
    assert msgs == msgs[..k] + msgs[k..];
    RunAppend(mech, Start, msgs[..k], msgs[k..]);
    RunOne(mech, t, msgs[k..]);
    StepStops(mech, t, msgs[k]);
    RunStopped(mech, Step(mech, t, msgs[k]), msgs[k..][1..]);
  }

  lemma StepStops(mech: Mechanism, t: Task, m: ServerMsg)
    requires !Accepted(m)
    ensures Step(mech, t, m).result != Running
  {
  }

  /** The first message that is not accepted, if any. */
  lemma {:induction false} FirstRefused(msgs: seq<ServerMsg>) returns (k: nat)
    ensures k <= |msgs| && AllAccepted(msgs[..k]) && (k < |msgs| ==> !Accepted(msgs[k]))
  {
    k := 0;
    if msgs != [] && Accepted(msgs[0]) {
      var j := FirstRefused(msgs[1..]);
      k := j + 1;
      forall i | 0 <= i < k ensures Accepted(msgs[..k][i]) {
        assert i > 0 ==> msgs[..k][i] == msgs[1..][..j][i - 1];
      }
    }
  }

  /** For every mechanism and every server: the task reports success if and only if the server did so after exactly
      one complete, error-free run of the mechanism. */
  lemma TaskSucceedsIff(mech: Mechanism, msgs: seq<ServerMsg>)
    ensures Run(mech, Start, msgs).result == Returned(true) <==> exists k :: GoodSuccess(mech, msgs, k)
  {
    hide Honest, CompleteRun, Assemble;
    var k := FirstRefused(msgs);
    if k < |msgs| {
      RunTo(mech, msgs, k);
      HonestSays(mech, Run(mech, Start, msgs[..k]));
      assert GoodSuccess(mech, msgs, k) <==> msgs[k].Success? && CompleteRun(mech, Assemble([], msgs[..k]));
      forall j: nat | GoodSuccess(mech, msgs, j) ensures j == k {
        SameStop(msgs, j, k);
      }
    } else {
      assert msgs[..k] == msgs;
      RunAssembles(mech, Start, msgs);
      forall j: nat | j < |msgs| ensures !GoodSuccess(mech, msgs, j) {
        assert Accepted(msgs[j]);
      }
    }
  }

  /** How every run ends: it goes on while messages are accepted; the first that is not raises if it is a chunk that
      cannot be decoded, and otherwise decides. Up to there the payloads are the assembled ones, and what was sent are
      the answers to them. */
  lemma TaskOutcome(mech: Mechanism, msgs: seq<ServerMsg>, k: nat)
    requires k <= |msgs| && AllAccepted(msgs[..k]) && (k < |msgs| ==> !Accepted(msgs[k]))
    ensures var t := Run(mech, Start, msgs);
      && t.payloads == Assemble([], msgs[..k])
      && t.sent == Answers(mech, t.payloads, |t.payloads|)
      && t.result ==
        if k == |msgs| then Running
        else match msgs[k]
          case Authenticate(_) => Raised
          case Success => Returned(CompleteRun(mech, t.payloads))
          case _ => Returned(false)
  {
    hide Honest, CompleteRun, Assemble, Answers, EndsBefore;
    StartAnswered(mech);
    RunAnswers(mech, Start, msgs);
    if k < |msgs| {
      RunTo(mech, msgs, k);
      HonestSays(mech, Run(mech, Start, msgs[..k]));
    } else {
      assert msgs[..k] == msgs;
      RunAssembles(mech, Start, msgs);
      assert [] + Assemble([], msgs) == Assemble([], msgs);
    }
  }

  /** There is only one first message that is not accepted. */
  lemma SameStop(msgs: seq<ServerMsg>, j: nat, k: nat)
    requires j < |msgs| && AllAccepted(msgs[..j]) && !Accepted(msgs[j])
    requires k < |msgs| && AllAccepted(msgs[..k]) && !Accepted(msgs[k])
    ensures j == k
  {
    hide Accepted;
    assert forall i :: 0 <= i < j ==> msgs[i] == msgs[..j][i];
    assert forall i :: 0 <= i < k ==> msgs[i] == msgs[..k][i];
  }

  lemma HonestSays(mech: Mechanism, t: Task)
    requires Honest(mech, t)
    ensures t.dead && t.outcome <==> CompleteRun(mech, t.payloads)
  {
  }

  // ------------------------------------------------------------ splitter against reassembler

  function Messages(pieces: seq<seq<byte>>): (r: seq<ServerMsg>)
    ensures |r| == |pieces|
  {
    seq(|pieces|, i requires 0 <= i < |pieces| => Authenticate(pieces[i]))
  }

  /** Everything that is sent for a list of bodies. */
  function AllPieces(bodies: seq<seq<byte>>): seq<seq<byte>> {
    if bodies == [] then [] else Pieces(Base64.Encode(bodies[0])) + AllPieces(bodies[1..])
  }

  /** One body, behind whatever is collected already. */
  lemma {:induction false} AssembleBody(sofar: seq<byte>, body: seq<byte>, rest: seq<ServerMsg>)
    requires AllAccepted(rest)
    ensures var msgs := Messages(Pieces(Base64.Encode(body)));
      AllAccepted(msgs + rest) && Assemble(sofar, msgs + rest) == [sofar + body] + Assemble([], rest)
    decreases |body|
  {
    hide Base64.Encode, Base64.Decode;
    var e := Base64.Encode(body);
    var msgs := Messages(Pieces(e));
    Base64.RoundTrip(body);
    if |body| <= 300 {
      if |e| < CHUNK {
        var piece := if e == [] then [PLUS] else e;
        assert Pieces(e) == [piece] && msgs == [Authenticate(piece)];
        assert e == [] ==> body == [];
        AssembleStep(sofar, piece, rest);
      } else {
        WholeChunk(e);
        assert msgs + rest == [Authenticate(e)] + ([Authenticate([PLUS])] + rest);
        AssembleStep(sofar + body, [PLUS], rest);
        assert (sofar + body) + [] == sofar + body;
        AssembleStep(sofar, e, [Authenticate([PLUS])] + rest);
      }
    } else {
      var first, later := body[..300], body[300..];
      Base64.EncodeAppend(first, later);
      Base64.RoundTrip(first);
      assert body == first + later;
      var e1 := Base64.Encode(first);
      assert |e1| == CHUNK && e[..CHUNK] == e1 && e[CHUNK..] == Base64.Encode(later);
      var msgs' := Messages(Pieces(Base64.Encode(later)));
      assert Pieces(e) == [e1] + Pieces(Base64.Encode(later));
      assert msgs + rest == [Authenticate(e1)] + (msgs' + rest);
      AssembleBody(sofar + first, later, rest);
      AssembleStep(sofar, e1, msgs' + rest);
      assert (sofar + first) + later == sofar + body;
    }
  }

  lemma WholeChunk(e: seq<byte>)
    requires |e| == CHUNK
    ensures Pieces(e) == [e, [PLUS]]
  {
    assert e[..CHUNK] == e && e[CHUNK..] == [];
  }

  lemma AssembleStep(sofar: seq<byte>, chunk: seq<byte>, rest: seq<ServerMsg>)
    requires Accepted(Authenticate(chunk)) && AllAccepted(rest)
    ensures AllAccepted([Authenticate(chunk)] + rest)
    ensures Assemble(sofar, [Authenticate(chunk)] + rest) ==
      var now := sofar + ChunkBytes(chunk);
      if |chunk| < CHUNK then [now] + Assemble([], rest) else Assemble(now, rest)
  {
    hide Accepted, ChunkBytes;
    var msgs := [Authenticate(chunk)] + rest;
    assert msgs[1..] == rest && msgs[0] == Authenticate(chunk);
    forall i | 0 <= i < |msgs| ensures Accepted(msgs[i]) {
      assert i > 0 ==> msgs[i] == rest[i - 1];
    }
  }

  /** The reassembler hands over exactly the bodies that were split, in order, empty and exact multiples included. */
  lemma {:induction false} SplitThenAssemble(bodies: seq<seq<byte>>)
    ensures AllAccepted(Messages(AllPieces(bodies)))
    ensures Assemble([], Messages(AllPieces(bodies))) == bodies
  {
    hide Accepted, Assemble, Pieces, Base64.Encode;
    if bodies == [] {
      NothingAssembled();
    } else {
      SplitThenAssemble(bodies[1..]);
      var a, b := Pieces(Base64.Encode(bodies[0])), AllPieces(bodies[1..]);
      assert Messages(a + b) == Messages(a) + Messages(b);
      AssembleBody([], bodies[0], Messages(b));
      assert [] + bodies[0] == bodies[0];
      assert [bodies[0]] + bodies[1..] == bodies;
    }
  }

  lemma NothingAssembled()
    ensures Assemble([], []) == []
  {
  }

  /** The same through the task: whatever the mechanism, it is resumed with exactly those bodies and answered for. */
  lemma TaskReceivesBodies(mech: Mechanism, bodies: seq<seq<byte>>)
    ensures var t := Run(mech, Start, Messages(AllPieces(bodies)));
      t.result == Running && t.payloads == bodies && t.sent == Answers(mech, bodies, |bodies|)
  {
    hide Answers;
    StartAnswered(mech);
    RunAnswers(mech, Start, Messages(AllPieces(bodies)));
    SplitThenAssemble(bodies);
    RunAssembles(mech, Start, Messages(AllPieces(bodies)));
    assert [] + bodies == bodies;
  }

  // ------------------------------------------------------------ over the wire

  lemma {:induction false} AllPiecesGood(bodies: seq<seq<byte>>)
    ensures forall i :: 0 <= i < |AllPieces(bodies)| ==> GoodPiece(AllPieces(bodies)[i])
  {
    hide Pieces, Base64.Encode, GoodPiece;
    if bodies != [] {
      EncodeIsBase64Text(bodies[0]);
      PiecesAreGood(Base64.Encode(bodies[0]));
      AllPiecesGood(bodies[1..]);
    }
  }

  /** What the receiving task sees of a parsed message. */
  function FromWire(m: Message): ServerMsg
    requires m.command == AUTHENTICATE && m.args != []
  {
    Authenticate(m.args[0])
  }

  /** Bodies split, sent as lines, received in any chunking and reassembled are the bodies. */
  lemma BodiesOverTheWire(bodies: seq<seq<byte>>)
    ensures var calls := Calls(AllPieces(bodies));
      var r := Receive(Concat(EndToEnd.Lines(calls)), EndToEnd.IRC_BUFFER_SIZE);
      && r.status == Waiting([]) && |r.messages| == |AllPieces(bodies)|
      && (forall i :: 0 <= i < |r.messages| ==> r.messages[i].command == AUTHENTICATE && r.messages[i].args != [])
      && var msgs := seq(|r.messages|, i requires 0 <= i < |r.messages| => FromWire(r.messages[i]));
      && AllAccepted(msgs) && Assemble([], msgs) == bodies
  {
    hide Receive, GoodPiece, AllPieces, Assemble, Accepted;
    var pieces := AllPieces(bodies);
    var calls := Calls(pieces);
    AllPiecesGood(bodies);
    forall i | 0 <= i < |calls| ensures EndToEnd.GoodCall(calls[i]) {
      GoodPieceIsSendable(pieces[i]);
    }
    EndToEnd.ReceivePrefix(calls, Concat(EndToEnd.Lines(calls)), EndToEnd.IRC_BUFFER_SIZE);
    var r := Receive(Concat(EndToEnd.Lines(calls)), EndToEnd.IRC_BUFFER_SIZE);
    SplitThenAssemble(bodies);
    assert r.messages == EndToEnd.Expected(calls);
    assert seq(|r.messages|, i requires 0 <= i < |r.messages| => FromWire(r.messages[i])) == Messages(pieces);
  }
}
