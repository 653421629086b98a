/** The two-buffer writer. Asynchronous completions are events of the environment: an outstanding write
    transmits bytes from the buffer it was given, a few at a time, and completes or fails later. */
module Connection {
  import opened Bytes

  /** `op` is the outstanding `async_write`: how many bytes of `sending` it has transmitted. */
  datatype State = State(
    send: seq<byte>, sending: seq<byte>, op: Option<nat>, wire: seq<byte>, started: nat, finished: nat)

  const Initial := State([], [], None, [], 0, 0)

  datatype Event = Write(cmd: seq<byte>) | Transmit(n: nat) | Done | Failed

  /** What the environment may do next. */
  predicate Enabled(st: State, e: Event) {
    match e
    case Write(_) => true
    case Transmit(n) => st.op.Some? && st.op.value + n <= |st.sending|
    case Done => st.op == Some(|st.sending|)
    case Failed => st.op.Some?
  }

  function StartWrite(st: State): State {
    st.(send := st.sending, sending := st.send, op := Some(0), started := st.started + 1)
  }

  function Step(st: State, e: Event): State
    requires Enabled(st, e)
  {
    match e
    case Write(cmd) =>
      if cmd == [] then st
      else
        var queued := st.(send := st.send + cmd);
        if st.sending == [] then StartWrite(queued) else queued
    case Transmit(n) =>
      st.(op := Some(st.op.value + n), wire := st.wire + st.sending[st.op.value..st.op.value + n])
    case Done =>
      var cleared := st.(sending := [], op := None, finished := st.finished + 1);
      if cleared.send != [] then StartWrite(cleared) else cleared
    case Failed =>
      st.(sending := [], op := None, finished := st.finished + 1)
  }

  /** The connection object; `op` and `wire` stand for the socket's side. */
  class Connection {
    var send: seq<byte>
    var sending: seq<byte>
    var op: Option<nat>
    var wire: seq<byte>
    ghost var started: nat
    ghost var finished: nat

    ghost function St(): State
      reads this
    {
      State(send, sending, op, wire, started, finished)
    }

    constructor ()
      ensures St() == Initial
    {
      send, sending, op, wire, started, finished := [], [], None, [], 0, 0;
    }

    method Write(cmd: seq<byte>)
      requires Inv(St())
      modifies this
      ensures St() == Step(old(St()), Event.Write(cmd)) && Inv(St())
    {
      if cmd != [] {
        send := send + cmd;
        if sending == [] {
          WriteActual();
        }
      }
    }

    /** Starting a write while another one is outstanding would interleave their bytes: it is never called so. */
    method WriteActual()
      requires op.None?
      modifies this
      ensures St() == StartWrite(old(St()))
    {
      send, sending := sending, send;
      op := Some(0);
      started := started + 1;
    }

    /** The completion handler. */
    method Complete(error: bool)
      requires Inv(St()) && op.Some? && (error || op.value == |sending|)
      modifies this
      ensures St() == Step(old(St()), if error then Failed else Done) && Inv(St())
    {
      op := None;
      finished := finished + 1;
      sending := [];
      if !error && send != [] {
        WriteActual();
      }
    }

    /** The socket takes bytes from the live buffer, not from a copy made when the write started. */
    method Transmit(n: nat)
      requires Inv(St()) && op.Some? && op.value + n <= |sending|
      modifies this`op, this`wire
      ensures St() == Step(old(St()), Event.Transmit(n)) && Inv(St())
    {
      wire := wire + sending[op.value..op.value + n];
      op := Some(op.value + n);
    }
  }

  // ------------------------------------------------------------ runs

  /** `sending` is non-empty exactly while a write is outstanding, and there is at most one. */
  predicate Inv(st: State) {
    && (st.op.None? <==> st.sending == [])
    && (st.op.Some? ==> st.op.value <= |st.sending|)
    && st.started == st.finished + (if st.op.Some? then 1 else 0)
  }

  predicate Legal(st: State, es: seq<Event>)
    decreases |es|
  {
    es == [] || (Enabled(st, es[0]) && Legal(Step(st, es[0]), es[1..]))
  }

  function Run(st: State, es: seq<Event>): State
    requires Legal(st, es)
    decreases |es|
  {
    if es == [] then st else Run(Step(st, es[0]), es[1..])
  }

  lemma {:induction false} RunKeepsInv(st: State, es: seq<Event>)
    requires Inv(st) && Legal(st, es)
    ensures Inv(Run(st, es))
    decreases |es|
  {
    if es != [] {
      RunKeepsInv(Step(st, es[0]), es[1..]);
    }
  }

  /** Until an outstanding write completes or fails, the buffer it reads from stays as it is. */
  lemma {:induction false} BufferIsStable(st: State, es: seq<Event>)
    requires Inv(st) && st.op.Some? && Legal(st, es)
    requires forall i :: 0 <= i < |es| ==> !es[i].Done? && !es[i].Failed?
    ensures Run(st, es).sending == st.sending && Run(st, es).started == st.started
    decreases |es|
  {
    if es != [] {
      assert !es[0].Done? && !es[0].Failed?;
      forall i | 0 <= i < |es[1..]| ensures !es[1..][i].Done? && !es[1..][i].Failed? {
        assert es[1..][i] == es[i + 1];
      }
      BufferIsStable(Step(st, es[0]), es[1..]);
    }
  }

  /** Everything handed to `Write`, in order. */
  function Written(es: seq<Event>): seq<byte> {
    if es == [] then [] else (if es[0].Write? then es[0].cmd else []) + Written(es[1..])
  }

  /** What has been accepted but not transmitted. */
  function Owed(st: State): seq<byte>
    requires Inv(st)
  {
    (if st.op.Some? then st.sending[st.op.value..] else []) + st.send
  }

  /** Nothing waits without a write under way. */
  predicate Flowing(st: State) {
    st.op.None? ==> st.send == []
  }

  /** Nothing is lost between the wire and what is owed, when `w` more has been written. */
  ghost predicate Conserves(st: State, st': State, w: seq<byte>) {
    Inv(st) && Inv(st') && Flowing(st') && st'.wire + Owed(st') == st.wire + Owed(st) + w
  }

  lemma WriteDelivers(st: State, cmd: seq<byte>)
    requires Inv(st) && Flowing(st)
    ensures Conserves(st, Step(st, Write(cmd)), cmd)
  {
    var st' := Step(st, Write(cmd));
    if cmd == [] {
      assert Owed(st) + cmd == Owed(st);
    } else if st.op.Some? {
      assert Owed(st') == st.sending[st.op.value..] + (st.send + cmd) == Owed(st) + cmd;
    } else {
      assert st.send == [] && Owed(st) == [];
      assert st'.sending == [] + cmd == cmd && st'.sending[0..] == cmd;
      assert Owed(st') == cmd + [];
    }
    assert st.wire + (Owed(st) + cmd) == st.wire + Owed(st) + cmd;
  }

  lemma TransmitDelivers(st: State, n: nat)
    requires Inv(st) && Flowing(st) && Enabled(st, Transmit(n))
    ensures Conserves(st, Step(st, Transmit(n)), [])
  {
    var st' := Step(st, Transmit(n));
    var a, b := st.op.value, st.op.value + n;
    assert st.sending[a..] == st.sending[a..b] + st.sending[b..];
    assert st'.wire + (st.sending[b..] + st.send) == st.wire + (st.sending[a..] + st.send) + [];
  }

  lemma DoneDelivers(st: State)
    requires Inv(st) && Flowing(st) && Enabled(st, Done)
    ensures Conserves(st, Step(st, Done), [])
  {
    var st' := Step(st, Done);
    assert st.sending[|st.sending|..] == [];
    assert Owed(st) == [] + st.send == st.send;
    if st'.op.Some? {
      assert st'.sending[0..] == st.send && Owed(st') == st.send + [];
    }
    assert st.wire + st.send + [] == st.wire + st.send;
  }

  lemma StepDelivers(st: State, e: Event)
    requires Inv(st) && Flowing(st) && Enabled(st, e) && !e.Failed?
    ensures var st' := Step(st, e);
      Inv(st') && Flowing(st') && st'.wire + Owed(st') == st.wire + Owed(st) + (if e.Write? then e.cmd else [])
  {
    hide Inv, Step, Flowing, Owed;
    match e
    case Write(cmd) => WriteDelivers(st, cmd);
    case Transmit(n) => TransmitDelivers(st, n);
    case Done => DoneDelivers(st);
  }

  /** Without errors no byte is lost, duplicated or reordered, however the completions fall. */
  lemma {:induction false} RunDelivers(st: State, es: seq<Event>)
    requires Inv(st) && Flowing(st) && Legal(st, es)
    requires forall i :: 0 <= i < |es| ==> !es[i].Failed?
    ensures var st' := Run(st, es);
      Inv(st') && Flowing(st') && st'.wire + Owed(st') == st.wire + Owed(st) + Written(es)
    decreases |es|
  {
    if es == [] {
      assert st.wire + Owed(st) + Written(es) == st.wire + Owed(st);
    } else {
      StepDelivers(st, es[0]);
      forall i | 0 <= i < |es[1..]| ensures !es[1..][i].Failed? {
        assert es[1..][i] == es[i + 1];
      }
      RunDelivers(Step(st, es[0]), es[1..]);
      var w := if es[0].Write? then es[0].cmd else [];
      assert (st.wire + Owed(st) + w) + Written(es[1..]) == st.wire + Owed(st) + (w + Written(es[1..]));
    }
  }

  /** A failed write is over: what it had not transmitted is given up, what was queued behind it stays queued, and no
      other write is started. */
  lemma FailureLoses(st: State)
    requires Inv(st) && st.op.Some?
    ensures var st' := Step(st, Failed);
      && Inv(st') && st'.op.None? && st'.wire == st.wire && st'.started == st.started
      && Owed(st') == st.send && Owed(st) == st.sending[st.op.value..] + Owed(st')
  {
    assert [] + st.send == st.send;
  }

  /** Without a write in flight nothing reaches the wire until something is written again, whatever is queued. */
  lemma {:induction false} SilentUntilWritten(st: State, es: seq<Event>)
    requires Inv(st) && st.op.None? && Legal(st, es)
    requires forall i :: 0 <= i < |es| && es[i].Write? ==> es[i].cmd == []
    ensures Run(st, es) == st
    decreases |es|
  {
    if es != [] {
      assert es[0].Write? && es[0].cmd == [];
      assert forall i :: 0 <= i < |es[1..]| ==> es[1..][i] == es[i + 1];
      SilentUntilWritten(st, es[1..]);
    }
  }

  /** The next command written then starts a write of the whole queue, with itself at the end. */
  lemma WriteAfterFailure(st: State, cmd: seq<byte>)
    requires Inv(st) && st.op.None? && cmd != []
    ensures var st' := Step(st, Write(cmd));
      st'.op == Some(0) && st'.sending == st.send + cmd && st'.send == [] && st'.started == st.started + 1
  {
  }

  lemma {:induction false} WrittenAppend(a: seq<Event>, b: seq<Event>)
    ensures Written(a + b) == Written(a) + Written(b)
  {
    if a == [] {
      assert a + b == b;
    } else {
      assert (a + b)[0] == a[0] && (a + b)[1..] == a[1..] + b;
      WrittenAppend(a[1..], b);
    }
  }

  lemma {:induction false} RunAppend(st: State, a: seq<Event>, b: seq<Event>)
    requires Legal(st, a) && Legal(Run(st, a), b)
    ensures Legal(st, a + b) && Run(st, a + b) == Run(Run(st, a), b)
    decreases |a|
  {
    hide Step, Enabled, Legal, Run;
    if a == [] {
      assert a + b == b;
      RunNothing(st, a);
    } else {
      assert (a + b)[0] == a[0] && (a + b)[1..] == a[1..] + b;
      RunOne(st, a);
      RunAppend(Step(st, a[0]), a[1..], b);
      RunOne(st, a + b);
    }
  }

  lemma RunNothing(st: State, es: seq<Event>)
    requires es == []
    ensures Legal(st, es) && Run(st, es) == st
  {
  }

  lemma RunOne(st: State, es: seq<Event>)
    requires es != []
    ensures Legal(st, es) <==> Enabled(st, es[0]) && Legal(Step(st, es[0]), es[1..])
    ensures Legal(st, es) ==> Run(st, es) == Run(Step(st, es[0]), es[1..])
  {
  }

  /** The rest of an outstanding write, then its completion. */
  lemma Finish(st: State) returns (es: seq<Event>)
    requires Inv(st) && st.op.Some?
    ensures es == [Transmit(|st.sending| - st.op.value), Done] && Written(es) == []
    ensures Legal(st, es) && Run(st, es) == Step(Step(st, es[0]), Done)
  {
    es := [Transmit(|st.sending| - st.op.value), Done];
    var mid := Step(st, es[0]);
    assert es[1..] == [Done] && [Done][1..] == [];
    assert Legal(mid, [Done]) && Run(mid, [Done]) == Step(mid, Done) && Written([Done]) == [];
  }

  /** The writer can always catch up: two completed writes at most, and nothing is owed. */
  lemma Drains(st: State) returns (es: seq<Event>)
    requires Inv(st) && Flowing(st)
    ensures Legal(st, es) && |es| <= 4 && Written(es) == [] && (forall i :: 0 <= i < |es| ==> !es[i].Failed?)
    ensures Inv(Run(st, es)) && Run(st, es).op.None? && Owed(Run(st, es)) == []
  {
    es := [];
    if st.op.Some? {
      es := Finish(st);
      var st1 := Run(st, es);
      if st1.op.Some? {
        var more := Finish(st1);
        RunAppend(st, es, more);
        WrittenAppend(es, more);
        es := es + more;
      }
    }
  }
}
