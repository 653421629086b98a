/** The SOCKS5 client (RFC 1928 and RFC 1929) as a step machine against an arbitrary server. */
module Socks5 {
  import opened Bytes

  datatype Host = Hostname(name: seq<byte>) | Address4(octets: seq<byte>) | Address6(octets: seq<byte>)

  datatype Auth = NoCredential | UsernamePassword(username: seq<byte>, password: seq<byte>)

  /** The connection's constants. Addresses have their fixed sizes and ports sixteen bits. */
  datatype Config = Config(host: Host, port: nat, auth: Auth) {
    predicate Valid() {
      && port < 65536
      && (host.Address4? ==> |host.octets| == 4)
      && (host.Address6? ==> |host.octets| == 16)
    }
  }

  // Errors from the client
  const WRONG_VERSION := 256
  const NO_ACCEPTABLE_METHODS := 257
  const AUTHENTICATION_FAILED := 258
  const UNSUPPORTED_ENDPOINT_ADDRESS := 259
  const DOMAIN_TOO_LONG := 260
  const USERNAME_TOO_LONG := 261
  const PASSWORD_TOO_LONG := 262
  // Errors from the server that the client uses itself
  const GENERAL_FAILURE := 1

  datatype Result = Connected(address: seq<byte>, port: nat) | SocksError(code: nat) | IoError

  datatype RecvState = HelloRecvd | AuthRecvd | ReplyRecvd | FinishIpv4 | FinishIpv6

  function READ(s: RecvState): nat {
    match s
    case HelloRecvd => 2
    case AuthRecvd => 2
    case ReplyRecvd => 4
    case FinishIpv4 => 6
    case FinishIpv6 => 18
  }

  /** What a step starts: write the buffer and then read, read only, or finish. */
  datatype Action = Transact(next: RecvState) | Receive(next: RecvState) | Complete(result: Result)

  datatype StepResult = StepResult(buffer: seq<byte>, action: Action)

  // ------------------------------------------------------------ messages

  function MethodWanted(auth: Auth): byte {
    if auth.NoCredential? then 0 else 2
  }

  /** The length octet is the size converted to one byte. */
  function SizePrefixed(s: seq<byte>): seq<byte> {
    [(|s| % 256) as byte] + s
  }

  function HostBytes(host: Host): seq<byte> {
    match host
    case Hostname(name) => [3] + SizePrefixed(name)
    case Address4(octets) => [1] + SizePrefixed(octets)
    case Address6(octets) => [4] + SizePrefixed(octets)
  }

  function PortBytes(port: nat): seq<byte>
    requires port < 65536
  {
    [(port / 256) as byte, (port % 256) as byte]
  }

  function Hello(c: Config): seq<byte> {
    [5, 1, MethodWanted(c.auth)]
  }

  function Credentials(auth: Auth): seq<byte>
    requires auth.UsernamePassword?
  {
    [1] + SizePrefixed(auth.username) + SizePrefixed(auth.password)
  }

  function ConnectRequest(c: Config): seq<byte>
    requires c.Valid()
  {
    [5, 1, 0] + HostBytes(c.host) + PortBytes(c.port)
  }

  // ------------------------------------------------------------ steps

  function FirstStep(c: Config): StepResult {
    if c.host.Hostname? && |c.host.name| >= 256 then StepResult([], Complete(SocksError(DOMAIN_TOO_LONG)))
    else if c.auth.UsernamePassword? && |c.auth.username| >= 256 then
      StepResult([], Complete(SocksError(USERNAME_TOO_LONG)))
    else if c.auth.UsernamePassword? && |c.auth.password| >= 256 then
      StepResult([], Complete(SocksError(PASSWORD_TOO_LONG)))
    else StepResult(Hello(c), Transact(HelloRecvd))
  }

  function Step(c: Config, s: RecvState, b: seq<byte>): StepResult
    requires c.Valid() && |b| == READ(s)
  {
    match s
    case HelloRecvd =>
      if b[0] != 5 then StepResult(b, Complete(SocksError(WRONG_VERSION)))
      else if MethodWanted(c.auth) == b[1] == 0 then StepResult(ConnectRequest(c), Transact(ReplyRecvd))
      else if MethodWanted(c.auth) == b[1] == 2 then StepResult(Credentials(c.auth), Transact(AuthRecvd))
      else StepResult(b, Complete(SocksError(NO_ACCEPTABLE_METHODS)))
    case AuthRecvd =>
      if b[0] != 1 then StepResult(b, Complete(SocksError(WRONG_VERSION)))
      else if b[1] != 0 then StepResult(b, Complete(SocksError(AUTHENTICATION_FAILED)))
      else StepResult(ConnectRequest(c), Transact(ReplyRecvd))
    case ReplyRecvd =>
      if b[0] != 5 then StepResult(b, Complete(SocksError(WRONG_VERSION)))
      else if b[1] != 0 then StepResult(b, Complete(SocksError(b[1] as nat)))
      else if b[2] != 0 then StepResult(b, Complete(SocksError(GENERAL_FAILURE)))
      else if b[3] == 1 then StepResult(b, Receive(FinishIpv4))
      else if b[3] == 4 then StepResult(b, Receive(FinishIpv6))
      else StepResult(b, Complete(SocksError(UNSUPPORTED_ENDPOINT_ADDRESS)))
    case FinishIpv4 => StepResult(b, Complete(Connected(b[..4], b[4] as nat * 256 + b[5] as nat)))
    case FinishIpv6 => StepResult(b, Complete(Connected(b[..16], b[16] as nat * 256 + b[17] as nat)))
  }

  // ------------------------------------------------------------ runs

  /** What happens on the socket and to the caller. A failed write may have sent anything up to its bytes; `Partial` is
      what a failed read had taken before it failed. */
  datatype Event =
    | Write(bytes: seq<byte>)
    | Read(bytes: seq<byte>)
    | Partial(bytes: seq<byte>)
    | Completed(result: Result)

  /** The other side: the bytes it will send before it closes, which I/O operations fail anyway, and how far a read that
      does has come. */
  datatype Server = Server(input: seq<byte>, fails: nat -> bool, taken: nat -> nat)

  datatype Outcome = Outcome(events: seq<Event>, unread: seq<byte>)

  function Rank(a: Action): nat {
    match a
    case Complete(_) => 0
    case Receive(FinishIpv4) => 1
    case Receive(FinishIpv6) => 1
    case Receive(ReplyRecvd) => 2
    case Receive(AuthRecvd) => 4
    case Receive(HelloRecvd) => 6
    case Transact(next) => if next.ReplyRecvd? then 3 else if next.AuthRecvd? then 5 else 7
  }

  function Before(e: Event, o: Outcome): Outcome {
    Outcome([e] + o.events, o.unread)
  }

  predicate ReadFails(s: Server, n: nat, k: nat) {
    s.fails(n) || |s.input| < k
  }

  /** The bytes that a failing read of `k` takes: fewer than `k`, and at the end of the stream all that are left. */
  function Taken(s: Server, n: nat, k: nat): (j: nat)
    requires 0 < k && ReadFails(s, n, k)
    ensures j < k && j <= |s.input|
  {
    if !s.fails(n) then |s.input|
    else
      var most := if |s.input| < k then |s.input| else k - 1;
      if s.taken(n) < most then s.taken(n) else most
  }

  /** A read that fails: what it took is gone from the stream. */
  function CutShort(s: Server, n: nat, k: nat): Outcome
    requires 0 < k && ReadFails(s, n, k)
  {
    var j := Taken(s, n, k);
    Before(Partial(s.input[..j]), Outcome([Completed(IoError)], s.input[j..]))
  }

  /** Carry out an action and everything that follows; `n` counts the I/O operations so far. */
  function Go(c: Config, buffer: seq<byte>, a: Action, n: nat, s: Server): Outcome
    requires c.Valid() && (a.Transact? ==> !a.next.FinishIpv4? && !a.next.FinishIpv6?)
    decreases Rank(a)
  {
    match a
    case Complete(r) => Outcome([Completed(r)], s.input)
    case Transact(next) =>
      Before(Write(buffer),
        if s.fails(n) then Outcome([Completed(IoError)], s.input) else Go(c, buffer, Receive(next), n + 1, s))
    case Receive(next) =>
      var k := READ(next);
      if ReadFails(s, n, k) then CutShort(s, n, k)
      else
        var r := Step(c, next, s.input[..k]);
        Before(Read(s.input[..k]), Go(c, r.buffer, r.action, n + 1, s.(input := s.input[k..])))
  }

  function Run(c: Config, s: Server): Outcome
    requires c.Valid()
  {
    Go(c, FirstStep(c).buffer, FirstStep(c).action, 0, s)
  }

  /** The connection object: steps overwrite the buffer and say what to start next. */
  class SocksImplementation {
    const c: Config
    var buffer: seq<byte>

    constructor (c: Config)
      ensures this.c == c && buffer == []
    {
      this.c := c;
      buffer := [];
    }

    method PushSizePrefixed(s: seq<byte>)
      modifies this`buffer
      ensures buffer == old(buffer) + SizePrefixed(s)
    {
      buffer := buffer + [(|s| % 256) as byte];
      buffer := buffer + s;
    }

    method PushHost()
      modifies this`buffer
      ensures buffer == old(buffer) + HostBytes(c.host)
    {
      match c.host
      case Hostname(name) =>
        buffer := buffer + [3];
        PushSizePrefixed(name);
      case Address4(octets) =>
        buffer := buffer + [1];
        PushSizePrefixed(octets);
      case Address6(octets) =>
        buffer := buffer + [4];
        PushSizePrefixed(octets);
    }

    method SendConnect() returns (a: Action)
      requires c.Valid()
      modifies this`buffer
      ensures a == Transact(ReplyRecvd) && buffer == ConnectRequest(c)
    {
      buffer := [5, 1, 0];
      PushHost();
      buffer := buffer + PortBytes(c.port);
      a := Transact(ReplyRecvd);
    }

    method SendUsernamePassword() returns (a: Action)
      requires c.auth.UsernamePassword?
      modifies this`buffer
      ensures a == Transact(AuthRecvd) && buffer == Credentials(c.auth)
    {
      buffer := [1];
      PushSizePrefixed(c.auth.username);
      PushSizePrefixed(c.auth.password);
      a := Transact(AuthRecvd);
    }

    method Start() returns (a: Action)
      modifies this`buffer
      ensures a == FirstStep(c).action && (a.Transact? ==> buffer == FirstStep(c).buffer)
    {
      if c.host.Hostname? && |c.host.name| >= 256 {
        return Complete(SocksError(DOMAIN_TOO_LONG));
      }
      if c.auth.UsernamePassword? {
        if |c.auth.username| >= 256 {
          return Complete(SocksError(USERNAME_TOO_LONG));
        }
        if |c.auth.password| >= 256 {
          return Complete(SocksError(PASSWORD_TOO_LONG));
        }
      }
      buffer := [5, 1, MethodWanted(c.auth)];
      a := Transact(HelloRecvd);
    }

    /** The steps after a read has filled the buffer. */
    method Next(s: RecvState) returns (a: Action)
      requires c.Valid() && |buffer| == READ(s)
      modifies this`buffer
      ensures StepResult(buffer, a) == Step(c, s, old(buffer))
    {
      match s
      case HelloRecvd =>
        if buffer[0] != 5 {
          return Complete(SocksError(WRONG_VERSION));
        }
        var wanted, selected := MethodWanted(c.auth), buffer[1];
        if wanted == 0 && wanted == selected {
          a := SendConnect();
        } else if wanted == 2 && wanted == selected {
          a := SendUsernamePassword();
        } else {
          a := Complete(SocksError(NO_ACCEPTABLE_METHODS));
        }
      case AuthRecvd =>
        if buffer[0] != 1 {
          return Complete(SocksError(WRONG_VERSION));
        }
        if buffer[1] != 0 {
          return Complete(SocksError(AUTHENTICATION_FAILED));
        }
        a := SendConnect();
      case ReplyRecvd =>
        if buffer[0] != 5 {
          return Complete(SocksError(WRONG_VERSION));
        }
        var reply := buffer[1] as nat;
        if reply != 0 {
          return Complete(SocksError(reply));
        }
        if buffer[2] != 0 {
          return Complete(SocksError(GENERAL_FAILURE));
        }
        a := match buffer[3]
             case 1 => Receive(FinishIpv4)
             case 4 => Receive(FinishIpv6)
             case _ => Complete(SocksError(UNSUPPORTED_ENDPOINT_ADDRESS));
      case FinishIpv4 =>
        a := Complete(Connected(buffer[0..4], buffer[4] as nat * 256 + buffer[5] as nat));
      case FinishIpv6 =>
        a := Complete(Connected(buffer[0..16], buffer[16] as nat * 256 + buffer[17] as nat));
    }

    /** The machine driven to its end by the completions of its I/O operations. */
    method Drive(server: Server) returns (events: seq<Event>, unread: seq<byte>)
      requires c.Valid()
      modifies this`buffer
      ensures Outcome(events, unread) == Run(c, server)
    {
      hide Go, Step, FirstStep;
      events, unread := [], server.input;
      var n: nat := 0;
      FirstIsLegal(c);
      var a := Start();
      if a.Complete? {
        BufferUnused(c, FirstStep(c).buffer, buffer, a, 0, server);
      }
      assert server.(input := unread) == server;
      After([], Run(c, server));
      while !a.Complete?
        invariant Legal(a) && Run(c, server) == Following(events, Go(c, buffer, a, n, server.(input := unread)))
        decreases Rank(a)
      {
        ghost var now := server.(input := unread);
        if a.Transact? {
          GoTransact(c, buffer, a.next, n, now);
          var e := Write(buffer);
          if server.fails(n) {
            events := events + [e, Completed(IoError)];
            return;
          }
          FollowOne(events, e, Go(c, buffer, Receive(a.next), n + 1, now));
          events := events + [e];
          a := Receive(a.next);
        } else {
          var k := READ(a.next);
          GoReceive(c, buffer, a.next, n, now);
          if ReadFails(server.(input := unread), n, k) {
            var j := Taken(server.(input := unread), n, k);
            FollowOne(events, Partial(unread[..j]), Outcome([Completed(IoError)], unread[j..]));
            events := events + [Partial(unread[..j])] + [Completed(IoError)];
            unread := unread[j..];
            return;
          }
          var e := Read(unread[..k]);
          buffer := unread[..k];
          unread := unread[k..];
          ghost var s := a.next;
          a := Next(a.next);
          StepIsLegal(c, s, e.bytes);
          FollowOne(events, e, Go(c, buffer, a, n + 1, server.(input := unread)));
          events := events + [e];
        }
        n := n + 1;
      }
      GoComplete(c, buffer, a.result, n, server.(input := unread));
      events := events + [Completed(a.result)];
    }
  }

  predicate Legal(a: Action) {
    a.Transact? ==> !a.next.FinishIpv4? && !a.next.FinishIpv6?
  }

  function Following(events: seq<Event>, o: Outcome): Outcome {
    Outcome(events + o.events, o.unread)
  }

  lemma After(events: seq<Event>, o: Outcome)
    requires events == []
    ensures Following(events, o) == o
  {
    assert [] + o.events == o.events;
  }

  lemma FollowOne(events: seq<Event>, e: Event, o: Outcome)
    ensures Following(events, Before(e, o)) == Following(events + [e], o)
  {
    SnocCons(events, e, o.events);
  }

  lemma FirstIsLegal(c: Config)
    ensures Legal(FirstStep(c).action) && !FirstStep(c).action.Receive?
  {
  }

  lemma StepIsLegal(c: Config, s: RecvState, b: seq<byte>)
    requires c.Valid() && |b| == READ(s)
    ensures Legal(Step(c, s, b).action) && Rank(Step(c, s, b).action) < Rank(Receive(s))
  {
  }

  lemma BufferUnused(c: Config, b: seq<byte>, b': seq<byte>, a: Action, n: nat, s: Server)
    requires c.Valid() && a.Complete?
    ensures Go(c, b, a, n, s) == Go(c, b', a, n, s)
  {
  }

  lemma GoComplete(c: Config, b: seq<byte>, r: Result, n: nat, s: Server)
    requires c.Valid()
    ensures Go(c, b, Complete(r), n, s) == Outcome([Completed(r)], s.input)
  {
  }

  lemma GoTransact(c: Config, b: seq<byte>, next: RecvState, n: nat, s: Server)
    requires c.Valid() && Legal(Transact(next))
    ensures Go(c, b, Transact(next), n, s) == Before(Write(b),
      if s.fails(n) then Outcome([Completed(IoError)], s.input) else Go(c, b, Receive(next), n + 1, s))
  {
  }

  lemma GoReceive(c: Config, b: seq<byte>, next: RecvState, n: nat, s: Server)
    requires c.Valid()
    ensures var k := READ(next);
      Go(c, b, Receive(next), n, s) ==
        if ReadFails(s, n, k) then CutShort(s, n, k)
        else
          var r := Step(c, next, s.input[..k]);
          Before(Read(s.input[..k]), Go(c, r.buffer, r.action, n + 1, s.(input := s.input[k..])))
  {
  }

  // ------------------------------------------------------------ what every run does

  /** The wanted method was selected, and the credentials, when there are any, were accepted. */
  predicate Admitted(c: Config, past: seq<Event>) {
    match c.auth
    case NoCredential => past == [Write(Hello(c)), Read([5, 0])]
    case UsernamePassword(_, _) => past == [Write(Hello(c)), Read([5, 2]), Write(Credentials(c.auth)), Read([1, 0])]
  }

  /** The only things ever written, and what must have happened before each. */
  predicate Earned(c: Config, past: seq<Event>, bytes: seq<byte>)
    requires c.Valid()
  {
    || (past == [] && bytes == Hello(c))
    || (c.auth.UsernamePassword? && past == [Write(Hello(c)), Read([5, 2])] && bytes == Credentials(c.auth))
    || (Admitted(c, past) && bytes == ConnectRequest(c))
  }

  predicate WritesEarned(c: Config, events: seq<Event>)
    requires c.Valid()
  {
    forall i :: 0 <= i < |events| && events[i].Write? ==> Earned(c, events[..i], events[i].bytes)
  }

  /** The connected transcript: every message of the server in full, and nothing else. */
  predicate Transcript(c: Config, past: seq<Event>, r: Result)
    requires c.Valid()
  {
    && |past| >= 3
    && Admitted(c, past[..|past| - 3])
    && past[|past| - 3] == Write(ConnectRequest(c))
    && past[|past| - 2].Read? && past[|past| - 1].Read?
    && var (reply, fin) := (past[|past| - 2].bytes, past[|past| - 1].bytes);
    && |fin| >= 2
    && var n := |fin| - 2;
    && reply == [5, 0, 0, if n == 4 then 1 else 4] && (n == 4 || n == 16)
    && r == Connected(fin[..n], fin[n] as nat * 256 + fin[n + 1] as nat)
  }

  /** The request was sent and the server has agreed, with an address of the given type to follow. */
  predicate Replied(c: Config, past: seq<Event>, addressType: byte)
    requires c.Valid()
  {
    && |past| >= 2 && Admitted(c, past[..|past| - 2])
    && past[|past| - 2] == Write(ConnectRequest(c))
    && past[|past| - 1] == Read([5, 0, 0, addressType])
  }

  /** Where the machine is, by what has happened. */
  predicate At(c: Config, past: seq<Event>, buffer: seq<byte>, a: Action)
    requires c.Valid()
  {
    match a
    case Transact(HelloRecvd) => past == [] && buffer == Hello(c)
    case Receive(HelloRecvd) => past == [Write(Hello(c))]
    case Transact(AuthRecvd) =>
      c.auth.UsernamePassword? && past == [Write(Hello(c)), Read([5, 2])] && buffer == Credentials(c.auth)
    case Receive(AuthRecvd) =>
      c.auth.UsernamePassword? && past == [Write(Hello(c)), Read([5, 2]), Write(Credentials(c.auth))]
    case Transact(ReplyRecvd) => Admitted(c, past) && buffer == ConnectRequest(c)
    case Receive(ReplyRecvd) =>
      past != [] && Admitted(c, past[..|past| - 1]) && past[|past| - 1] == Write(ConnectRequest(c))
    case Receive(FinishIpv4) => Replied(c, past, 1)
    case Receive(FinishIpv6) => Replied(c, past, 4)
    case Transact(_) => false
    case Complete(r) => r != SocksError(0) && r != IoError && (r.Connected? ==> Transcript(c, past, r))
  }

  /** A whole run: completed once, at the end, with a real error or after the whole transcript; every write earned. */
  predicate Proper(c: Config, events: seq<Event>)
    requires c.Valid()
  {
    && events != []
    && events[|events| - 1].Completed?
    && (forall i :: 0 <= i < |events| - 1 ==> !events[i].Completed?)
    && events[|events| - 1].result != SocksError(0)
    && (events[|events| - 1].result.Connected? ==> Transcript(c, events[..|events| - 1], events[|events| - 1].result))
    && WritesEarned(c, events)
  }

  predicate Quiet(events: seq<Event>) {
    forall i :: 0 <= i < |events| ==> !events[i].Completed?
  }

  lemma EarnedSnoc(c: Config, past: seq<Event>, e: Event)
    requires c.Valid() && WritesEarned(c, past) && (e.Write? ==> Earned(c, past, e.bytes))
    ensures WritesEarned(c, past + [e])
  {
    hide Earned;
    var all := past + [e];
    forall i | 0 <= i < |all| && all[i].Write? ensures Earned(c, all[..i], all[i].bytes) {
      assert all[..i] == if i < |past| then past[..i] else past;
    }
  }

  lemma Finish(c: Config, past: seq<Event>, r: Result)
    requires c.Valid() && WritesEarned(c, past) && Quiet(past)
    requires r != SocksError(0) && (r.Connected? ==> Transcript(c, past, r))
    ensures Proper(c, past + [Completed(r)])
  {
    hide Transcript;
    EarnedSnoc(c, past, Completed(r));
    assert (past + [Completed(r)])[..|past|] == past;
  }

  lemma StepArrives(c: Config, past: seq<Event>, buffer: seq<byte>, s: RecvState, b: seq<byte>)
    requires c.Valid() && |b| == READ(s) && At(c, past, buffer, Receive(s))
    ensures At(c, past + [Read(b)], Step(c, s, b).buffer, Step(c, s, b).action)
  {
    hide ConnectRequest, Credentials, Hello;
    var now, n := past + [Read(b)], |past|;
    match s
    case HelloRecvd => assert b == [b[0], b[1]];
    case AuthRecvd => assert b == [b[0], b[1]];
    case ReplyRecvd =>
      assert b == [b[0], b[1], b[2], b[3]];
      assert now[..n - 1] == past[..n - 1];
    case _ =>
      assert now[..n + 1 - 3] == past[..n - 2];
  }

  lemma WriteArrives(c: Config, past: seq<Event>, buffer: seq<byte>, next: RecvState)
    requires c.Valid() && At(c, past, buffer, Transact(next))
    ensures Earned(c, past, buffer) && Legal(Transact(next))
    ensures At(c, past + [Write(buffer)], buffer, Receive(next))
  {
    assert (past + [Write(buffer)])[..|past|] == past;
  }

  lemma {:induction false} GoIsProper(c: Config, past: seq<Event>, buffer: seq<byte>, a: Action, n: nat, s: Server)
    requires c.Valid() && Legal(a) && At(c, past, buffer, a) && WritesEarned(c, past) && Quiet(past)
    ensures Proper(c, past + Go(c, buffer, a, n, s).events)
    decreases Rank(a)
  {
    hide At, Proper, WritesEarned, Earned, Transcript, Step;
    match a
    case Complete(r) =>
      AtEnd(c, past, buffer, r);
      Finish(c, past, r);
    case Transact(next) =>
      var e := Write(buffer);
      WriteArrives(c, past, buffer, next);
      EarnedSnoc(c, past, e);
      if s.fails(n) {
        Finish(c, past + [e], IoError);
        SnocCons(past, e, [Completed(IoError)]);
      } else {
        GoIsProper(c, past + [e], buffer, Receive(next), n + 1, s);
        SnocCons(past, e, Go(c, buffer, Receive(next), n + 1, s).events);
      }
    case Receive(next) =>
      var k := READ(next);
      if ReadFails(s, n, k) {
        var e := Partial(s.input[..Taken(s, n, k)]);
        EarnedSnoc(c, past, e);
        Finish(c, past + [e], IoError);
        SnocCons(past, e, [Completed(IoError)]);
      } else {
        var b := s.input[..k];
        var r, rest := Step(c, next, b), s.(input := s.input[k..]);
        StepIsLegal(c, next, b);
        StepArrives(c, past, buffer, next, b);
        EarnedSnoc(c, past, Read(b));
        GoIsProper(c, past + [Read(b)], r.buffer, r.action, n + 1, rest);
        SnocCons(past, Read(b), Go(c, r.buffer, r.action, n + 1, rest).events);
      }
  }

  lemma AtEnd(c: Config, past: seq<Event>, buffer: seq<byte>, r: Result)
    requires c.Valid() && At(c, past, buffer, Complete(r))
    ensures r != SocksError(0) && (r.Connected? ==> Transcript(c, past, r))
  {
  }

  /** Against any server and any I/O failures: the caller is told once; never a protocol failure with value zero;
      credentials and the request are only sent when earned; success only after the whole transcript. */
  lemma RunIsProper(c: Config, s: Server)
    requires c.Valid()
    ensures Proper(c, Run(c, s).events)
  {
    var f := FirstStep(c);
    GoIsProper(c, [], f.buffer, f.action, 0, s);
    assert [] + Go(c, f.buffer, f.action, 0, s).events == Go(c, f.buffer, f.action, 0, s).events;
  }

  function BytesRead(events: seq<Event>): seq<byte> {
    if events == [] then [] else Payload(events[0]) + BytesRead(events[1..])
  }

  function Payload(e: Event): seq<byte> {
    if e.Read? || e.Partial? then e.bytes else []
  }

  /** The bytes taken from the stream are those of the reads, failed ones included; the rest is left for whoever comes
      next. */
  lemma {:induction false} ReadsExactly(c: Config, buffer: seq<byte>, a: Action, n: nat, s: Server)
    requires c.Valid() && Legal(a)
    ensures var o := Go(c, buffer, a, n, s); s.input == BytesRead(o.events) + o.unread
    decreases Rank(a)
  {
    hide Step, Go, BytesRead, CutShort;
    match a
    case Complete(r) =>
      GoComplete(c, buffer, r, n, s);
      NothingRead(Completed(r), s.input);
    case Transact(next) =>
      GoTransact(c, buffer, next, n, s);
      NothingRead(Completed(IoError), s.input);
      if s.fails(n) {
        ReadOne(Write(buffer), Outcome([Completed(IoError)], s.input));
      } else {
        ReadsExactly(c, buffer, Receive(next), n + 1, s);
        ReadOne(Write(buffer), Go(c, buffer, Receive(next), n + 1, s));
      }
    case Receive(next) =>
      var k := READ(next);
      GoReceive(c, buffer, next, n, s);
      if ReadFails(s, n, k) {
        CutShortReads(s, n, k);
      } else {
        var b := s.input[..k];
        var r, rest := Step(c, next, b), s.(input := s.input[k..]);
        StepIsLegal(c, next, b);
        ReadsExactly(c, r.buffer, r.action, n + 1, rest);
        ReadOne(Read(b), Go(c, r.buffer, r.action, n + 1, rest));
        assert s.input == b + rest.input;
      }
  }

  lemma CutShortReads(s: Server, n: nat, k: nat)
    requires 0 < k && ReadFails(s, n, k)
    ensures s.input == BytesRead(CutShort(s, n, k).events) + CutShort(s, n, k).unread
  {
    hide BytesRead;
    var j := Taken(s, n, k);
    NothingRead(Completed(IoError), s.input[j..]);
    ReadOne(Partial(s.input[..j]), Outcome([Completed(IoError)], s.input[j..]));
    assert s.input == s.input[..j] + s.input[j..];
  }

  lemma NothingRead(e: Event, input: seq<byte>)
    requires !e.Read? && !e.Partial?
    ensures BytesRead([e]) + input == input
  {
    assert BytesRead([e]) == [];
  }

  lemma ReadOne(e: Event, o: Outcome)
    ensures BytesRead(Before(e, o).events) + o.unread ==
      Payload(e) + (BytesRead(o.events) + o.unread)
  {
    assert ([e] + o.events)[1..] == o.events;
  }

  lemma {:induction false} BytesReadSnoc(events: seq<Event>, e: Event)
    ensures BytesRead(events + [e]) == BytesRead(events) + Payload(e)
  {
    hide Payload;
    var all := events + [e];
    if events == [] {
      assert all == [e] && all[1..] == [];
      assert Payload(e) + [] == Payload(e);
    } else {
      assert all[0] == events[0] && all[1..] == events[1..] + [e];
      BytesReadSnoc(events[1..], e);
      assert Payload(events[0]) + (BytesRead(events[1..]) + Payload(e)) ==
        (Payload(events[0]) + BytesRead(events[1..])) + Payload(e);
    }
  }

  lemma BytesReadLast(events: seq<Event>)
    requires events != []
    ensures BytesRead(events) == BytesRead(events[..|events| - 1]) + Payload(events[|events| - 1])
  {
    var n := |events| - 1;
    assert events == events[..n] + [events[n]];
    BytesReadSnoc(events[..n], events[n]);
  }

  /** The server's messages up to its final address and port. */
  function Welcome(c: Config, fin: seq<byte>): seq<byte> {
    [5, MethodWanted(c.auth)] + (if c.auth.UsernamePassword? then [1, 0] else []) +
    [5, 0, 0, if |fin| == 6 then 1 else 4] + fin
  }

  lemma AdmittedReads(c: Config, past: seq<Event>)
    requires Admitted(c, past)
    ensures BytesRead(past) == [5, MethodWanted(c.auth)] + (if c.auth.UsernamePassword? then [1, 0] else [])
  {
    var start := [Write(Hello(c)), Read([5, MethodWanted(c.auth)])];
    assert start[1..] == [Read([5, MethodWanted(c.auth)])];
    assert BytesRead(start[1..]) == [5, MethodWanted(c.auth)] + [];
    assert BytesRead(start) == [] + BytesRead(start[1..]);
    if c.auth.UsernamePassword? {
      BytesReadSnoc(start, Write(Credentials(c.auth)));
      BytesReadSnoc(start + [Write(Credentials(c.auth))], Read([1, 0]));
      assert past == start + [Write(Credentials(c.auth))] + [Read([1, 0])];
    }
  }

  lemma TranscriptReads(c: Config, past: seq<Event>, r: Result)
    requires c.Valid() && Transcript(c, past, r)
    ensures var fin := past[|past| - 1].bytes;
      && (|fin| == 6 || |fin| == 18)
      && BytesRead(past) == Welcome(c, fin)
      && r == Connected(fin[..|fin| - 2], fin[|fin| - 2] as nat * 256 + fin[|fin| - 1] as nat)
  {
    hide ConnectRequest, BytesRead, Admitted;
    var n := |past|;
    BytesReadLast(past);
    BytesReadLast(past[..n - 1]);
    BytesReadLast(past[..n - 2]);
    assert past[..n - 1][..n - 2] == past[..n - 2] && past[..n - 2][..n - 3] == past[..n - 3];
    AdmittedReads(c, past[..n - 3]);
  }

  /** On success the client has taken exactly the server's messages from the stream, and no byte more. */
  lemma SuccessReadsExactly(c: Config, s: Server) returns (fin: seq<byte>)
    requires c.Valid() && Succeeded(Run(c, s).events)
    ensures |fin| == 6 || |fin| == 18
    ensures s.input == Welcome(c, fin) + Run(c, s).unread
    ensures var r := Run(c, s).events[|Run(c, s).events| - 1].result;
      r == Connected(fin[..|fin| - 2], fin[|fin| - 2] as nat * 256 + fin[|fin| - 1] as nat)
  {
    hide Go, FirstStep, ConnectRequest, Transcript, Welcome, BytesRead, WritesEarned;
    RunIsProper(c, s);
    FirstIsLegal(c);
    ReadsExactly(c, FirstStep(c).buffer, FirstStep(c).action, 0, s);
    var events := Run(c, s).events;
    var past := events[..|events| - 1];
    TranscriptHasEnd(c, past, events[|events| - 1].result);
    fin := past[|past| - 1].bytes;
    BytesReadLast(events);
    TranscriptReads(c, past, events[|events| - 1].result);
  }

  lemma TranscriptHasEnd(c: Config, past: seq<Event>, r: Result)
    requires c.Valid() && Transcript(c, past, r)
    ensures past != [] && past[|past| - 1].Read?
  {
  }

  // ------------------------------------------------------------ when the connection succeeds

  /** The sizes that the first step checks. */
  predicate SizesFit(c: Config) {
    && (c.host.Hostname? ==> |c.host.name| < 256)
    && (c.auth.UsernamePassword? ==> |c.auth.username| < 256 && |c.auth.password| < 256)
  }

  /** The fixed bytes the server still has to send before the type of its address. */
  function Head(c: Config, a: Action): seq<byte>
    decreases a.Transact?
  {
    match a
    case Complete(_) => []
    case Transact(next) => Head(c, Receive(next))
    case Receive(HelloRecvd) =>
      [5, MethodWanted(c.auth)] + (if c.auth.UsernamePassword? then [1, 0] else []) + [5, 0, 0]
    case Receive(AuthRecvd) => [1, 0] + [5, 0, 0]
    case Receive(ReplyRecvd) => [5, 0, 0]
    case Receive(_) => []
  }

  /** The server's bytes begin with what it takes to finish: those, an address type, and an address with its port. */
  predicate Welcomes(c: Config, a: Action, input: seq<byte>) {
    match a
    case Complete(r) => r.Connected?
    case Receive(FinishIpv4) => |input| >= 6
    case Receive(FinishIpv6) => |input| >= 18
    case _ =>
      var n := |Head(c, a)|;
      Head(c, a) <= input && |input| > n
        && ((input[n] == 1 && |input| >= n + 7) || (input[n] == 4 && |input| >= n + 19))
  }

  /** The number of I/O operations from here to the end of a successful run. */
  function Operations(c: Config, a: Action): nat {
    match a
    case Complete(_) => 0
    case Transact(HelloRecvd) => if c.auth.UsernamePassword? then 7 else 5
    case Transact(AuthRecvd) => 5
    case Transact(_) => 3
    case Receive(HelloRecvd) => if c.auth.UsernamePassword? then 6 else 4
    case Receive(AuthRecvd) => 4
    case Receive(ReplyRecvd) => 2
    case Receive(_) => 1
  }

  predicate Works(c: Config, a: Action, n: nat, s: Server) {
    Welcomes(c, a, s.input) && forall i :: n <= i < n + Operations(c, a) ==> !s.fails(i)
  }

  predicate Succeeded(events: seq<Event>) {
    events != [] && events[|events| - 1].Completed? && events[|events| - 1].result.Connected?
  }

  lemma PrefixSplit(h: seq<byte>, t: seq<byte>, input: seq<byte>)
    ensures h + t <= input <==> h <= input && t <= input[|h|..]
  {
    if h <= input && t <= input[|h|..] {
      assert input == h + input[|h|..];
      assert input[|h|..] == t + input[|h|..][|t|..];
    }
    if h + t <= input {
      assert h == input[..|h|];
      assert input[|h|..][..|t|] == (h + t)[|h|..];
    }
  }

  /** One reading step forward keeps what the server still has to send in step. */
  lemma WelcomeStep(c: Config, s: RecvState, input: seq<byte>)
    requires c.Valid() && (s.AuthRecvd? ==> c.auth.UsernamePassword?)
    ensures Welcomes(c, Receive(s), input) <==>
      (|input| >= READ(s) && Welcomes(c, Step(c, s, input[..READ(s)]).action, input[READ(s)..]))
    ensures |input| >= READ(s) && Welcomes(c, Step(c, s, input[..READ(s)]).action, input[READ(s)..]) ==>
      Operations(c, Receive(s)) == 1 + Operations(c, Step(c, s, input[..READ(s)]).action)
  {
    match s
    case HelloRecvd => HelloWelcome(c, input);
    case AuthRecvd => AuthWelcome(c, input);
    case ReplyRecvd => ReplyWelcome(c, input);
    case _ =>
  }

  lemma HelloWelcome(c: Config, input: seq<byte>)
    requires c.Valid()
    ensures var a := Receive(HelloRecvd);
      Welcomes(c, a, input) <==> (|input| >= 2 && Welcomes(c, Step(c, HelloRecvd, input[..2]).action, input[2..]))
  {
    var m := [5, MethodWanted(c.auth)];
    var rest := (if c.auth.UsernamePassword? then [1, 0] else []) + [5, 0, 0];
    assert Head(c, Receive(HelloRecvd)) == m + rest;
    assert rest == if c.auth.UsernamePassword? then Head(c, Transact(AuthRecvd)) else Head(c, Transact(ReplyRecvd));
    PrefixSplit(m, rest, input);
    if |input| >= 2 {
      assert m <= input <==> input[..2] == m;
      assert input[..2] == [input[0], input[1]];
    }
  }

  lemma AuthWelcome(c: Config, input: seq<byte>)
    requires c.Valid() && c.auth.UsernamePassword?
    ensures Welcomes(c, Receive(AuthRecvd), input) <==>
      (|input| >= 2 && Welcomes(c, Step(c, AuthRecvd, input[..2]).action, input[2..]))
  {
    var m, rest := [1, 0], [5, 0, 0];
    assert Head(c, Receive(AuthRecvd)) == m + rest;
    assert rest == Head(c, Transact(ReplyRecvd));
    PrefixSplit(m, rest, input);
    if |input| >= 2 {
      assert m <= input <==> input[..2] == m;
      assert input[..2] == [input[0], input[1]];
    }
  }

  lemma ReplyWelcome(c: Config, input: seq<byte>)
    requires c.Valid()
    ensures Welcomes(c, Receive(ReplyRecvd), input) <==>
      (|input| >= 4 && Welcomes(c, Step(c, ReplyRecvd, input[..4]).action, input[4..]))
  {
    if |input| >= 4 {
      assert input[..3] == [input[0], input[1], input[2]];
      assert [5, 0, 0] <= input <==> input[..3] == [5, 0, 0];
    }
  }

  predicate Consistent(c: Config, a: Action) {
    Legal(a) && (a == Transact(AuthRecvd) || a == Receive(AuthRecvd) ==> c.auth.UsernamePassword?)
  }

  lemma StepIsConsistent(c: Config, s: RecvState, b: seq<byte>)
    requires c.Valid() && |b| == READ(s)
    ensures Consistent(c, Step(c, s, b).action)
  {
  }

  lemma SucceededLater(e: Event, o: Outcome)
    requires !e.Completed?
    ensures Succeeded(Before(e, o).events) <==> Succeeded(o.events)
  {
    if o.events != [] {
      assert Before(e, o).events[|o.events|] == o.events[|o.events| - 1];
    }
  }

  lemma {:induction false} GoSucceedsIff(c: Config, buffer: seq<byte>, a: Action, n: nat, s: Server)
    requires c.Valid() && Consistent(c, a)
    ensures Succeeded(Go(c, buffer, a, n, s).events) <==> Works(c, a, n, s)
    decreases Rank(a)
  {
    hide Welcomes, Step, Succeeded;
    match a
    case Complete(r) =>
      EndSucceeds(c, r, s.input);
    case Transact(next) =>
      WelcomeTransact(c, next, s.input);
      EndSucceeds(c, IoError, s.input);
      if s.fails(n) {
        SucceededLater(Write(buffer), Outcome([Completed(IoError)], s.input));
      } else {
        SucceededLater(Write(buffer), Go(c, buffer, Receive(next), n + 1, s));
        GoSucceedsIff(c, buffer, Receive(next), n + 1, s);
      }
    case Receive(next) =>
      var k := READ(next);
      EndSucceeds(c, IoError, s.input);
      WelcomeStep(c, next, s.input);
      if ReadFails(s, n, k) {
        SucceededLater(Partial(s.input[..Taken(s, n, k)]), Outcome([Completed(IoError)], s.input[Taken(s, n, k)..]));
      } else {
        var b := s.input[..k];
        var r, rest := Step(c, next, b), s.(input := s.input[k..]);
        StepIsLegal(c, next, b);
        StepIsConsistent(c, next, b);
        GoSucceedsIff(c, r.buffer, r.action, n + 1, rest);
        SucceededLater(Read(b), Go(c, r.buffer, r.action, n + 1, rest));
      }
  }

  lemma EndSucceeds(c: Config, r: Result, input: seq<byte>)
    ensures Succeeded([Completed(r)]) <==> r.Connected?
    ensures Welcomes(c, Complete(r), input) <==> r.Connected?
  {
  }

  lemma WelcomeTransact(c: Config, next: RecvState, input: seq<byte>)
    requires Legal(Transact(next))
    ensures Welcomes(c, Transact(next), input) <==> Welcomes(c, Receive(next), input)
    ensures Operations(c, Transact(next)) == 1 + Operations(c, Receive(next))
  {
  }

  /** The connection succeeds if and only if the names fit, no I/O operation fails, and the server's bytes begin with
      the wanted method, an accepted authentication when there is one, and a success reply with an address. */
  lemma RunSucceedsIff(c: Config, s: Server)
    requires c.Valid()
    ensures Succeeded(Run(c, s).events) <==> SizesFit(c) && Works(c, Transact(HelloRecvd), 0, s)
  {
    GoSucceedsIff(c, FirstStep(c).buffer, FirstStep(c).action, 0, s);
  }

  // ------------------------------------------------------------ a reader on the other side

  datatype Request = Request(command: byte, host: Host, port: nat)

  /** One length octet and that many bytes, at the front of `s`. */
  function ReadSized(s: seq<byte>): Option<(seq<byte>, seq<byte>)> {
    if s == [] || |s| - 1 < s[0] as nat then None
    else Some((s[1..1 + s[0] as nat], s[1 + s[0] as nat..]))
  }

  /** Section 2 of RFC 1929, whose username and password have at least one octet. */
  function ReadCredentials(s: seq<byte>): Option<(seq<byte>, seq<byte>)> {
    if s == [] || s[0] != 1 then None
    else
      var u := ReadSized(s[1..]);
      if u.None? then None
      else
        var p := ReadSized(u.value.1);
        if p.None? || p.value.1 != [] || u.value.0 == [] || p.value.0 == [] then None
        else Some((u.value.0, p.value.0))
  }

  /** Section 4 of RFC 1928, with the address forms of its section 5. */
  function ReadRequest(s: seq<byte>): Option<Request> {
    if |s| < 4 || s[0] != 5 || s[2] != 0 then None
    else
      var rest := s[4..];
      var address :=
        if s[3] == 1 then (if |rest| < 4 then None else Some((Address4(rest[..4]), rest[4..])))
        else if s[3] == 4 then (if |rest| < 16 then None else Some((Address6(rest[..16]), rest[16..])))
        else if s[3] == 3 then
          var name := ReadSized(rest);
          (if name.None? then None else Some((Hostname(name.value.0), name.value.1)))
        else None;
      if address.None? || |address.value.1| != 2 then None
      else
        var port := address.value.1;
        Some(Request(s[1], address.value.0, port[0] as nat * 256 + port[1] as nat))
  }

  lemma ReadSizedBack(s: seq<byte>, rest: seq<byte>)
    requires |s| < 256
    ensures ReadSized(SizePrefixed(s) + rest) == Some((s, rest))
  {
    var t := SizePrefixed(s) + rest;
    assert t[1..1 + |s|] == s && t[1 + |s|..] == rest;
  }

  lemma ReadSizedShort(s: seq<byte>, rest: seq<byte>)
    requires |s| >= 256
    ensures var r := ReadSized(SizePrefixed(s) + rest); r.Some? && |r.value.0| < 256
  {
  }

  /** The server reads the credentials back if and only if both fit and neither is empty, which nothing checks. */
  lemma CredentialsReadBackIff(username: seq<byte>, password: seq<byte>)
    ensures ReadCredentials(Credentials(UsernamePassword(username, password))) == Some((username, password)) <==>
      0 < |username| < 256 && 0 < |password| < 256
  {
    hide ReadSized, SizePrefixed;
    var u, p := SizePrefixed(username), SizePrefixed(password);
    var s := Credentials(UsernamePassword(username, password));
    assert s[1..] == u + p && p == p + [];
    if |username| < 256 {
      ReadSizedBack(username, p);
      if |password| < 256 {
        ReadSizedBack(password, []);
      } else {
        ReadSizedShort(password, []);
      }
    } else {
      ReadSizedShort(username, p);
    }
  }

  /** The request is read back if and only if the target is a hostname that fits: before an address the client puts a
      length octet that the format does not have, so no server reads an address as it was meant. */
  lemma RequestReadBackIff(c: Config)
    requires c.Valid()
    ensures ReadRequest(ConnectRequest(c)) == Some(Request(1, c.host, c.port)) <==>
      c.host.Hostname? && |c.host.name| < 256
  {
    hide ReadSized, SizePrefixed;
    var s, port := ConnectRequest(c), PortBytes(c.port);
    match c.host
    case Hostname(name) =>
      assert s[4..] == SizePrefixed(name) + port;
      if |name| < 256 {
        ReadSizedBack(name, port);
      } else {
        ReadSizedShort(name, port);
      }
    case Address4(octets) =>
      AddressTooLong(octets, port);
      assert s[4..] == SizePrefixed(octets) + port;
    case Address6(octets) =>
      AddressTooLong(octets, port);
      assert s[4..] == SizePrefixed(octets) + port;
  }

  lemma AddressTooLong(octets: seq<byte>, port: seq<byte>)
    ensures |SizePrefixed(octets) + port| == 1 + |octets| + |port|
  {
  }

  /** Before an address stand its type and, against the format, its size. */
  lemma AddressRequestIs(c: Config)
    requires c.Valid() && !c.host.Hostname?
    ensures ConnectRequest(c) ==
      [5, 1, 0] + (if c.host.Address4? then [1, 4] else [4, 16]) + c.host.octets +
      [(c.port / 256) as byte, (c.port % 256) as byte]
  {
    var n: seq<byte> := if c.host.Address4? then [1, 4] else [4, 16];
    assert HostBytes(c.host) == n + c.host.octets;
    assert [5, 1, 0] + (n + c.host.octets) == [5, 1, 0] + n + c.host.octets;
  }

  /** Section 3 of RFC 1928: the version, a count, and that many methods with nothing behind them. */
  function ReadGreeting(s: seq<byte>): Option<seq<byte>> {
    if |s| < 2 || s[0] != 5 || |s| != 2 + s[1] as nat then None else Some(s[2..])
  }

  /** Every run whose names fit opens with a greeting that offers one method: none, or username and password. */
  lemma GreetingReadBack(c: Config, s: Server)
    requires c.Valid() && SizesFit(c)
    ensures var events := Run(c, s).events;
      && events != [] && events[0].Write?
      && ReadGreeting(events[0].bytes) == Some([if c.auth.NoCredential? then 0 else 2])
  {
    hide Go;
    GoTransact(c, Hello(c), HelloRecvd, 0, s);
    assert Hello(c)[2..] == [MethodWanted(c.auth)];
  }

  // ------------------------------------------------------------ how a run ends

  /** What a reply with its address comes to. */
  function ReplyVerdict(r: seq<byte>): Result {
    if |r| < 4 then IoError
    else if r[0] != 5 then SocksError(256)
    else if r[1] != 0 then SocksError(r[1] as nat)
    else if r[2] != 0 then SocksError(1)
    else if r[3] == 1 then (if |r| < 10 then IoError else Connected(r[4..8], r[8] as nat * 256 + r[9] as nat))
    else if r[3] == 4 then (if |r| < 22 then IoError else Connected(r[4..20], r[20] as nat * 256 + r[21] as nat))
    else SocksError(259)
  }

  function AuthVerdict(r: seq<byte>): Result {
    if |r| < 2 then IoError
    else if r[0] != 1 then SocksError(256)
    else if r[1] != 0 then SocksError(258)
    else ReplyVerdict(r[2..])
  }

  function HelloVerdict(c: Config, r: seq<byte>): Result {
    if |r| < 2 then IoError
    else if r[0] != 5 then SocksError(256)
    else if r[1] as nat != (if c.auth.NoCredential? then 0 else 2) then SocksError(257)
    else if c.auth.NoCredential? then ReplyVerdict(r[2..])
    else AuthVerdict(r[2..])
  }

  /** The result of a connection, read off its constants and the server's bytes alone. */
  function Verdict(c: Config, input: seq<byte>): Result {
    if c.host.Hostname? && |c.host.name| > 255 then SocksError(260)
    else if c.auth.UsernamePassword? && |c.auth.username| > 255 then SocksError(261)
    else if c.auth.UsernamePassword? && |c.auth.password| > 255 then SocksError(262)
    else HelloVerdict(c, input)
  }

  function FinishVerdict(r: seq<byte>, n: nat): Result {
    if |r| < n + 2 then IoError else Connected(r[..n], r[n] as nat * 256 + r[n + 1] as nat)
  }

  /** The verdict from some point of the run on. */
  function VerdictFrom(c: Config, a: Action, input: seq<byte>): Result
    decreases a.Transact?
  {
    match a
    case Complete(r) => r
    case Transact(next) => VerdictFrom(c, Receive(next), input)
    case Receive(HelloRecvd) => HelloVerdict(c, input)
    case Receive(AuthRecvd) => AuthVerdict(input)
    case Receive(ReplyRecvd) => ReplyVerdict(input)
    case Receive(FinishIpv4) => FinishVerdict(input, 4)
    case Receive(FinishIpv6) => FinishVerdict(input, 16)
  }

  lemma VerdictStep(c: Config, s: RecvState, input: seq<byte>)
    requires c.Valid()
    ensures var k := READ(s);
      VerdictFrom(c, Receive(s), input) ==
        if |input| < k then IoError else VerdictFrom(c, Step(c, s, input[..k]).action, input[k..])
  {
    hide HelloVerdict, AuthVerdict, ReplyVerdict, FinishVerdict, Step;
    match s
    case HelloRecvd => HelloVerdictStep(c, input);
    case AuthRecvd => AuthVerdictStep(c, input);
    case ReplyRecvd => ReplyVerdictStep(c, input);
    case FinishIpv4 => FinishVerdictStep(c, input, 4);
    case FinishIpv6 => FinishVerdictStep(c, input, 16);
  }

  lemma HelloVerdictStep(c: Config, input: seq<byte>)
    requires c.Valid()
    ensures HelloVerdict(c, input) ==
      if |input| < 2 then IoError else VerdictFrom(c, Step(c, HelloRecvd, input[..2]).action, input[2..])
  {
    hide ConnectRequest, Credentials, AuthVerdict, ReplyVerdict;
  }

  lemma AuthVerdictStep(c: Config, input: seq<byte>)
    requires c.Valid()
    ensures AuthVerdict(input) ==
      if |input| < 2 then IoError else VerdictFrom(c, Step(c, AuthRecvd, input[..2]).action, input[2..])
  {
    hide ConnectRequest, Credentials, ReplyVerdict;
  }

  lemma ReplyVerdictStep(c: Config, input: seq<byte>)
    requires c.Valid()
    ensures ReplyVerdict(input) ==
      if |input| < 4 then IoError else VerdictFrom(c, Step(c, ReplyRecvd, input[..4]).action, input[4..])
  {
    hide ConnectRequest, Credentials, FinishVerdict;
    if |input| >= 4 {
      FinishAfter(input, 4);
      FinishAfter(input, 16);
    }
  }

  lemma FinishVerdictStep(c: Config, input: seq<byte>, n: nat)
    requires c.Valid() && (n == 4 || n == 16)
    ensures var s := if n == 4 then FinishIpv4 else FinishIpv6;
      FinishVerdict(input, n) ==
        if |input| < n + 2 then IoError else VerdictFrom(c, Step(c, s, input[..n + 2]).action, input[n + 2..])
  {
    hide ConnectRequest, Credentials;
    if |input| >= n + 2 {
      var b := input[..n + 2];
      assert b[..n] == input[..n] && b[n] == input[n] && b[n + 1] == input[n + 1];
    }
  }

  lemma FinishAfter(input: seq<byte>, n: nat)
    requires |input| >= 4
    ensures FinishVerdict(input[4..], n) ==
      if |input| < n + 6 then IoError else Connected(input[4..4 + n], input[4 + n] as nat * 256 + input[5 + n] as nat)
  {
    if |input| >= n + 6 {
      assert input[4..][..n] == input[4..4 + n];
    }
  }

  ghost predicate SomeFail(s: Server) {
    exists i: nat :: s.fails(i)
  }

  function Last(o: Outcome): Result
    requires o.events != [] && o.events[|o.events| - 1].Completed?
  {
    o.events[|o.events| - 1].result
  }

  predicate Ended(o: Outcome) {
    o.events != [] && o.events[|o.events| - 1].Completed?
  }

  lemma EndedLater(e: Event, o: Outcome)
    requires Ended(o)
    ensures Ended(Before(e, o)) && Last(Before(e, o)) == Last(o)
  {
  }

  lemma {:induction false} GoVerdict(c: Config, buffer: seq<byte>, a: Action, n: nat, s: Server)
    requires c.Valid() && Legal(a)
    ensures var o := Go(c, buffer, a, n, s);
      Ended(o) && (Last(o) == VerdictFrom(c, a, s.input) || (Last(o) == IoError && SomeFail(s)))
    decreases Rank(a)
  {
    hide Go, Step, Before, CutShort, Ended, Last, HelloVerdict, AuthVerdict, ReplyVerdict, FinishVerdict;
    FailedEnds(s.input);
    match a
    case Complete(r) =>
      GoComplete(c, buffer, r, n, s);
      CompletedEnds(r, s.input);
    case Transact(next) =>
      GoTransact(c, buffer, next, n, s);
      if s.fails(n) {
        EndedLater(Write(buffer), Outcome([Completed(IoError)], s.input));
      } else {
        GoVerdict(c, buffer, Receive(next), n + 1, s);
        EndedLater(Write(buffer), Go(c, buffer, Receive(next), n + 1, s));
      }
    case Receive(next) =>
      var k := READ(next);
      GoReceive(c, buffer, next, n, s);
      VerdictStep(c, next, s.input);
      if ReadFails(s, n, k) {
        CutShortEnds(s, n, k);
      } else {
        var b := s.input[..k];
        var r, rest := Step(c, next, b), s.(input := s.input[k..]);
        StepIsLegal(c, next, b);
        GoVerdict(c, r.buffer, r.action, n + 1, rest);
        SameFailures(s, s.input[k..]);
        EndedLater(Read(b), Go(c, r.buffer, r.action, n + 1, rest));
      }
  }

  lemma SameFailures(s: Server, input: seq<byte>)
    ensures SomeFail(s.(input := input)) <==> SomeFail(s)
  {
    var t := s.(input := input);
    assert forall i: nat :: t.fails(i) == s.fails(i);
  }

  lemma CompletedEnds(r: Result, input: seq<byte>)
    ensures Ended(Outcome([Completed(r)], input)) && Last(Outcome([Completed(r)], input)) == r
  {
  }

  lemma FailedEnds(input: seq<byte>)
    ensures Ended(Outcome([Completed(IoError)], input)) && Last(Outcome([Completed(IoError)], input)) == IoError
  {
  }

  lemma CutShortEnds(s: Server, n: nat, k: nat)
    requires 0 < k && ReadFails(s, n, k)
    ensures Ended(CutShort(s, n, k)) && Last(CutShort(s, n, k)) == IoError
  {
    var j := Taken(s, n, k);
    EndedLater(Partial(s.input[..j]), Outcome([Completed(IoError)], s.input[j..]));
  }

  /** Every run ends with the verdict, or with an I/O error when some operation fails. */
  lemma RunEndsWith(c: Config, s: Server)
    requires c.Valid()
    ensures var o := Run(c, s);
      Ended(o) && (Last(o) == Verdict(c, s.input) || (Last(o) == IoError && SomeFail(s)))
  {
    hide Go;
    FirstIsLegal(c);
    GoVerdict(c, FirstStep(c).buffer, FirstStep(c).action, 0, s);
  }
}
