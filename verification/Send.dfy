/** The command formatter: which calls it accepts, and what the parser makes of the line it prints. */
module SendCommand {
  import opened Bytes
  import opened IrcMessage
  import opened Session

  const MAX_LINE := 512

  datatype Rejection = ProhibitedCharacter | MalformedInternalArgument | MessageTooLong

  datatype SendResult = Sent(raw: seq<byte>) | Rejected(reason: Rejection)

  predicate Prohibited(part: seq<byte>) {
    NUL in part || CR in part || LF in part
  }

  /** The pattern `^[^ :][^ ]*$`. */
  predicate PlainWord(part: seq<byte>) {
    part != [] && part[0] != SP && part[0] != COLON && SP !in part
  }

  function Render(part: seq<byte>): seq<byte> {
    if PlainWord(part) then part else [COLON] + part
  }

  /** The arguments as they follow the command, each behind a space. */
  function Body(args: seq<seq<byte>>): seq<byte> {
    if args == [] then [] else [SP] + Render(args[0]) + Body(args[1..])
  }

  function Line(cmd: seq<byte>, args: seq<seq<byte>>): seq<byte> {
    cmd + Body(args) + [CR, LF]
  }

  /** Only the last argument may need a colon. */
  predicate OnlyLastRendered(args: seq<seq<byte>>) {
    forall i :: 0 <= i < |args| - 1 ==> PlainWord(args[i])
  }

  predicate Sendable(cmd: seq<byte>, args: seq<seq<byte>>) {
    && (forall i :: 0 <= i < |args| ==> !Prohibited(args[i]))
    && OnlyLastRendered(args)
    && |Line(cmd, args)| <= MAX_LINE
  }

  lemma {:induction false} BodySnoc(args: seq<seq<byte>>, a: seq<byte>)
    ensures Body(args + [a]) == Body(args) + [SP] + Render(a)
  {
    if args == [] {
      assert args + [a] == [a];
    } else {
      assert (args + [a])[1..] == args[1..] + [a];
      BodySnoc(args[1..], a);
    }
  }

  lemma NoBody(args: seq<seq<byte>>)
    requires args == []
    ensures Body(args) == []
  {
  }

  lemma Joined(a: seq<byte>, b: seq<byte>, c: seq<byte>)
    ensures (a + b) + [SP] + c == a + (b + [SP] + c)
  {
  }

  /** The arguments before `i` are in order. */
  predicate FineBefore(args: seq<seq<byte>>, i: nat)
    requires i <= |args|
  {
    forall j :: 0 <= j < i ==> !Prohibited(args[j]) && (j < |args| - 1 ==> PlainWord(args[j]))
  }

  /** Argument `i` is the first that is not in order, and why it is not. */
  predicate FailsAt(args: seq<seq<byte>>, i: nat, reason: Rejection)
    requires i < |args|
  {
    && FineBefore(args, i)
    && (reason == if Prohibited(args[i]) then ProhibitedCharacter else MalformedInternalArgument)
    && (Prohibited(args[i]) || (i < |args| - 1 && !PlainWord(args[i])))
  }

  /** The call is accepted exactly when `Sendable`, and prints exactly `Line`; else the first thing wrong is named. */
  method Send(cmd: seq<byte>, args: seq<seq<byte>>) returns (r: SendResult)
    ensures r.Sent? <==> Sendable(cmd, args)
    ensures r.Sent? ==> r.raw == Line(cmd, args)
    ensures r == Rejected(MessageTooLong) <==> FineBefore(args, |args|) && |Line(cmd, args)| > MAX_LINE
    ensures r.Rejected? && r.reason != MessageTooLong ==> exists i :: 0 <= i < |args| && FailsAt(args, i, r.reason)
  {
    hide Body;
    var raw := cmd;
    assert Body(args[..0]) == [] && cmd + [] == cmd by {
      NoBody(args[..0]);
    }
    for i := 0 to |args|
      invariant raw == cmd + Body(args[..i])
      invariant forall j :: 0 <= j < i ==> !Prohibited(args[j])
      invariant forall j :: 0 <= j < i && j != |args| - 1 ==> PlainWord(args[j])
    {
      var part := args[i];
      BodySnoc(args[..i], part);
      assert args[..i + 1] == args[..i] + [part];
      if Prohibited(part) {
        assert FailsAt(args, i, ProhibitedCharacter);
        return Rejected(ProhibitedCharacter);
      }
      if !PlainWord(part) {
        if i != |args| - 1 {
          assert FailsAt(args, i, MalformedInternalArgument);
          return Rejected(MalformedInternalArgument);
        }
        part := [COLON] + part;
      }
      Joined(cmd, Body(args[..i]), part);
      raw := raw + [SP] + part;
    }
    assert args[..|args|] == args;
    raw := raw + [CR, LF];
    if |raw| > MAX_LINE {
      return Rejected(MessageTooLong);
    }
    r := Sent(raw);
  }

  // ------------------------------------------------------------ reading it back

  /** A command the parser takes for a command. */
  predicate GoodCommand(cmd: seq<byte>) {
    cmd != [] && SP !in cmd && !Prohibited(cmd) && cmd[0] != AT && cmd[0] != COLON
  }

  /** The arguments as the parser sees them behind the separator. */
  function ArgsText(args: seq<seq<byte>>): (r: seq<byte>)
    ensures r == [] <==> args == []
    ensures r != [] ==> r[0] != SP
  {
    if args == [] then [] else Render(args[0]) + Body(args[1..])
  }

  lemma BodyIs(args: seq<seq<byte>>)
    ensures Body(args) == if args == [] then [] else [SP] + ArgsText(args)
  {
    if args != [] {
      assert [SP] + Render(args[0]) + Body(args[1..]) == [SP] + (Render(args[0]) + Body(args[1..]));
    }
  }

  lemma WordThenBody(w: seq<byte>, args: seq<seq<byte>>)
    requires SP !in w
    ensures FirstWord(w + Body(args)) == w
    ensures AfterWord(w + Body(args)) == ArgsText(args)
  {
    hide Body, Find, ArgsText;
    BodyIs(args);
    var rest := Body(args);
    var s := w + rest;
    assert rest != [] ==> s[|w|] == rest[0];
    FindIs(s, SP, |w|);
    assert s[..|w|] == w;
    if args != [] {
      assert s[|w| + 1..] == ArgsText(args);
    }
  }

  /** The number of arguments the parser finds: all, or up to the first one that needs a colon. */
  function Readable(args: seq<seq<byte>>): nat {
    if args == [] then 0 else if PlainWord(args[0]) then 1 + Readable(args[1..]) else 1
  }

  lemma OnlyLastTail(args: seq<seq<byte>>)
    requires args != []
    ensures OnlyLastRendered(args) ==> OnlyLastRendered(args[1..]) && (|args| > 1 ==> PlainWord(args[0]))
  {
    forall i | OnlyLastRendered(args) && 0 <= i < |args[1..]| - 1 ensures PlainWord(args[1..][i]) {
      assert args[1..][i] == args[i + 1];
    }
  }

  lemma ParseWordArg(args: seq<seq<byte>>)
    requires args != [] && PlainWord(args[0])
    ensures ParseArgs(ArgsText(args)) == [args[0]] + ParseArgs(ArgsText(args[1..]))
  {
    hide Body, FirstWord, AfterWord;
    WordThenBody(args[0], args[1..]);
    assert ArgsText(args) == args[0] + Body(args[1..]);
    assert ArgsText(args)[0] == args[0][0];
  }

  lemma ParseColonArg(args: seq<seq<byte>>)
    requires args != [] && !PlainWord(args[0])
    ensures ParseArgs(ArgsText(args)) == [args[0] + Body(args[1..])]
  {
    hide Body, FirstWord, AfterWord;
    assert ArgsText(args)[1..] == args[0] + Body(args[1..]);
  }

  /** Printed arguments come back one by one, up to the first that needed a colon: it swallows the text of the rest. */
  lemma {:induction false} ParseArgsText(args: seq<seq<byte>>)
    ensures Readable(args) <= |args| && (args != [] ==> Readable(args) > 0)
    ensures args != [] ==>
      var n := Readable(args);
      ParseArgs(ArgsText(args)) == args[..n - 1] + [args[n - 1] + Body(args[n..])]
    ensures OnlyLastRendered(args) ==> ParseArgs(ArgsText(args)) == args
  {
    hide OnlyLastRendered, ArgsText, ParseArgs, PlainWord, Body;
    if args == [] {
      NoArgs();
    } else {
      OnlyLastTail(args);
      ParseArgsText(args[1..]);
      if !PlainWord(args[0]) {
        ParseColonArg(args);
      } else {
        ParseWordArg(args);
        if |args| > 1 {
          OneBefore(args, Readable(args));
        }
      }
      if |args| == 1 {
        NoArgs();
        NoBody(args[1..]);
        assert args[0] + [] == args[0];
      }
      assert [args[0]] + args[1..] == args;
    }
  }

  lemma OneBefore(args: seq<seq<byte>>, n: nat)
    requires 2 <= n <= |args|
    ensures args[1..][n - 1..] == args[n..]
    ensures forall x :: [args[0]] + (args[1..][..n - 2] + [x]) == args[..n - 1] + [x]
  {
    assert [args[0]] + args[1..][..n - 2] == args[..n - 1];
  }

  lemma NoArgs()
    ensures ParseArgs(ArgsText([])) == []
  {
  }

  lemma {:induction false} ReadableIsAll(args: seq<seq<byte>>)
    ensures Readable(args) == |args| <==> OnlyLastRendered(args)
  {
    if |args| > 1 {
      ReadableIsAll(args[1..]);
      assert forall i :: 0 <= i < |args| - 1 ==> args[1..][i] == args[i + 1];
      if OnlyLastRendered(args[1..]) && PlainWord(args[0]) {
        forall i | 0 <= i < |args| - 1 ensures PlainWord(args[i]) {
          assert i > 0 ==> args[i] == args[1..][i - 1];
        }
      }
      if OnlyLastRendered(args) {
        forall i | 0 <= i < |args[1..]| - 1 ensures PlainWord(args[1..][i]) {
          assert args[1..][i] == args[i + 1];
        }
      }
    }
  }

  /** The colon rule is exact: a printed call is read back if and only if only its last argument needed a colon. */
  lemma ReadBackIff(cmd: seq<byte>, args: seq<seq<byte>>)
    requires GoodCommand(cmd)
    ensures ParseMessage(cmd + Body(args)) == Ok(Message([], [], cmd, args)) <==> OnlyLastRendered(args)
  {
    hide Body;
    WordThenBody(cmd, args);
    assert (cmd + Body(args))[0] == cmd[0];
    assert Trim(cmd + Body(args)) == cmd + Body(args);
    ParseArgsText(args);
    ReadableIsAll(args);
  }

  lemma {:induction false} BodyClean(args: seq<seq<byte>>)
    requires forall i :: 0 <= i < |args| ==> !Prohibited(args[i])
    ensures !Prohibited(Body(args))
  {
    if args != [] {
      forall i | 0 <= i < |args[1..]| ensures !Prohibited(args[1..][i]) {
        assert args[1..][i] == args[i + 1];
      }
      BodyClean(args[1..]);
      assert !Prohibited(args[0]);
    }
  }

  lemma {:induction false} BodyHolds(args: seq<seq<byte>>, i: nat, c: byte)
    requires i < |args| && c in args[i]
    ensures c in Body(args)
  {
    if i == 0 {
      assert c in Render(args[0]);
    } else {
      BodyHolds(args[1..], i - 1, c);
    }
  }

  /** Between the command and its line end, an accepted line has no NUL, CR or LF, and nothing else of that kind is
      refused: a call whose printed text has none is accepted if it is in order otherwise. */
  lemma SendableIff(cmd: seq<byte>, args: seq<seq<byte>>)
    ensures Sendable(cmd, args) <==>
      0 !in Body(args) && 13 !in Body(args) && 10 !in Body(args) && OnlyLastRendered(args)
      && |cmd| + |Body(args)| + 2 <= 512
  {
    if forall i :: 0 <= i < |args| ==> !Prohibited(args[i]) {
      BodyClean(args);
    } else {
      var i :| 0 <= i < |args| && Prohibited(args[i]);
      var c :| c in args[i] && (c == 0 || c == 13 || c == 10);
      BodyHolds(args, i, c);
    }
  }

  /** A sent line is one line on the wire, and the session reads the call back from it. */
  lemma SentLineReadBack(cmd: seq<byte>, args: seq<seq<byte>>)
    requires GoodCommand(cmd) && Sendable(cmd, args)
    ensures var line := Line(cmd, args);
      && Find(line, LF) == |line| - 1
      && LineText(line[..|line| - 1]) == cmd + Body(args)
    ensures ParseMessage(cmd + Body(args)) == Ok(Message([], [], cmd, args))
  {
    var text, line := cmd + Body(args), Line(cmd, args);
    BodyClean(args);
    FindIs(line, LF, |line| - 1);
    assert line[..|line| - 1] == text + [CR];
    assert StripCR(text + [CR]) == text;
    FindIs(text, NUL, |text|);
    assert CString(text) == text;
    assert text[0] == cmd[0];
    ReadBackIff(cmd, args);
  }
}
