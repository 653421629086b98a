/** What the session makes of a byte stream, stated against a plain split into lines. */
module StreamLaws {
  import opened Bytes
  import opened IrcMessage
  import opened Session

  /** Everything up to the last newline, cut at the newlines; then what follows the last one. */
  datatype Split = Split(lines: seq<seq<byte>>, tail: seq<byte>)

  function SplitLines(s: seq<byte>): Split
    decreases |s|
  {
    var k := Find(s, LF);
    if k == |s| then Split([], s)
    else
      var rest := SplitLines(s[k + 1..]);
      Split([s[..k]] + rest.lines, rest.tail)
  }

  function Unsplit(lines: seq<seq<byte>>, tail: seq<byte>): seq<byte> {
    if lines == [] then tail else lines[0] + [LF] + Unsplit(lines[1..], tail)
  }

  /** The split loses nothing, and no piece contains a newline. */
  lemma {:induction false} SplitIsExact(s: seq<byte>)
    ensures Unsplit(SplitLines(s).lines, SplitLines(s).tail) == s
    ensures LF !in SplitLines(s).tail && forall i :: 0 <= i < |SplitLines(s).lines| ==> LF !in SplitLines(s).lines[i]
    decreases |s|
  {
    var k := Find(s, LF);
    if k < |s| {
      SplitIsExact(s[k + 1..]);
      assert s == s[..k] + [LF] + s[k + 1..];
    }
  }

  /** ... and it is the only such split. */
  lemma {:induction false} SplitIsUnique(lines: seq<seq<byte>>, tail: seq<byte>)
    requires LF !in tail && forall i :: 0 <= i < |lines| ==> LF !in lines[i]
    ensures SplitLines(Unsplit(lines, tail)) == Split(lines, tail)
  {
    if lines == [] {
      FindIs(tail, LF, |tail|);
    } else {
      var s := Unsplit(lines, tail);
      var k := |lines[0]|;
      FindIs(s, LF, k);
      assert s[..k] == lines[0] && s[k + 1..] == Unsplit(lines[1..], tail);
      SplitIsUnique(lines[1..], tail);
      assert [lines[0]] + lines[1..] == lines;
    }
  }

  /** Lines that the session can take: blank, or a message. */
  predicate Acceptable(raw: seq<byte>) {
    LineText(raw) == [] || ParseMessage(LineText(raw)).Ok?
  }

  /** The messages in a list of acceptable lines; blank lines give none. */
  function MessagesOf(lines: seq<seq<byte>>): seq<Message>
    requires forall i :: 0 <= i < |lines| ==> Acceptable(lines[i])
  {
    if lines == [] then []
    else if LineText(lines[0]) == [] then MessagesOf(lines[1..])
    else
      assert Acceptable(lines[0]);
      [ParseMessage(LineText(lines[0])).value] + MessagesOf(lines[1..])
  }

  /** Piece `i` of a split: a line, or the tail after the last line. */
  function Piece(split: Split, i: nat): seq<byte>
    requires i <= |split.lines|
  {
    if i < |split.lines| then split.lines[i] else split.tail
  }

  /** Piece `i` has no newline in its first `cap` bytes, and the session gets to it. */
  predicate Overflows(split: Split, cap: nat, i: nat)
    requires i <= |split.lines|
  {
    |Piece(split, i)| >= cap && forall j :: 0 <= j < i ==> Acceptable(split.lines[j])
  }

  ghost predicate OverflowsSomewhere(split: Split, cap: nat) {
    exists i :: 0 <= i <= |split.lines| && Overflows(split, cap, i)
  }

  lemma OverflowsLater(line: seq<byte>, rest: Split, cap: nat, i: nat)
    requires Acceptable(line) && i <= |rest.lines|
    ensures Overflows(Split([line] + rest.lines, rest.tail), cap, i + 1) <==> Overflows(rest, cap, i)
  {
    hide Acceptable;
    var whole := Split([line] + rest.lines, rest.tail);
    assert Piece(whole, i + 1) == Piece(rest, i);
    assert whole.lines[0] == line && forall j :: 0 <= j < i ==> whole.lines[j + 1] == rest.lines[j];
    if Overflows(whole, cap, i + 1) {
      forall j | 0 <= j < i ensures Acceptable(rest.lines[j]) {
        assert Acceptable(whole.lines[j + 1]);
      }
    }
    if Overflows(rest, cap, i) {
      forall j | 0 <= j < i + 1 ensures Acceptable(whole.lines[j]) {
        assert j > 0 ==> whole.lines[j] == rest.lines[j - 1];
      }
    }
  }

  lemma OverflowsCons(line: seq<byte>, rest: Split, cap: nat)
    ensures OverflowsSomewhere(Split([line] + rest.lines, rest.tail), cap) <==>
      |line| >= cap || (Acceptable(line) && OverflowsSomewhere(rest, cap))
  {
    hide Overflows, Acceptable, OverflowsSomewhere;
    var whole := Split([line] + rest.lines, rest.tail);
    OverflowsFirst(line, rest, cap);
    if OverflowsSomewhere(whole, cap) && |line| < cap {
      var i := SomeOverflow(whole, cap);
      LaterNeedsFirst(line, rest, cap, i);
      OverflowsLater(line, rest, cap, i - 1);
      IsOverflow(rest, cap, i - 1);
    }
    if Acceptable(line) && OverflowsSomewhere(rest, cap) {
      var i := SomeOverflow(rest, cap);
      OverflowsLater(line, rest, cap, i);
      IsOverflow(whole, cap, i + 1);
    }
    if |line| >= cap {
      IsOverflow(whole, cap, 0);
    }
  }

  lemma OverflowsFirst(line: seq<byte>, rest: Split, cap: nat)
    ensures Overflows(Split([line] + rest.lines, rest.tail), cap, 0) <==> |line| >= cap
  {
  }

  lemma LaterNeedsFirst(line: seq<byte>, rest: Split, cap: nat, i: nat)
    requires i <= |rest.lines| + 1 && Overflows(Split([line] + rest.lines, rest.tail), cap, i) && |line| < cap
    ensures i > 0 && Acceptable(line)
  {
    hide Acceptable;
    var whole := Split([line] + rest.lines, rest.tail);
    assert whole.lines[0] == line;
  }

  lemma SomeOverflow(split: Split, cap: nat) returns (i: nat)
    requires OverflowsSomewhere(split, cap)
    ensures i <= |split.lines| && Overflows(split, cap, i)
  {
    i :| 0 <= i <= |split.lines| && Overflows(split, cap, i);
  }

  lemma IsOverflow(split: Split, cap: nat, i: nat)
    requires i <= |split.lines| && Overflows(split, cap, i)
    ensures OverflowsSomewhere(split, cap)
  {
  }

  lemma TailOverflows(tail: seq<byte>, cap: nat)
    ensures OverflowsSomewhere(Split([], tail), cap) <==> |tail| >= cap
  {
    hide Acceptable;
    assert Overflows(Split([], tail), cap, 0) <==> |tail| >= cap;
  }

  /** "line buffer full" is raised exactly when some piece that the session gets to reaches the buffer size. */
  lemma {:induction false} BufferFullIff(s: seq<byte>, cap: nat)
    ensures Receive(s, cap).status.BufferFull? <==> OverflowsSomewhere(SplitLines(s), cap)
    decreases |s|
  {
    hide LineText, ParseMessage, Find, OverflowsSomewhere;
    var k := Find(s, LF);
    if k == |s| {
      TailOverflows(s, cap);
    } else {
      OverflowsCons(s[..k], SplitLines(s[k + 1..]), cap);
      if k < cap && Acceptable(s[..k]) {
        BufferFullIff(s[k + 1..], cap);
      }
    }
  }

  predicate Passed(split: Split, cap: nat, i: nat)
    requires i <= |split.lines|
  {
    forall j :: 0 <= j < i ==> |split.lines[j]| < cap && Acceptable(split.lines[j])
  }

  /** The piece that the session stops at: the first line that does not fit or cannot be parsed, or else the tail. */
  predicate StopsAt(split: Split, cap: nat, i: nat)
    requires i <= |split.lines|
  {
    Passed(split, cap, i) && (i < |split.lines| ==> |split.lines[i]| >= cap || !Acceptable(split.lines[i]))
  }

  lemma {:induction false} SomeStop(split: Split, cap: nat, from: nat) returns (i: nat)
    requires from <= |split.lines| && Passed(split, cap, from)
    ensures i <= |split.lines| && StopsAt(split, cap, i)
    decreases |split.lines| - from
  {
    hide Acceptable;
    i := from;
    if from < |split.lines| && |split.lines[from]| < cap && Acceptable(split.lines[from]) {
      i := SomeStop(split, cap, from + 1);
    }
  }

  /** The whole outcome of every stream: the messages of the lines before the stop, and why it stopped there. */
  lemma {:induction false} ReceiveIs(s: seq<byte>, cap: nat, i: nat)
    requires i <= |SplitLines(s).lines| && StopsAt(SplitLines(s), cap, i)
    ensures var split := SplitLines(s);
      Receive(s, cap) == Outcome(MessagesOf(split.lines[..i]),
        if |Piece(split, i)| >= cap then BufferFull
        else if i == |split.lines| then Waiting(split.tail)
        else Malformed(ParseMessage(LineText(split.lines[i])).error))
    decreases |s|
  {
    hide LineText, ParseMessage, Find;
    var k, split := Find(s, LF), SplitLines(s);
    if k < |s| && i > 0 {
      var rest := SplitLines(s[k + 1..]);
      assert split.lines[0] == s[..k] && split.lines[..i][1..] == rest.lines[..i - 1];
      StopsLater(s[..k], rest, cap, i - 1);
      assert Piece(split, i) == Piece(rest, i - 1);
      ReceiveIs(s[k + 1..], cap, i - 1);
    }
  }

  lemma StopsLater(line: seq<byte>, rest: Split, cap: nat, i: nat)
    requires i <= |rest.lines| && StopsAt(Split([line] + rest.lines, rest.tail), cap, i + 1)
    ensures StopsAt(rest, cap, i) && Acceptable(line) && |line| < cap
  {
    hide Acceptable;
    var whole := Split([line] + rest.lines, rest.tail);
    assert whole.lines[0] == line;
    forall j | 0 <= j < i ensures |rest.lines[j]| < cap && Acceptable(rest.lines[j]) {
      assert whole.lines[j + 1] == rest.lines[j];
    }
    assert i < |rest.lines| ==> whole.lines[i + 1] == rest.lines[i];
  }

  /** When every line fits and can be parsed, the session yields the messages of the lines and waits with the tail. */
  lemma ReceiveAll(s: seq<byte>, cap: nat)
    requires forall i :: 0 <= i <= |SplitLines(s).lines| ==> |Piece(SplitLines(s), i)| < cap
    requires forall i :: 0 <= i < |SplitLines(s).lines| ==> Acceptable(SplitLines(s).lines[i])
    ensures Receive(s, cap) == Outcome(MessagesOf(SplitLines(s).lines), Waiting(SplitLines(s).tail))
  {
    hide SplitLines, Receive, Acceptable, MessagesOf;
    var split := SplitLines(s);
    forall j | 0 <= j < |split.lines| ensures |split.lines[j]| < cap {
      assert Piece(split, j) == split.lines[j];
    }
    assert split.lines[..|split.lines|] == split.lines;
    assert |Piece(split, |split.lines|)| < cap;
    ReceiveIs(s, cap, |split.lines|);
  }

  /** What is parsed of a line: one carriage return at its end is dropped, and everything from a NUL on. */
  lemma LineTextIs(t: seq<byte>, junk: seq<byte>)
    requires NUL !in t
    ensures LineText(t + [13]) == Trim(t)
    ensures (t == [] || t[|t| - 1] != 13) ==> LineText(t) == Trim(t)
    ensures LineText(t + [0] + junk) == Trim(t)
  {
    hide Trim, Find, CString, StripCR;
    StripCRIs(t, junk);
    CStringIs(t, t);
    CStringIs(t, StripCR(t + [0] + junk));
  }

  lemma StripCRIs(t: seq<byte>, junk: seq<byte>)
    ensures StripCR(t + [13]) == t
    ensures (t == [] || t[|t| - 1] != 13) ==> StripCR(t) == t
    ensures var u := StripCR(t + [0] + junk); |u| > |t| && u[|t|] == 0 && u[..|t|] == t
  {
    assert (t + [13])[..|t|] == t;
    var v := t + [0] + junk;
    assert v[|t|] == 0 && v[..|t|] == t;
    if junk == [] {
      assert v[|v| - 1] == 0;
    }
  }

  lemma CStringIs(t: seq<byte>, u: seq<byte>)
    requires NUL !in t && |t| <= |u| && u[..|t|] == t && (|t| < |u| ==> u[|t|] == NUL)
    ensures CString(u) == t
  {
    hide Find;
    assert forall i :: 0 <= i < |t| ==> u[i] == t[i];
    FindIs(u, NUL, |t|);
  }

  /** More bytes only add to what was delivered: a stopped session stays so, a waiting one resumes with its tail. */
  lemma {:induction false} ReceiveResumes(s: seq<byte>, t: seq<byte>, cap: nat)
    ensures Receive(s + t, cap) ==
      match Receive(s, cap).status
      case Waiting(tail) => After(Receive(s, cap).messages, Receive(tail + t, cap))
      case _ => Receive(s, cap)
    decreases |s|
  {
    hide LineText, ParseMessage, Find;
    var k := Find(s, LF);
    FindPrefix(s, t, LF);
    if k < cap && k < |s| {
      assert (s + t)[..k] == s[..k];
      assert (s + t)[k + 1..] == s[k + 1..] + t;
      ReceiveResumes(s[k + 1..], t, cap);
      var rest, text := Receive(s[k + 1..], cap), LineText(s[..k]);
      if text != [] && rest.status.Waiting? {
        var more := Receive(rest.status.tail + t, cap);
        var m := ParseMessage(text);
        if m.Ok? {
          assert [m.value] + (rest.messages + more.messages) == ([m.value] + rest.messages) + more.messages;
        }
      }
    } else if k < cap {
      AfterNothing(Receive(s + t, cap));
    }
  }
}
