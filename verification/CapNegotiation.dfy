/** Capability negotiation: packing requests into lines, and waiting for the answers. */
module CapNegotiation {
  import opened Bytes
  import opened SendCommand

  type Name = seq<byte>

  const CAP: seq<byte> := [67, 65, 80]
  const REQ: seq<byte> := [82, 69, 81]
  const ROOM := 502   // 512 - #'CAP REQ \r\n'

  /** A capability name as the server lists them: one word. */
  predicate GoodName(x: Name) {
    PlainWord(x) && !Prohibited(x)
  }

  predicate GoodNames(request: seq<Name>) {
    forall i :: 0 <= i < |request| ==> GoodName(request[i])
  }

  /** `table.concat(names, ' ')` */
  function Joined(names: seq<Name>): seq<byte> {
    if names == [] then [] else if |names| == 1 then names[0] else names[0] + [SP] + Joined(names[1..])
  }

  /** One byte for the colon or space before each name. */
  function Weight(names: seq<Name>): nat {
    if names == [] then 0 else 1 + |names[0]| + Weight(names[1..])
  }

  function ReqLine(names: seq<Name>): seq<byte> {
    Line(CAP, [REQ, Joined(names)])
  }

  lemma {:induction false} WeightSnoc(names: seq<Name>, x: Name)
    ensures Weight(names + [x]) == Weight(names) + 1 + |x|
  {
    if names == [] {
      assert names + [x] == [x];
    } else {
      assert (names + [x])[1..] == names[1..] + [x];
      WeightSnoc(names[1..], x);
    }
  }

  /** No name holds a character that `send` prohibits. */
  predicate Clean(names: seq<Name>) {
    forall i :: 0 <= i < |names| ==> !Prohibited(names[i])
  }

  lemma {:induction false} JoinedIs(names: seq<Name>)
    requires names != []
    ensures |Joined(names)| == Weight(names) - 1
    ensures Prohibited(Joined(names)) <==> !Clean(names)
    ensures if |names| > 1 then SP in Joined(names) else Joined(names) == names[0]
  {
    if |names| > 1 {
      JoinedIs(names[1..]);
      CleanCons(names);
      ProhibitedJoin(names[0], Joined(names[1..]));
    } else {
      assert Weight(names) == 1 + |names[0]| + Weight(names[1..]);
    }
  }

  lemma CleanCons(names: seq<Name>)
    requires names != []
    ensures Clean(names) <==> !Prohibited(names[0]) && Clean(names[1..])
  {
    hide Prohibited;
    if !Prohibited(names[0]) && Clean(names[1..]) {
      forall i | 0 <= i < |names| ensures !Prohibited(names[i]) {
        assert i > 0 ==> names[i] == names[1..][i - 1];
      }
    }
    if Clean(names) {
      forall i | 0 <= i < |names[1..]| ensures !Prohibited(names[1..][i]) {
        assert names[1..][i] == names[i + 1];
      }
    }
  }

  lemma ProhibitedJoin(a: seq<byte>, b: seq<byte>)
    ensures Prohibited(a + [SP] + b) <==> Prohibited(a) || Prohibited(b)
  {
  }

  lemma ReqLineLength(names: seq<Name>)
    requires names != []
    ensures ReqLine(names) == Line(CAP, [REQ, Joined(names)])
    ensures |ReqLine(names)| == 9 + Weight(names) + if PlainWord(Joined(names)) then 0 else 1
    ensures PlainWord(Joined(names)) <==> |names| == 1 && PlainWord(names[0])
    ensures Sendable(CAP, [REQ, Joined(names)]) <==> Clean(names) && |ReqLine(names)| <= MAX_LINE
  {
    hide Joined, Weight, Clean;
    JoinedIs(names);
    var j := Joined(names);
    BodyTwo(j);
    var args := [REQ, j];
    assert args[0] == REQ && args[1] == j;
    assert !Prohibited(REQ) && PlainWord(REQ);
  }

  /** The line as it goes out. */
  lemma ReqLineIs(names: seq<Name>)
    requires names != []
    ensures ReqLine(names) ==
      Ascii("CAP REQ ") + (if PlainWord(Joined(names)) then [] else Ascii(":")) + Joined(names) + Ascii("\r\n")
  {
    hide Joined, PlainWord, Ascii, Body;
    var j := Joined(names);
    BodyTwo(j);
    TextIs();
    Grouped(if PlainWord(j) then [] else [COLON], j);
    assert [] + j == j;
  }

  lemma TextIs()
    ensures Ascii("CAP REQ ") == CAP + ([SP] + REQ) + [SP] && Ascii(":") == [COLON] && Ascii("\r\n") == [CR, LF]
  {
  }

  lemma Grouped(colon: seq<byte>, j: seq<byte>)
    ensures CAP + ([SP] + REQ + ([SP] + (colon + j))) + [CR, LF] == CAP + ([SP] + REQ) + [SP] + colon + j + [CR, LF]
  {
  }

  lemma BodyTwo(j: seq<byte>)
    ensures Body([REQ, j]) == [SP] + REQ + ([SP] + Render(j))
  {
    assert [REQ, j][1..] == [j] && [j][1..] == [];
    assert Body([j]) == [SP] + Render(j) + [];
  }

  /** What the loop makes of the request: groups in order, none empty, their lines within 512 bytes, and each group
      so full that the next name would not have fitted by the loop's own count. */
  ghost predicate Packed(request: seq<Name>, groups: seq<seq<Name>>) {
    && Concat(groups) == request
    && (forall k :: 0 <= k < |groups| ==> groups[k] != [] && |ReqLine(groups[k])| <= MAX_LINE)
    && forall k :: 0 <= k < |groups| - 1 ==> NoRoom(groups, k)
  }

  ghost predicate NoRoom(groups: seq<seq<Name>>, k: nat)
    requires k + 1 < |groups|
  {
    groups[k + 1] != [] && Weight(groups[k]) + 1 + |groups[k + 1][0]| > 502
  }

  /** Name `i` can be sent where it stands: one that fills a line alone must need no colon, and not come first. */
  predicate NameFits(request: seq<Name>, i: nat)
    requires i < |request|
  {
    var x := request[i];
    !Prohibited(x) && |x| <= 502 && (|x| == 502 ==> i > 0 && PlainWord(x))
  }

  predicate Fits(request: seq<Name>) {
    forall i :: 0 <= i < |request| ==> NameFits(request, i)
  }

  function Lines(groups: seq<seq<Name>>): seq<seq<byte>> {
    seq(|groups|, i requires 0 <= i < |groups| => ReqLine(groups[i]))
  }

  /** `None` when an assertion fails or `send` raises. */
  method SendReqs(request: seq<Name>) returns (raws: Option<seq<seq<byte>>>, ghost groups: seq<seq<Name>>)
    ensures raws.Some? <==> Fits(request)
    ensures raws.Some? ==> Packed(request, groups) && raws.value == Lines(groups)
  {
    hide Joined, Weight, Packed, PackedSoFar, Lines, ReqLine, Sendable, Clean, PlainWord, Prohibited;
    var cursor, size, out := 0, 0, [];
    groups := [];
    NoWeight(request[0..0]);
    NothingPacked(request);
    for i := 0 to |request|
      invariant 0 <= cursor <= i && (i > 0 ==> cursor < i)
      invariant size == Weight(request[cursor..i])
      invariant size <= ROOM || (cursor == i - 1 && cursor > 0)
      invariant forall k :: 0 <= k < cursor ==> NameFits(request, k)
      invariant PackedSoFar(request, groups, cursor) && out == Lines(groups)
    {
      var x := request[i];
      var n := 1 + |x|;
      assert request[cursor..i + 1] == request[cursor..i] + [x];
      WeightSnoc(request[cursor..i], x);
      size := size + n;
      if size > ROOM {
        if cursor >= i {
          NoWeight(request[cursor..i]);
          assert !NameFits(request, i);
          return None, groups;
        }
        ghost var group := request[cursor..i];
        ReqLineLength(group);
        GroupFits(request, cursor, i);
        var r := Send(CAP, [REQ, Joined(request[cursor..i])]);
        if r.Rejected? {
          return None, groups;
        }
        PackedSnoc(request, groups, cursor, i);
        LinesSnoc(groups, group);
        out := out + [r.raw];
        groups := groups + [group];
        size := n;
        cursor := i;
        assert request[i..i + 1] == [] + [x];
        NoWeight([]);
        WeightSnoc([], x);
      }
    }
    if cursor < |request| {
      ghost var group := request[cursor..];
      assert request[cursor..|request|] == group;
      ReqLineLength(group);
      GroupFits(request, cursor, |request|);
      var r := Send(CAP, [REQ, Joined(request[cursor..])]);
      if r.Rejected? {
        return None, groups;
      }
      LastGroup(request, groups, cursor);
      LinesSnoc(groups, group);
      out := out + [r.raw];
      groups := groups + [group];
    } else {
      NothingLeft(request, groups);
    }
    raws := Some(out);
  }

  lemma NothingPacked(request: seq<Name>)
    ensures PackedSoFar(request, [], 0) && Lines([]) == []
  {
  }

  lemma NothingLeft(request: seq<Name>, groups: seq<seq<Name>>)
    requires PackedSoFar(request, groups, |request|)
    ensures Packed(request, groups)
  {
    assert request[..|request|] == request;
  }

  lemma LinesSnoc(groups: seq<seq<Name>>, group: seq<Name>)
    ensures Lines(groups + [group]) == Lines(groups) + [ReqLine(group)]
  {
  }

  lemma NoWeight(names: seq<Name>)
    requires names == []
    ensures Weight(names) == 0
  {
  }

  lemma PartGood(request: seq<Name>, a: nat, b: nat)
    requires GoodNames(request) && a <= b <= |request|
    ensures GoodNames(request[a..b])
  {
  }

  /** The names packed so far, and the one waiting at the cursor did not fit behind them. */
  ghost predicate PackedSoFar(request: seq<Name>, groups: seq<seq<Name>>, cursor: nat)
    requires cursor <= |request|
  {
    && Packed(request[..cursor], groups)
    && (groups != [] ==> cursor < |request| && Weight(groups[|groups| - 1]) + 1 + |request[cursor]| > ROOM)
    && (groups == [] ==> cursor == 0)
  }

  lemma {:induction false} WeightEach(names: seq<Name>, k: nat)
    requires k < |names|
    ensures 1 + |names[k]| <= Weight(names)
    ensures |names| == 1 ==> Weight(names) == 1 + |names[k]|
  {
    if k > 0 {
      WeightEach(names[1..], k - 1);
    }
  }

  /** A group that the loop sends is accepted exactly when each of its names fits where it stands. */
  lemma GroupFits(request: seq<Name>, a: nat, b: nat)
    requires a < b <= |request|
    requires Weight(request[a..b]) <= ROOM || (b == a + 1 && a > 0)
    ensures Sendable(CAP, [REQ, Joined(request[a..b])]) <==> forall k :: a <= k < b ==> NameFits(request, k)
  {
    hide Weight, ReqLine, Joined, Sendable, Prohibited, PlainWord;
    var group := request[a..b];
    ReqLineLength(group);
    WeightEach(group, 0);
    assert group[0] == request[a];
    if Sendable(CAP, [REQ, Joined(group)]) {
      forall k | a <= k < b ensures NameFits(request, k) {
        assert request[k] == group[k - a];
        WeightEach(group, k - a);
      }
    }
    if forall k :: a <= k < b ==> NameFits(request, k) {
      assert NameFits(request, a);
      forall i | 0 <= i < |group| ensures !Prohibited(group[i]) {
        assert NameFits(request, a + i);
      }
    }
  }

  lemma PackedSnoc(request: seq<Name>, groups: seq<seq<Name>>, cursor: nat, i: nat)
    requires cursor < i < |request| && PackedSoFar(request, groups, cursor)
    requires |ReqLine(request[cursor..i])| <= MAX_LINE
    requires Weight(request[cursor..i]) + 1 + |request[i]| > ROOM
    ensures PackedSoFar(request, groups + [request[cursor..i]], i)
  {
    hide Weight, ReqLine;
    ConcatSnoc(groups, request[cursor..i]);
    assert request[..i] == request[..cursor] + request[cursor..i];
    assert request[cursor..i][0] == request[cursor];
    var more := groups + [request[cursor..i]];
    forall k | 0 <= k < |more| - 1 ensures NoRoom(more, k) {
      assert k < |groups| - 1 ==> NoRoom(groups, k);
    }
  }

  lemma LastGroup(request: seq<Name>, groups: seq<seq<Name>>, cursor: nat)
    requires cursor < |request| && PackedSoFar(request, groups, cursor)
    requires |ReqLine(request[cursor..])| <= MAX_LINE
    ensures Packed(request, groups + [request[cursor..]])
  {
    hide Weight, ReqLine;
    ConcatSnoc(groups, request[cursor..]);
    assert request == request[..cursor] + request[cursor..];
    assert request[cursor..][0] == request[cursor];
    var more := groups + [request[cursor..]];
    forall k | 0 <= k < |more| - 1 ensures NoRoom(more, k) {
      assert k < |groups| - 1 ==> NoRoom(groups, k);
    }
  }

  // ------------------------------------------------------------ waiting for the answers

  const ACK: seq<byte> := [65, 67, 75]
  const NAK: seq<byte> := [78, 65, 75]
  const DASH: byte := 45

  /** A `CAP` message as the loop reads it: an answer without its list of names raises. */
  datatype Answer = Ack(caps: seq<byte>) | Nak(caps: seq<byte>) | Other | Broken

  function Read(args: seq<seq<byte>>): Answer {
    if |args| < 2 || (args[1] != ACK && args[1] != NAK) then Other
    else if |args| < 3 then Broken
    else if args[1] == ACK then Ack(args[2]) else Nak(args[2])
  }

  /** The maximal runs without a space. */
  function Words(s: seq<byte>): seq<Name>
    decreases |s|
  {
    var t := Trim(s);
    if t == [] then [] else
      var k := Find(t, SP);
      [t[..k]] + Words(t[k..])
  }

  /** `(%-?)([^ ]+)`: a dash is taken off unless nothing would be left. */
  predicate Minus(word: Name) {
    |word| > 1 && word[0] == DASH
  }

  function CapOf(word: Name): Name {
    if Minus(word) then word[1..] else word
  }

  function Mentioned(args: seq<seq<byte>>): seq<Name> {
    match Read(args)
    case Ack(caps) => Words(caps)
    case Nak(caps) => Words(caps)
    case _ => []
  }

  ghost predicate NamedIn(msgs: seq<seq<seq<byte>>>, x: Name) {
    exists k :: 0 <= k < |msgs| && x in Mentioned(msgs[k])
  }

  ghost predicate Answered(request: seq<Name>, msgs: seq<seq<seq<byte>>>) {
    forall i :: 0 <= i < |request| ==> NamedIn(msgs, request[i])
  }

  function AckWords(msgs: seq<seq<seq<byte>>>): seq<Name> {
    if msgs == [] then [] else
      AckWords(msgs[..|msgs| - 1]) + match Read(msgs[|msgs| - 1]) case Ack(caps) => Words(caps) case _ => []
  }

  /** The capabilities in force once the acknowledged words have been taken in order. */
  function EnabledAfter(enabled: set<Name>, words: seq<Name>): set<Name> {
    if words == [] then enabled else
      var before, word := EnabledAfter(enabled, words[..|words| - 1]), words[|words| - 1];
      if Minus(word) then before - {CapOf(word)} else before + {CapOf(word)}
  }

  ghost predicate LastSays(words: seq<Name>, x: Name, k: nat) {
    && k < |words| && CapOf(words[k]) == x && !Minus(words[k])
    && forall j :: k < j < |words| ==> CapOf(words[j]) != x
  }

  ghost predicate Unmentioned(words: seq<Name>, x: Name) {
    forall j :: 0 <= j < |words| ==> CapOf(words[j]) != x
  }

  /** A capability is in force exactly when its last acknowledgement had no dash, or it was and none came. */
  lemma {:induction false} EnabledIff(enabled: set<Name>, words: seq<Name>, x: Name)
    ensures (x in EnabledAfter(enabled, words) <==>
            (exists k :: LastSays(words, x, k)) || (x in enabled && Unmentioned(words, x)))
  {
    hide CapOf, Minus;
    if words != [] {
      var n := |words| - 1;
      var w := words[..n];
      EnabledIff(enabled, w, x);
      assert forall j :: 0 <= j < n ==> w[j] == words[j];
      if CapOf(words[n]) == x {
        if !Minus(words[n]) {
          assert LastSays(words, x, n);
        }
        assert !Unmentioned(words, x);
        forall k | LastSays(words, x, k) ensures k == n && !Minus(words[n]) {
        }
      } else {
        forall k: nat ensures LastSays(words, x, k) <==> LastSays(w, x, k) {
        }
        assert Unmentioned(words, x) <==> Unmentioned(w, x);
      }
    }
  }

  /** Acknowledging `x` puts it in force; acknowledging it with a dash before it takes it out of force. A dash alone is
      a name like any other. */
  lemma AckedWordIs(enabled: set<Name>, words: seq<Name>, x: Name)
    ensures x == ['-' as byte] || x == [] || x[0] as int != '-' as int ==>
      EnabledAfter(enabled, words + [x]) == EnabledAfter(enabled, words) + {x}
    ensures x != [] ==> EnabledAfter(enabled, words + [['-' as byte] + x]) == EnabledAfter(enabled, words) - {x}
  {
    var w := ['-' as byte] + x;
    assert (words + [x])[..|words|] == words && (words + [w])[..|words|] == words;
    assert w[1..] == x;
  }

  /** The second argument says what a `CAP` message is, and the third lists the names. */
  lemma AnswersAre(target: seq<byte>, list: seq<byte>, more: seq<seq<byte>>)
    ensures Read([target, ['A' as byte, 'C' as byte, 'K' as byte], list] + more) == Ack(list)
    ensures Read([target, ['N' as byte, 'A' as byte, 'K' as byte], list] + more) == Nak(list)
    ensures Read([target, ['A' as byte, 'C' as byte, 'K' as byte]]) == Broken
    ensures Read([target, ['N' as byte, 'A' as byte, 'K' as byte]]) == Broken
    ensures Read([target]) == Other == Read([])
  {
    assert forall v: seq<byte> :: ([target, v, list] + more)[1] == v && ([target, v, list] + more)[2] == list;
  }

  datatype WaitResult = Done(used: nat, enabled: set<Name>) | Waiting(enabled: set<Name>) | Raised(at: nat)

  lemma {:induction false} EnabledSplit(enabled: set<Name>, a: seq<Name>, b: seq<Name>)
    ensures EnabledAfter(enabled, a + b) == EnabledAfter(EnabledAfter(enabled, a), b)
  {
    hide CapOf, Minus;
    if b == [] {
      assert a + b == a;
    } else {
      var n := |b| - 1;
      assert (a + b)[..|a| + n] == a + b[..n];
      EnabledSplit(enabled, a, b[..n]);
    }
  }

  /** The words of one answer, taken off the outstanding set one by one. */
  method TakeWords(outstanding0: set<Name>, enabled0: set<Name>, words: seq<Name>, ack: bool)
    returns (outstanding: set<Name>, enabled: set<Name>)
    ensures forall x :: x in outstanding <==> x in outstanding0 && x !in words
    ensures enabled == if ack then EnabledAfter(enabled0, words) else enabled0
  {
    hide CapOf, Minus;
    outstanding, enabled := outstanding0, enabled0;
    for j := 0 to |words|
      invariant forall x :: x in outstanding <==> x in outstanding0 && x !in words[..j]
      invariant enabled == if ack then EnabledAfter(enabled0, words[..j]) else enabled0
    {
      assert words[..j + 1][..j] == words[..j] && words[..j + 1] == words[..j] + [words[j]];
      outstanding := outstanding - {words[j]};
      if ack {
        enabled := if Minus(words[j]) then enabled - {CapOf(words[j])} else enabled + {CapOf(words[j])};
      }
    }
    assert words[..|words|] == words;
  }

  /** The loop over the incoming `CAP` messages: it is done at the first point where every requested capability has
      been named in an ACK or a NAK, and not before. */
  method WaitForAck(request: seq<Name>, msgs: seq<seq<seq<byte>>>, enabled0: set<Name>) returns (r: WaitResult)
    ensures r.Done? ==> r.used <= |msgs| && Answered(request, msgs[..r.used])
    ensures r.Done? ==> forall k :: 0 <= k < r.used ==> !Answered(request, msgs[..k]) && !Read(msgs[k]).Broken?
    ensures r.Done? ==> r.enabled == EnabledAfter(enabled0, AckWords(msgs[..r.used]))
    ensures r.Waiting? ==> forall k :: 0 <= k <= |msgs| ==> !Answered(request, msgs[..k])
    ensures r.Waiting? ==> r.enabled == EnabledAfter(enabled0, AckWords(msgs))
    ensures r.Raised? ==> r.at < |msgs| && Read(msgs[r.at]).Broken?
    ensures r.Raised? ==> forall k :: 0 <= k <= r.at ==> !Answered(request, msgs[..k])
  {
    hide EnabledAfter, Words, Read, NamedIn;
    var outstanding, enabled, i := (set x | x in request), enabled0, 0;
    NothingYet(enabled0, msgs);
    while outstanding != {}
      invariant 0 <= i <= |msgs|
      invariant forall x :: x in outstanding <==> x in request && !NamedIn(msgs[..i], x)
      invariant forall k :: 0 <= k < i ==> !Answered(request, msgs[..k]) && !Read(msgs[k]).Broken?
      invariant enabled == EnabledAfter(enabled0, AckWords(msgs[..i]))
      decreases |msgs| - i
    {
      ghost var x :| x in outstanding;
      assert !Answered(request, msgs[..i]);
      if i == |msgs| {
        assert msgs[..i] == msgs;
        return Waiting(enabled);
      }
      NamedStep(msgs, i);
      match Read(msgs[i]) {
        case Ack(caps) =>
          assert Mentioned(msgs[i]) == Words(caps);
          EnabledSplit(enabled0, AckWords(msgs[..i]), Words(caps));
          outstanding, enabled := TakeWords(outstanding, enabled, Words(caps), true);
        case Nak(caps) =>
          assert Mentioned(msgs[i]) == Words(caps) && AckWords(msgs[..i]) + [] == AckWords(msgs[..i]);
          outstanding, enabled := TakeWords(outstanding, enabled, Words(caps), false);
        case Other =>
          assert Mentioned(msgs[i]) == [] && AckWords(msgs[..i]) + [] == AckWords(msgs[..i]);
        case Broken =>
          return Raised(i);
      }
      i := i + 1;
    }
    assert forall j :: 0 <= j < |request| ==> request[j] !in outstanding;
    r := Done(i, enabled);
  }

  lemma NothingYet(enabled: set<Name>, msgs: seq<seq<seq<byte>>>)
    ensures EnabledAfter(enabled, AckWords(msgs[..0])) == enabled
    ensures forall x :: !NamedIn(msgs[..0], x)
  {
  }

  lemma NamedStep(msgs: seq<seq<seq<byte>>>, i: nat)
    requires i < |msgs|
    ensures forall x :: NamedIn(msgs[..i + 1], x) <==> NamedIn(msgs[..i], x) || x in Mentioned(msgs[i])
    ensures AckWords(msgs[..i + 1]) ==
            AckWords(msgs[..i]) + match Read(msgs[i]) case Ack(caps) => Words(caps) case _ => []
  {
    hide Words, Read, Mentioned;
    var a, b := msgs[..i], msgs[..i + 1];
    assert b[..i] == a && b[i] == msgs[i];
    forall x ensures NamedIn(b, x) <==> NamedIn(a, x) || x in Mentioned(msgs[i]) {
      if NamedIn(a, x) {
        var k :| 0 <= k < |a| && x in Mentioned(a[k]);
        assert b[k] == a[k];
      }
      if NamedIn(b, x) {
        var k :| 0 <= k < |b| && x in Mentioned(b[k]);
        assert k < i ==> a[k] == b[k];
      }
    }
  }

  // ------------------------------------------------------------ a server that accepts every line

  lemma {:induction false} WordsJoined(names: seq<Name>)
    requires GoodNames(names)
    ensures Words(Joined(names)) == names
  {
    hide Prohibited, Words;
    NoWords();
    if names != [] {
      assert GoodName(names[0]);
      PartGood(names, 1, |names|);
      assert names[1..|names|] == names[1..];
      WordsJoined(names[1..]);
      FirstWordOff(names[0], if |names| == 1 then [] else [SP] + Joined(names[1..]));
      if |names| > 1 {
        JoinedIs(names[1..]);
        assert Joined(names) == names[0] + ([SP] + Joined(names[1..]));
        SpaceSkipped(Joined(names[1..]));
        assert names == [names[0]] + names[1..];
      } else {
        assert names[0] + [] == names[0];
        assert names == [names[0]];
      }
    }
  }

  lemma NoWords()
    ensures Words([]) == []
  {
  }

  lemma SpaceSkipped(s: seq<byte>)
    ensures Words([SP] + s) == Words(s)
  {
    hide Find;
    assert ([SP] + s)[1..] == s;
    assert Trim([SP] + s) == Trim(s);
  }

  lemma FirstWordOff(w: Name, rest: seq<byte>)
    requires w != [] && SP !in w && (rest != [] ==> rest[0] == SP)
    ensures Words(w + rest) == [w] + Words(rest)
  {
    hide Find;
    var s := w + rest;
    assert rest != [] ==> s[|w|] == rest[0];
    FindIs(s, SP, |w|);
    assert s[0] == w[0];
    assert s[..|w|] == w && s[|w|..] == rest;
  }

  /** The server's acknowledgement of each line sent, its list being the line's own. */
  ghost predicate Echoes(groups: seq<seq<Name>>, msgs: seq<seq<seq<byte>>>) {
    && |msgs| == |groups|
    && forall k :: 0 <= k < |msgs| ==> Read(msgs[k]) == Ack(Joined(groups[k]))
  }

  lemma {:induction false} EchoWords(groups: seq<seq<Name>>, msgs: seq<seq<seq<byte>>>)
    requires Echoes(groups, msgs) && forall k :: 0 <= k < |groups| ==> GoodNames(groups[k])
    ensures AckWords(msgs) == Concat(groups)
  {
    hide Words, Joined, Read, GoodNames;
    if msgs != [] {
      var n := |msgs| - 1;
      EchoWords(groups[..n], msgs[..n]);
      ConcatSnoc(groups[..n], groups[n]);
      assert groups == groups[..n] + [groups[n]];
      WordsJoined(groups[n]);
    } else {
      assert groups == [];
    }
  }

  lemma {:induction false} ConcatPlace<T>(groups: seq<seq<T>>, i: nat) returns (k: nat)
    requires i < |Concat(groups)|
    ensures k < |groups| && Concat(groups)[i] in groups[k]
  {
    if i < |groups[0]| {
      k := 0;
    } else {
      k := ConcatPlace(groups[1..], i - |groups[0]|);
      k := k + 1;
    }
  }

  lemma {:induction false} ConcatHas<T>(groups: seq<seq<T>>, k: nat, x: T)
    requires k < |groups| && x in groups[k]
    ensures x in Concat(groups)
  {
    if k > 0 {
      ConcatHas(groups[1..], k - 1, x);
    }
  }

  lemma GroupsGood(request: seq<Name>, groups: seq<seq<Name>>)
    requires GoodNames(request) && Concat(groups) == request
    ensures forall k :: 0 <= k < |groups| ==> GoodNames(groups[k])
  {
    forall k, i | 0 <= k < |groups| && 0 <= i < |groups[k]| ensures GoodName(groups[k][i]) {
      ConcatHas(groups, k, groups[k][i]);
    }
  }

  /** Once every line sent has been acknowledged, the wait is over. */
  lemma EchoesAnswer(request: seq<Name>, groups: seq<seq<Name>>, msgs: seq<seq<seq<byte>>>)
    requires GoodNames(request) && Packed(request, groups) && Echoes(groups, msgs)
    ensures Answered(request, msgs) && AckWords(msgs) == request
  {
    hide Words, Joined, GoodName;
    GroupsGood(request, groups);
    EchoWords(groups, msgs);
    forall i | 0 <= i < |request| ensures NamedIn(msgs, request[i]) {
      var k := ConcatPlace(groups, i);
      WordsJoined(groups[k]);
      assert request[i] in Mentioned(msgs[k]);
    }
  }
}
