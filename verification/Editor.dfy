/** The line editor. Buffers are tables with identity, so that what is shared and what is copied shows. */
module Editors {
  import opened Bytes
  import opened EditorHistory

  class Table {
    var codes: seq<Code>

    constructor (codes: seq<Code>)
      ensures this.codes == codes
    {
      this.codes := codes;
    }
  }

  datatype State = Editing | Killing | Tabbing

  datatype KillCommand = ToBeginning | ToEnd | PreviousWord | NextWord

  /** The buffer with `y` put in at the cursor. */
  function Filled(b: seq<Code>, cursor: nat, y: seq<Code>): seq<Code>
    requires 1 <= cursor <= |b| + 1
  {
    b[..cursor - 1] + y + b[cursor - 1..]
  }

  /** `tablex.sub` with one-based inclusive bounds. */
  function Sub(b: seq<Code>, lo: nat, hi: nat): seq<Code>
    requires 1 <= lo <= hi + 1 <= |b| + 1
  {
    b[lo - 1..hi]
  }

  /** `tablex.removevalues` with one-based inclusive bounds. */
  function Removed(b: seq<Code>, lo: nat, hi: nat): seq<Code>
    requires 1 <= lo <= hi + 1 <= |b| + 1
  {
    b[..lo - 1] + b[hi..]
  }

  lemma RemovedLength(b: seq<Code>, lo: nat, hi: nat)
    requires 1 <= lo <= hi + 1 <= |b| + 1
    ensures |Removed(b, lo, hi)| == |b| - (hi + 1 - lo)
  {
  }

  /** Cutting a span that ends, or begins, at the cursor and putting it next to `y` keeps the filled buffer. */
  lemma CutBefore(b: seq<Code>, i: nat, cursor: nat, y: seq<Code>)
    requires 1 <= i <= cursor <= |b| + 1
    ensures Filled(Removed(b, i, cursor - 1), i, Sub(b, i, cursor - 1) + y) == Filled(b, cursor, y)
  {
    var r := Removed(b, i, cursor - 1);
    assert r[..i - 1] == b[..i - 1] && r[i - 1..] == b[cursor - 1..];
    assert b[..cursor - 1] == b[..i - 1] + b[i - 1..cursor - 1];
  }

  lemma CutAfter(b: seq<Code>, cursor: nat, j: nat, y: seq<Code>)
    requires 1 <= cursor <= j + 1 <= |b| + 1
    ensures Filled(Removed(b, cursor, j), cursor, y + Sub(b, cursor, j)) == Filled(b, cursor, y)
  {
    var r := Removed(b, cursor, j);
    assert r[..cursor - 1] == b[..cursor - 1] && r[cursor - 1..] == b[j..];
    assert b[cursor - 1..] == b[cursor - 1..j] + b[j..];
  }

  /** From `i` to `m` a word, from there to the cursor none of it. */
  ghost predicate OneWord(b: seq<Code>, p: Code -> bool, i: nat, m: nat, cursor: nat)
    requires 1 <= i <= m <= cursor <= |b| + 1
  {
    && (forall k :: m <= k < cursor - 1 ==> !p(b[k]))
    && (forall k :: i <= k < m && k < cursor - 1 ==> p(b[k]))
  }

  /** A word ends before the one-based position `k`. */
  predicate WordEnds(b: seq<Code>, p: Code -> bool, k: nat)
    requires 2 <= k <= |b|
  {
    p(b[k - 2]) && !p(b[k - 1])
  }

  /** `i` is where the word that ends next after the cursor ends: the first such place, or the end of the buffer. */
  ghost predicate NextWordEnd(b: seq<Code>, p: Code -> bool, cursor: nat, i: nat)
    requires 1 <= cursor <= |b| + 1
  {
    && cursor <= i <= |b| + 1 && (cursor <= |b| ==> cursor < i)
    && (cursor < i <= |b| ==> WordEnds(b, p, i))
    && (forall k :: cursor < k < i ==> !WordEnds(b, p, k))
  }

  /** `i` is where the word that starts last before the cursor starts, or the beginning of the buffer. */
  ghost predicate PrevWordStart(b: seq<Code>, p: Code -> bool, cursor: nat, i: nat)
    requires 1 <= cursor <= |b| + 1
  {
    && 1 <= i <= cursor && (1 < cursor ==> i < cursor)
    && (1 < i ==> p(b[i - 1]) && !p(b[i - 2]))
    && exists m :: i <= m <= cursor && OneWord(b, p, i, m, cursor)
  }

  ghost predicate Distinct(tables: seq<Table>) {
    forall i, j :: 0 <= i < j < |tables| ==> tables[i] != tables[j]
  }

  ghost function CodesOf(tables: seq<Table>): (r: seq<seq<Code>>)
    reads tables
    ensures |r| == |tables| && forall i :: 0 <= i < |r| ==> r[i] == tables[i].codes
  {
    seq(|tables|, i requires 0 <= i < |tables| reads tables => tables[i].codes)
  }

  lemma CodesStored(tables: seq<Table>, k: nat, t: Table)
    requires k < |tables|
    ensures CodesOf(tables[k := t]) == CodesOf(tables)[k := t.codes]
    ensures CodesOf(Without(tables, k)) == Without(CodesOf(tables), k) && |Without(tables, k)| == |tables| - 1
  {
  }

  lemma KeepsDistinct(tables: seq<Table>, k: nat, t: Table)
    requires Distinct(tables) && k < |tables| && t !in tables
    ensures Distinct(tables[k := t]) && Distinct(Without(tables, k))
    ensures forall i :: 0 <= i < |tables| - 1 ==> Without(tables, k)[i] in tables
  {
    var w := Without(tables, k);
    assert forall i :: 0 <= i < |w| ==> w[i] == tables[if i < k then i else i + 1];
  }

  predicate NotSpace(c: Code) { c != 32 }

  class Editor {
    var buffer: Table
    var history: seq<Table>
    var cursor: nat
    var retrospect: Option<nat>
    var stash: Option<Table>
    var yank: Table
    var state: State
    var tablist: seq<seq<Code>>
    var tabix: nat
    const isalnum: Code -> bool

    ghost predicate Valid()
      reads this, buffer, yank
    {
      Valid'() && (state.Tabbing? ==> TabWord())
    }

    /** The part that does not speak of completion. */
    ghost predicate Valid'()
      reads this, buffer, yank
    {
      && 1 <= cursor <= |buffer.codes| + 1
      && (if retrospect.None? then stash.None? else 1 <= retrospect.value <= |history| && stash.Some?)
      && Separate()
    }

    /** No table plays two parts: the live buffer is no history entry, and is not the stashed one either. */
    ghost predicate Separate()
      reads this`buffer, this`history, this`yank, this`stash
    {
      && buffer !in history && buffer != yank && (stash.Some? ==> stash.value != buffer)
      && Apart()
    }

    ghost predicate Apart()
      reads this`history, this`yank, this`stash
    {
      && yank !in history && Distinct(history)
      && (stash.Some? ==> stash.value !in history && stash.value != yank)
    }

    /** While completing, the current completion stands right before the cursor. */
    ghost predicate TabWord()
      reads this, buffer
    {
      && 1 <= tabix <= |tablist|
      && |tablist[tabix - 1]| < cursor <= |buffer.codes| + 1
      && buffer.codes[cursor - 1 - |tablist[tabix - 1]|..cursor - 1] == tablist[tabix - 1]
    }

    /** The history by contents. */
    ghost function Entries(): seq<seq<Code>>
      reads this`history, history
    {
      CodesOf(history)
    }

    ghost function Contents(): History
      reads this, buffer, history, if stash.Some? then {stash.value} else {}
    {
      History(Entries(), retrospect, buffer.codes, if stash.Some? then Some(stash.value.codes) else None)
    }

    constructor (isalnum: Code -> bool)
      ensures Valid() && fresh(buffer) && fresh(yank)
      ensures Contents() == History([], None, [], None) && state == Editing && yank.codes == []
    {
      this.isalnum := isalnum;
      buffer := new Table([]);
      history, cursor, retrospect, stash := [], 1, None, None;
      yank := new Table([]);
      state, tablist, tabix := Editing, [], 0;
    }

    // ---------------------------------------------------------- words

    /** The end of the word that ends next after the cursor. */
    method SearchNextWord() returns (i: nat)
      requires Valid()
      ensures NextWordEnd(buffer.codes, isalnum, cursor, i)
    {
      var b := buffer.codes;
      var n := |b|;
      i := cursor;
      if i <= n {
        i := i + 1;
        while i <= n && (!isalnum(b[i - 2]) || isalnum(b[i - 1]))
          invariant cursor < i <= n + 1
          invariant forall k :: cursor < k < i ==> !WordEnds(b, isalnum, k)
        {
          i := i + 1;
        }
      }
    }

    /** The start of the word that starts last before the cursor: nothing of `p` between it and the cursor,
        apart from that word. */
    method SearchPrevWord(p: Code -> bool) returns (i: nat)
      requires Valid()
      ensures PrevWordStart(buffer.codes, p, cursor, i)
    {
      var b := buffer.codes;
      i := cursor;
      if 1 < i {
        i := i - 1;
      }
      while 1 < i && !p(b[i - 1])
        invariant 1 <= i <= cursor && (1 < cursor ==> i < cursor)
        invariant forall k :: i <= k < cursor - 1 ==> !p(b[k])
      {
        i := i - 1;
      }
      ghost var m := i;
      while 1 < i && p(b[i - 2])
        invariant 1 <= i <= m
        invariant 1 < m ==> p(b[i - 1])
        invariant forall k :: i <= k < m && k < cursor - 1 ==> p(b[k])
      {
        i := i - 1;
      }
      assert OneWord(b, p, i, m, cursor);
    }

    // ---------------------------------------------------------- kills

    method AddYankLeft(lo: nat, hi: nat)
      requires Valid() && 1 <= lo <= hi + 1 <= |buffer.codes| + 1
      modifies this`yank, this`state, yank
      ensures state == Killing && (yank == old(yank) || fresh(yank)) && Separate()
      ensures yank.codes == Sub(buffer.codes, lo, hi) + if old(state) == Killing then old(yank.codes) else []
    {
      var t := Sub(buffer.codes, lo, hi);
      if state == Killing {
        yank.codes := t + yank.codes;
      } else {
        yank := new Table(t);
        assert t + [] == t;
        state := Killing;
      }
    }

    /** What a kill command removes goes to the yank, so that the yank put back at the cursor is the buffer before. */
    ghost predicate Collected(old_: seq<Code>, oldCursor: nat, oldYank: seq<Code>)
      requires 1 <= oldCursor <= |old_| + 1
      reads this, buffer, yank
    {
      && state == Killing && 1 <= cursor <= |buffer.codes| + 1
      && Filled(buffer.codes, cursor, yank.codes) == Filled(old_, oldCursor, oldYank)
    }

    method KillToBeg()
      requires Valid()
      modifies this`buffer, this`yank, this`state, this`cursor, yank
      ensures Valid() && (yank == old(yank) || fresh(yank)) && fresh(buffer)
      ensures buffer.codes == old(buffer.codes)[old(cursor) - 1..] && cursor == 1
      ensures Collected(old(buffer.codes), old(cursor), if old(state) == Killing then old(yank.codes) else [])
    {
      ghost var y := if state == Killing then yank.codes else [];
      ghost var b := buffer.codes;
      AddYankLeft(1, cursor - 1);
      CutBefore(b, 1, cursor, y);
      buffer := new Table(Sub(buffer.codes, cursor, |buffer.codes|));
      assert buffer.codes == Removed(b, 1, cursor - 1);
      cursor := 1;
    }

    method KillToEnd()
      requires Valid()
      modifies this`yank, this`state, buffer, yank
      ensures Valid() && (yank == old(yank) || fresh(yank))
      ensures buffer.codes == old(buffer.codes)[..cursor - 1]
      ensures Collected(old(buffer.codes), cursor, if old(state) == Killing then old(yank.codes) else [])
    {
      ghost var y := if state == Killing then yank.codes else [];
      var b := buffer.codes;
      if state == Killing {
        yank.codes := yank.codes + b[cursor - 1..];
      } else {
        yank := new Table(Sub(b, cursor, |b|));
        state := Killing;
      }
      CutAfter(b, cursor, |b|, y);
      buffer.codes := Removed(b, cursor, |b|);
      assert yank.codes == y + Sub(b, cursor, |b|);
      assert buffer.codes == b[..cursor - 1];
    }

    method KillPrevWord()
      requires Valid()
      modifies this`yank, this`state, this`cursor, buffer, yank
      ensures Valid() && (yank == old(yank) || fresh(yank))
      ensures PrevWordStart(old(buffer.codes), isalnum, old(cursor), cursor)
      ensures buffer.codes == Removed(old(buffer.codes), cursor, old(cursor) - 1)
      ensures Collected(old(buffer.codes), old(cursor), if old(state) == Killing then old(yank.codes) else [])
    {
      hide PrevWordStart, Filled, Distinct, Sub, TabWord, Removed;
      ghost var y := if state == Killing then yank.codes else [];
      var b := buffer.codes;
      var i := SearchPrevWord(isalnum);
      PrevWordBounds(b, isalnum, cursor, i);
      var j := cursor - 1;
      AddYankLeft(i, j);
      CutBefore(b, i, cursor, y);
      RemovedLength(b, i, j);
      buffer.codes := Removed(b, i, j);
      cursor := i;
    }

    method KillNextWord()
      requires Valid()
      modifies this`yank, this`state, buffer, yank
      ensures Valid() && (yank == old(yank) || fresh(yank))
      ensures |buffer.codes| <= |old(buffer.codes)|
      ensures var next := cursor + (|old(buffer.codes)| - |buffer.codes|);
        && NextWordEnd(old(buffer.codes), isalnum, cursor, next)
        && buffer.codes == Removed(old(buffer.codes), cursor, next - 1)
      ensures Collected(old(buffer.codes), cursor, if old(state) == Killing then old(yank.codes) else [])
    {
      hide NextWordEnd, Filled, Distinct, TabWord;
      ghost var y := if state == Killing then yank.codes else [];
      var b := buffer.codes;
      var i := cursor;
      var next := SearchNextWord();
      NextWordBounds(b, isalnum, cursor, next);
      var j := next - 1;
      var region := Sub(b, i, j);
      buffer.codes := Removed(b, i, j);
      if state == Killing {
        yank.codes := yank.codes + region;
      } else {
        yank := new Table(region);
        state := Killing;
      }
      CutAfter(b, cursor, j, y);
      assert yank.codes == y + region;
    }

    method Paste()
      requires Valid()
      modifies this`cursor, this`state, buffer
      ensures Valid() && state == Editing && cursor == old(cursor) + |yank.codes|
      ensures buffer.codes == Filled(old(buffer.codes), old(cursor), yank.codes)
    {
      buffer.codes := Filled(buffer.codes, cursor, yank.codes);
      cursor := cursor + |yank.codes|;
      state := Editing;
    }

    method Kill(command: KillCommand)
      requires Valid()
      modifies this`buffer, this`yank, this`state, this`cursor, buffer, yank
      ensures Valid() && (yank == old(yank) || fresh(yank)) && (buffer == old(buffer) || fresh(buffer))
      ensures Collected(old(buffer.codes), old(cursor), if old(state) == Killing then old(yank.codes) else [])
    {
      match command
      case ToBeginning => KillToBeg();
      case ToEnd => KillToEnd();
      case PreviousWord => KillPrevWord();
      case NextWord => KillNextWord();
    }

    /** After any non-empty run of kills begun outside a kill, the buffer has lost one contiguous span, at the cursor,
        and the yank is that span. */
    method KillRun(commands: seq<KillCommand>)
      requires Valid() && state != Killing && commands != []
      modifies this`buffer, this`yank, this`state, this`cursor, buffer, yank
      ensures Valid() && state == Killing
      ensures (yank == old(yank) || fresh(yank)) && (buffer == old(buffer) || fresh(buffer))
      ensures old(buffer.codes) == buffer.codes[..cursor - 1] + yank.codes + buffer.codes[cursor - 1..]
    {
      ghost var b := buffer.codes;
      assert Filled(b, cursor, []) == b;
      Kill(commands[0]);
      var k := 1;
      while k < |commands|
        invariant 1 <= k <= |commands| && Valid() && state == Killing
        invariant (yank == old(yank) || fresh(yank)) && (buffer == old(buffer) || fresh(buffer))
        invariant Filled(buffer.codes, cursor, yank.codes) == b
      {
        Kill(commands[k]);
        k := k + 1;
      }
    }

    /** ... so one paste brings the whole buffer back. */
    method KillRunThenPaste(commands: seq<KillCommand>)
      requires Valid() && state != Killing && commands != []
      modifies this`buffer, this`yank, this`state, this`cursor, buffer, yank
      ensures Valid() && buffer.codes == old(buffer.codes)
    {
      KillRun(commands);
      Paste();
    }

    // ---------------------------------------------------------- history

    /** Pressing enter: the buffer's own table goes into the history, and a new one takes its place. Whether the line
        counts as a repetition of the last one is left open. */
    method Confirm(repetition: bool)
      requires Valid()
      modifies this`history, this`buffer, this`retrospect, this`stash, this`cursor, this`state
      ensures Valid() && fresh(buffer) && buffer.codes == [] && cursor == 1
      ensures retrospect == None && stash == None && state == Editing
      ensures history == if old(history) == [] || !repetition then old(history) + [old(buffer)] else old(history)
    {
      if |history| == 0 || !repetition {
        history := history + [buffer];
      }
      buffer := new Table([]);
      retrospect, stash := None, None;
      cursor, state := 1, Editing;
    }

    method MoveToEnd()
      modifies this`cursor, this`state
      ensures cursor == |buffer.codes| + 1 && state == Editing
    {
      cursor, state := |buffer.codes| + 1, Editing;
    }

    /** The line being looked at becomes the history entry itself, or the entry goes when the line is empty. */
    method StoreLine(r: nat)
      requires Valid() && 1 <= r <= |history|
      modifies this`history
      ensures Entries() ==
        if buffer.codes != [] then old(Entries())[r - 1 := buffer.codes] else Without(old(Entries()), r - 1)
      ensures forall t :: t in history ==> t == buffer || t in old(history)
      ensures Distinct(history) && |history| == |old(history)| - if buffer.codes != [] then 0 else 1
    {
      hide Distinct, TabWord, CodesOf, Without;
      KeepsDistinct(history, r - 1, buffer);
      CodesStored(history, r - 1, buffer);
      if buffer.codes != [] {
        history := history[r - 1 := buffer];
      } else {
        history := Without(history, r - 1);
      }
    }

    /** Look at a copy of entry `r`. */
    method Show(r: nat)
      requires Apart() && stash.Some? && 1 <= r <= |history|
      modifies this`buffer, this`retrospect, this`cursor, this`state
      ensures Valid() && fresh(buffer) && cursor == |buffer.codes| + 1 && state == Editing
      ensures Contents() == History(old(Entries()), Some(r), old(Entries())[r - 1], Some(old(stash.value.codes)))
    {
      hide TabWord, Distinct, CodesOf;
      buffer := new Table(history[r - 1].codes);
      retrospect := Some(r);
      MoveToEnd();
    }

    method OlderHistory()
      requires Valid()
      modifies this`history, this`buffer, this`retrospect, this`stash, this`cursor, this`state
      ensures Valid() && Contents() == Older(old(Contents()))
      ensures if old(Room(Contents())) > 0 then cursor == |buffer.codes| + 1 && state == Editing
        else cursor == old(cursor) && state == old(state) && buffer == old(buffer)
    {
      hide TabWord, Distinct, CodesOf, Without;
      if retrospect.Some? {
        var r := retrospect.value;
        if 1 < r {
          StoreLine(r);
          Show(r - 1);
        }
      } else if history != [] {
        stash := Some(buffer);
        Show(|history|);
      }
    }

    method NewerHistory()
      requires Valid()
      modifies this`history, this`buffer, this`retrospect, this`stash, this`cursor, this`state
      ensures Valid() && Contents() == Newer(old(Contents()))
      ensures if old(retrospect).Some? then cursor == |buffer.codes| + 1 && state == Editing
        else cursor == old(cursor) && state == old(state) && buffer == old(buffer)
    {
      hide TabWord, Distinct, CodesOf, Without;
      if retrospect.None? {
        return;
      }
      var r := retrospect.value;
      StoreLine(r);
      if buffer.codes != [] {
        r := r + 1;
      }
      if r > |history| {
        buffer := stash.value;
        stash := None;
        retrospect := None;
        MoveToEnd();
      } else {
        Show(r);
      }
    }

    /** `k` steps back through the history and `k` forward: the buffer, the place and the entries are as they were,
        an edited entry counting as edited. */
    method BackAndForth(k: nat)
      requires Valid() && NoEmpty(Contents()) && k <= Room(Contents())
      modifies this`history, this`buffer, this`retrospect, this`stash, this`cursor, this`state
      ensures Valid() && Contents() == if k == 0 then old(Contents()) else Commit(old(Contents()))
    {
      ghost var start := Contents();
      for i := 0 to k
        invariant Valid() && OlderTimes(Contents(), k - i) == OlderTimes(start, k)
      {
        OlderHistory();
      }
      for i := 0 to k
        invariant Valid() && Contents() == NewerTimes(OlderTimes(start, k), i)
      {
        NewerHistory();
      }
      ThereAndBack(start, k);
    }

    /** `k` steps forward and `k` back, likewise; the last step forward may be the one back to the input line. */
    method ForthAndBack(k: nat)
      requires Valid() && NoEmpty(Contents()) && k <= Ahead(Contents())
      modifies this`history, this`buffer, this`retrospect, this`stash, this`cursor, this`state
      ensures Valid() && Contents() == if k == 0 then old(Contents()) else Commit(old(Contents()))
    {
      ghost var start := Contents();
      for i := 0 to k
        invariant Valid() && Contents() == NewerTimes(start, i)
      {
        NewerHistory();
      }
      for i := 0 to k
        invariant Valid() && OlderTimes(Contents(), k - i) == OlderTimes(NewerTimes(start, k), k)
      {
        OlderHistory();
      }
      BackAndThere(start, k);
    }

    /** Typing changes the live buffer in place and, because it is no one else's table, nothing in the history. */
    method Add(code: Code)
      requires Valid()
      modifies this`cursor, this`state, buffer
      ensures Valid() && cursor == old(cursor) + 1
      ensures buffer.codes == Filled(old(buffer.codes), old(cursor), [code])
      ensures Entries() == old(Entries()) && (stash.Some? ==> stash.value.codes == old(stash.value.codes))
    {
      buffer.codes := Filled(buffer.codes, cursor, [code]);
      cursor, state := cursor + 1, Editing;
    }

    // ---------------------------------------------------------- completion

    /** The buffer around the word being completed. */
    ghost function Around(): (seq<Code>, seq<Code>)
      requires Valid() && state.Tabbing?
      reads this, buffer, yank
    {
      (buffer.codes[..cursor - 1 - |tablist[tabix - 1]|], buffer.codes[cursor - 1..])
    }

    /** `made` is what `mklist` answers for the text before the cursor; it is only asked for the first tab. */
    method Tab(dir: int, made: Option<(nat, seq<seq<Code>>)>) returns (ghost start: nat)
      requires Valid() && (made.Some? ==> 1 <= made.value.0 <= |made.value.1|)
      modifies this`tabix, this`tablist, this`cursor, this`state, buffer
      ensures Valid() && (old(state) == Tabbing || made.Some? ==> state == Tabbing)
      ensures old(state) == Tabbing ==> Around() == old(Around()) && tablist == old(tablist)
      ensures old(state) == Tabbing ==> tabix == (old(tabix) + dir - 1) % |tablist| + 1
      ensures old(state) != Tabbing ==> PrevWordStart(old(buffer.codes), NotSpace, old(cursor), start)
      ensures old(state) != Tabbing && 1 < start ==>
        old(buffer.codes)[start - 2] == ' ' as int && old(buffer.codes)[start - 1] != ' ' as int
      ensures old(state) != Tabbing && made.Some? ==> tabix == made.value.0 && tablist == made.value.1
      ensures old(state) != Tabbing && made.Some? ==>
        Around() == (old(buffer.codes)[..start - 1], old(buffer.codes)[old(cursor) - 1..])
      ensures old(state) != Tabbing && made.None? ==> state == old(state) && cursor == old(cursor)
      ensures old(state) != Tabbing && made.None? ==> buffer.codes == old(buffer.codes)
    {
      hide PrevWordStart, Separate, Distinct, Filled, Removed;
      var b := buffer.codes;
      var i: nat;
      start := 1;
      if state == Tabbing {
        i := cursor - |tablist[tabix - 1]|;
        assert Around() == (b[..i - 1], b[cursor - 1..]);
        tabix := (tabix + dir - 1) % |tablist| + 1;
      } else {
        i := SearchPrevWord(NotSpace);
        start := i;
        WordAfterSpace(b, cursor, i);
        if made.None? {
          return;
        }
        tabix, tablist := made.value.0, made.value.1;
        PrevWordBounds(b, NotSpace, cursor, i);
      }
      Complete(i);
    }

    /** The text from `i` to the cursor gives way to the chosen completion. */
    method Complete(i: nat)
      requires Valid'() && 1 <= i <= cursor && 1 <= tabix <= |tablist|
      modifies this`cursor, this`state, buffer
      ensures Valid() && state == Tabbing
      ensures Around() == (old(buffer.codes)[..i - 1], old(buffer.codes)[old(cursor) - 1..])
    {
      var b, was := buffer.codes, cursor;
      var word := tablist[tabix - 1];
      Replaced(b, i, cursor, word);
      buffer.codes := Filled(Removed(b, i, cursor - 1), i, word);
      cursor := i + |word|;
      state := Tabbing;
      assert cursor - 1 - |word| == i - 1;
    }

    /** However often the completion is cycled, in whatever directions, only the completed word changes. */
    method TabRun(dirs: seq<int>, made: Option<(nat, seq<seq<Code>>)>)
      requires Valid() && state == Tabbing && (made.Some? ==> 1 <= made.value.0 <= |made.value.1|)
      modifies this`tabix, this`tablist, this`cursor, this`state, buffer
      ensures Valid() && state == Tabbing && Around() == old(Around()) && tablist == old(tablist)
    {
      var k := 0;
      while k < |dirs|
        invariant k <= |dirs| && Valid() && state == Tabbing && buffer == old(buffer)
        invariant Around() == old(Around()) && tablist == old(tablist)
      {
        ghost var _ := Tab(dirs[k], made);
        k := k + 1;
      }
    }
  }

  lemma WordAfterSpace(b: seq<Code>, cursor: nat, i: nat)
    requires 1 <= cursor <= |b| + 1 && PrevWordStart(b, NotSpace, cursor, i)
    ensures 1 <= i <= cursor
    ensures 1 < i ==> i <= |b| && b[i - 2] == ' ' as int && b[i - 1] != ' ' as int
  {
  }

  lemma PrevWordBounds(b: seq<Code>, p: Code -> bool, cursor: nat, i: nat)
    requires 1 <= cursor <= |b| + 1 && PrevWordStart(b, p, cursor, i)
    ensures 1 <= i <= cursor
  {
  }

  lemma NextWordBounds(b: seq<Code>, p: Code -> bool, cursor: nat, i: nat)
    requires 1 <= cursor <= |b| + 1 && NextWordEnd(b, p, cursor, i)
    ensures cursor <= i <= |b| + 1
  {
  }

  lemma Replaced(b: seq<Code>, i: nat, cursor: nat, word: seq<Code>)
    requires 1 <= i <= cursor <= |b| + 1
    ensures var n := Filled(Removed(b, i, cursor - 1), i, word);
      && |n| == |b| - (cursor - i) + |word|
      && n[..i - 1] == b[..i - 1] && n[i - 1..i - 1 + |word|] == word && n[i - 1 + |word|..] == b[cursor - 1..]
  {
    var r := Removed(b, i, cursor - 1);
    assert r[..i - 1] == b[..i - 1] && r[i - 1..] == b[cursor - 1..];
  }
}
