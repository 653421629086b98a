/** Walking the input history, as a function of contents. */
module EditorHistory {
  import opened Bytes

  type Code = int

  /** `at` is the one-based position being looked at; the original input waits in `stash` meanwhile. */
  datatype History = History(entries: seq<seq<Code>>, at: Option<nat>, buffer: seq<Code>, stash: Option<seq<Code>>)

  predicate WellFormed(h: History) {
    match h.at
    case None => h.stash.None?
    case Some(r) => 1 <= r <= |h.entries| && h.stash.Some?
  }

  function Without<T>(s: seq<T>, i: nat): seq<T>
    requires i < |s|
  {
    s[..i] + s[i + 1..]
  }

  function Older(h: History): (r: History)
    requires WellFormed(h)
    ensures WellFormed(r)
  {
    match h.at
    case Some(r) =>
      if 1 < r then
        var entries := if h.buffer != [] then h.entries[r - 1 := h.buffer] else Without(h.entries, r - 1);
        History(entries, Some(r - 1), entries[r - 2], h.stash)
      else h
    case None =>
      if h.entries != [] then
        var r := |h.entries|;
        History(h.entries, Some(r), h.entries[r - 1], Some(h.buffer))
      else h
  }

  function Newer(h: History): (r: History)
    requires WellFormed(h)
    ensures WellFormed(r)
  {
    match h.at
    case None => h
    case Some(r) =>
      var entries := if h.buffer != [] then h.entries[r - 1 := h.buffer] else Without(h.entries, r - 1);
      var r' := if h.buffer != [] then r + 1 else r;
      if r' > |entries| then History(entries, None, h.stash.value, None)
      else History(entries, Some(r'), entries[r' - 1], h.stash)
  }

  function OlderTimes(h: History, k: nat): (r: History)
    requires WellFormed(h)
    ensures WellFormed(r)
    decreases k
  {
    if k == 0 then h else OlderTimes(Older(h), k - 1)
  }

  function NewerTimes(h: History, k: nat): (r: History)
    requires WellFormed(h)
    ensures WellFormed(r)
  {
    if k == 0 then h else Newer(NewerTimes(h, k - 1))
  }

  /** How many steps back there are. */
  function Room(h: History): nat
    requires WellFormed(h)
  {
    match h.at case None => |h.entries| case Some(r) => r - 1
  }

  /** The entry being looked at counts as what the buffer now holds. */
  function Commit(h: History): History
    requires WellFormed(h)
  {
    match h.at case None => h case Some(r) => h.(entries := h.entries[r - 1 := h.buffer])
  }

  predicate NoEmpty(h: History) {
    (forall i :: 0 <= i < |h.entries| ==> h.entries[i] != []) && (h.at.Some? ==> h.buffer != [])
  }

  lemma OneThere(h: History)
    requires WellFormed(h) && NoEmpty(h) && Room(h) > 0
    ensures NoEmpty(Older(h)) && Room(Older(h)) == Room(h) - 1
    ensures Commit(Older(h)) == Older(h)
    ensures Newer(Older(h)) == Commit(h)
  {
    var g := Older(h);
    var r := g.at.value;
    assert g.entries[r - 1 := g.buffer] == g.entries;
  }

  /** Going back `k` entries and forward again restores everything: the buffer, the place, and every entry, an edit
      of the entry being looked at included. */
  lemma {:induction false} ThereAndBack(h: History, k: nat)
    requires WellFormed(h) && NoEmpty(h) && k <= Room(h)
    ensures NewerTimes(OlderTimes(h, k), k) == if k == 0 then h else Commit(h)
    decreases k
  {
    if k > 0 {
      OneThere(h);
      var g := Older(h);
      ThereAndBack(g, k - 1);
      assert OlderTimes(h, k) == OlderTimes(g, k - 1);
    }
  }

  /** From the input line itself nothing changes at all. */
  lemma ThereAndBackFromInput(h: History, k: nat)
    requires WellFormed(h) && NoEmpty(h) && h.at == None && k <= |h.entries|
    ensures NewerTimes(OlderTimes(h, k), k) == h
  {
    ThereAndBack(h, k);
  }

  /** How many steps forward there are, the last one back to the input line. */
  function Ahead(h: History): nat
    requires WellFormed(h)
  {
    match h.at case None => 0 case Some(r) => |h.entries| - r + 1
  }

  lemma OneBack(h: History)
    requires WellFormed(h) && NoEmpty(h) && Ahead(h) > 0
    ensures NoEmpty(Newer(h)) && Ahead(Newer(h)) == Ahead(h) - 1
    ensures Commit(Newer(h)) == Newer(h)
    ensures Older(Newer(h)) == Commit(h)
  {
    var g := Newer(h);
    if g.at.Some? {
      assert g.entries[g.at.value - 1 := g.buffer] == g.entries;
    }
  }

  /** Going forward `k` steps and back again restores everything too, the edit of the entry being looked at kept. */
  lemma {:induction false} BackAndThere(h: History, k: nat)
    requires WellFormed(h) && NoEmpty(h) && k <= Ahead(h)
    ensures OlderTimes(NewerTimes(h, k), k) == if k == 0 then h else Commit(h)
    ensures NoEmpty(NewerTimes(h, k)) && Ahead(NewerTimes(h, k)) == Ahead(h) - k
    ensures k > 0 ==> Commit(NewerTimes(h, k)) == NewerTimes(h, k)
  {
    if k > 0 {
      BackAndThere(h, k - 1);
      var g := NewerTimes(h, k - 1);
      OneBack(g);
      assert OlderTimes(NewerTimes(h, k), k) == OlderTimes(Commit(g), k - 1);
    }
  }

  /** Entry `i`, counted from zero, is gone from `before`, and the others keep their order. */
  predicate Dropped(before: seq<seq<Code>>, after: seq<seq<Code>>, i: nat)
    requires i < |before|
  {
    && |after| == |before| - 1
    && (forall j :: 0 <= j < i ==> after[j] == before[j])
    && (forall j :: i <= j < |after| ==> after[j] == before[j + 1])
  }

  predicate Stored(before: seq<seq<Code>>, after: seq<seq<Code>>, i: nat, line: seq<Code>)
    requires i < |before|
  {
    |after| == |before| && after[i] == line && forall j :: 0 <= j < |after| && j != i ==> after[j] == before[j]
  }

  /** A step forward puts an edited line into its entry, or drops the entry of an emptied one; then it looks at the
      entry that follows, or at the input line when none does. */
  lemma NewerIs(h: History, r: nat)
    requires WellFormed(h) && h.at == Some(r)
    ensures var g := Newer(h);
      && (if h.buffer != [] then Stored(h.entries, g.entries, r - 1, h.buffer)
          else Dropped(h.entries, g.entries, r - 1))
      && (if r == |h.entries| then g.at == None && g.buffer == h.stash.value && g.stash == None
          else g.at == Some(if h.buffer != [] then r + 1 else r) && g.buffer == h.entries[r] && g.stash == h.stash)
  {
  }

  /** A step back does the same with the line, and looks at the entry before; the first one has none. */
  lemma OlderIs(h: History, r: nat)
    requires WellFormed(h) && h.at == Some(r)
    ensures var g := Older(h);
      if r == 1 then g == h
      else
        && (if h.buffer != [] then Stored(h.entries, g.entries, r - 1, h.buffer)
            else Dropped(h.entries, g.entries, r - 1))
        && g.at == Some(r - 1) && g.buffer == h.entries[r - 2] && g.stash == h.stash
  {
  }

  /** From the input line a step back looks at the last entry, if there is one, and keeps the line for later; a step
      forward does nothing. */
  lemma FromInput(h: History)
    requires WellFormed(h) && h.at == None
    ensures Newer(h) == h
    ensures Older(h) == if h.entries == [] then h
      else History(h.entries, Some(|h.entries|), h.entries[|h.entries| - 1], Some(h.buffer))
  {
  }
}
