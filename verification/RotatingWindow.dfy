/** The rotating message view: rows that stay still on the screen while messages are added. */
module RotatingWindow {
  import opened Bytes
  import opened OrderedMaps

  datatype Cell<V> = Divider | Item(val: V)

  function Values<K, V>(entries: seq<Entry<K, V>>): (r: seq<V>)
    ensures |r| == |entries|
  {
    seq(|entries|, i requires 0 <= i < |entries| => entries[i].val)
  }

  predicate Passes<V>(filter: Option<V -> bool>, v: V) {
    filter.None? || filter.value(v)
  }

  function Visible<V>(vals: seq<V>, filter: Option<V -> bool>): (r: seq<V>)
    ensures |r| <= |vals|
  {
    if vals == [] then []
    else if Passes(filter, vals[0]) then [vals[0]] + Visible(vals[1..], filter)
    else Visible(vals[1..], filter)
  }

  lemma {:induction false} VisibleAppend<V>(a: seq<V>, b: seq<V>, filter: Option<V -> bool>)
    ensures Visible(a + b, filter) == Visible(a, filter) + Visible(b, filter)
  {
    if a == [] {
      assert a + b == b;
    } else {
      assert (a + b)[1..] == a[1..] + b;
      VisibleAppend(a[1..], b, filter);
    }
  }

  // ------------------------------------------------------------ rows

  /** Which entry row `r` is for: 0 for the newest, `rows - 1` for the divider. */
  function Place(divider: int, rows: nat, r: int): nat
    requires 0 < rows
  {
    (divider - r) % rows
  }

  /** The row of entry `k`, as the code computes it. */
  function RowOf(divider: int, rows: nat, k: nat): int
    requires 0 < rows
  {
    (divider - 1 - k) % rows + 1
  }

  /** What row `r` shows. */
  function At<V>(visible: seq<V>, divider: int, rows: nat, r: int): Option<Cell<V>>
    requires 0 < rows
  {
    var k := Place(divider, rows, r);
    if k == rows - 1 then Some(Divider) else if k < |visible| then Some(Item(visible[k])) else None
  }

  lemma IntModIs(n: int, m: nat, a: int, r: nat)
    requires 0 < m && r < m && n == m * a + r
    ensures n % m == r
  {
    var b, s := n / m, n % m;
    assert n == m * b + s;
    if a < b {
      MulLess(a, b, m);
    } else if b < a {
      MulLess(b, a, m);
    }
  }

  /** Entries and rows correspond one to one. */
  lemma RowPlace(divider: int, rows: nat, k: nat, r: int)
    requires 0 < rows && k < rows && 1 <= r <= rows
    ensures 1 <= RowOf(divider, rows, k) <= rows
    ensures RowOf(divider, rows, k) == r <==> Place(divider, rows, r) == k
  {
    var n := divider - 1 - k;
    var a, x := n / rows, n % rows;
    assert n == rows * a + x;
    assert divider - (x + 1) == rows * a + k;
    IntModIs(divider - (x + 1), rows, a, k);
    var b, y := (divider - r) / rows, (divider - r) % rows;
    assert divider - r == rows * b + y;
    if y == k {
      assert n == rows * b + (r - 1);
      IntModIs(n, rows, b, r - 1);
    }
  }

  /** One tick moves every entry one place on, in the same row. */
  lemma PlaceMoves(divider: int, rows: nat, r: int)
    requires 0 < rows
    ensures Place(divider + 1, rows, r) ==
      if Place(divider, rows, r) == rows - 1 then 0 else Place(divider, rows, r) + 1
  {
    var a, k := (divider - r) / rows, (divider - r) % rows;
    assert divider - r == rows * a + k;
    assert rows * (a + 1) == rows * a + rows;
    IntModIs(divider + 1 - r, rows, if k == rows - 1 then a + 1 else a, if k == rows - 1 then 0 else k + 1);
  }

  // ------------------------------------------------------------ the window

  /** Where an `each(offset)` loop starts. */
  function From<V>(vals: seq<V>, offset: nat): seq<V> {
    if offset <= |vals| then vals[offset..] else []
  }

  function NewestFirst<K, V>(log: seq<Entry<K, V>>, max: nat): seq<V> {
    Values(Rev(Retained(log, max)))
  }

  /** The values an `each(offset)` loop sees, for any offset. */
  function Listed<K, V>(log: seq<Entry<K, V>>, max: nat, offset: int): seq<V>
    requires 0 < max
  {
    Values(Walk(log, max, offset))
  }

  lemma ListedFrom<K, V>(log: seq<Entry<K, V>>, max: nat, offset: nat)
    requires 0 < max
    ensures Listed(log, max, offset) == From(NewestFirst(log, max), offset)
  {
    hide Walk;
    WalkIs(log, max, offset);
  }

  function Offset(scroll: int, ticker: nat, pin: Option<int>): int {
    if scroll <= 0 then 0 else if pin.None? then scroll else scroll + ticker - pin.value
  }

  function DividerAt(scroll: int, ticker: nat, rows: int): int {
    if scroll > 0 then rows - 1 else ticker
  }

  ghost predicate Shows<V>(window: map<int, Cell<V>>, r: int, cell: Option<Cell<V>>) {
    if cell.None? then r !in window else r in window && window[r] == cell.value
  }

  /** The window has the given visible entries in their rows, and nothing else. */
  ghost predicate Pictures<V>(window: map<int, Cell<V>>, visible: seq<V>, divider: int, rows: nat)
    requires 0 < rows
  {
    && (forall r :: r in window ==> 1 <= r <= rows)
    && forall r :: 1 <= r <= rows ==> Shows(window, r, At(visible, divider, rows, r))
  }

  method Draw<K(==), V, F(==,!new)>(source: OrderedMap<K, V, F>, scroll: int, rows: int, filter: Option<V -> bool>)
      returns (window: map<int, Cell<V>>)
    requires source.Valid()
    modifies source`filter, source`pin
    ensures source.Valid() && source.filter == filter
    ensures scroll <= 0 ==> source.pin == None
    ensures scroll > 0 ==> source.pin == Some(if old(source.pin).Some? then old(source.pin).value else source.ticker)
    ensures rows <= 0 ==> window == map[]
    ensures rows > 0 ==>
      var shown := Listed(source.log, source.max, Offset(scroll, source.ticker, old(source.pin)));
      Pictures(window, Visible(shown, filter), DividerAt(scroll, source.ticker, rows), rows)
  {
    hide Visible, At, Walk, Pictures;
    source.filter := filter;
    var offset, divider := 0, source.ticker;
    if scroll > 0 {
      var pin := if source.pin.Some? then source.pin.value else source.ticker;
      source.pin := Some(pin);
      offset := scroll + source.ticker - pin;
      divider := rows - 1;
    } else {
      source.pin := None;
    }
    window := map[];
    if rows <= 0 {
      return;
    }
    var entries := source.Each(offset);
    window := Fill(Values(entries), divider, rows, filter);
  }

  /** The loop over the entries: visible ones take the rows from the divider back, until one row is left. */
  method Fill<V>(vals: seq<V>, divider: int, rows: nat, filter: Option<V -> bool>) returns (window: map<int, Cell<V>>)
    requires 0 < rows
    ensures Pictures(window, Visible(vals, filter), divider, rows)
  {
    hide Visible, RowOf, Place, Holds;
    var n, i := 0, 0;
    window := map[];
    ghost var shown: seq<V> := [];
    NothingVisible(filter, vals[..0]);
    NothingHeld(window, shown, divider, rows);
    while i < |vals|
      invariant i <= |vals| && n == |shown| < rows && shown == Visible(vals[..i], filter)
      invariant Holds(window, shown, divider, rows)
    {
      if n + 1 >= rows {
        break;
      }
      VisibleSnoc(vals, i, filter);
      if filter.None? || filter.value(vals[i]) {
        FillStep(window, shown, divider, rows, vals[i]);
        window := window[RowOf(divider, rows, n) := Item(vals[i])];
        shown := shown + [vals[i]];
        n := n + 1;
      }
      i := i + 1;
    }
    VisibleAppend(vals[..i], vals[i..], filter);
    assert vals[..i] + vals[i..] == vals;
    if i == |vals| {
      NothingVisible(filter, vals[i..]);
    }
    FillDivider(window, shown, Visible(vals, filter), divider, rows);
    window := window[divider % rows + 1 := Divider];
  }

  /** The rows of the entries placed so far, and no others. */
  ghost predicate Holds<V>(window: map<int, Cell<V>>, shown: seq<V>, divider: int, rows: nat)
    requires 0 < rows
  {
    && (forall r :: r in window ==> 1 <= r <= rows)
    && forall r :: 1 <= r <= rows ==> Shows(window, r, Filled(shown, Place(divider, rows, r)))
  }

  lemma FillStep<V>(window: map<int, Cell<V>>, shown: seq<V>, divider: int, rows: nat, v: V)
    requires 0 < rows && Holds(window, shown, divider, rows) && |shown| < rows
    ensures Holds(window[RowOf(divider, rows, |shown|) := Item(v)], shown + [v], divider, rows)
  {
    hide RowOf, Place;
    forall r | 1 <= r <= rows ensures 1 <= RowOf(divider, rows, |shown|) <= rows
      && (RowOf(divider, rows, |shown|) == r <==> Place(divider, rows, r) == |shown|)
    {
      RowPlace(divider, rows, |shown|, r);
    }
    RowPlace(divider, rows, |shown|, 1);
  }

  lemma FillDivider<V>(window: map<int, Cell<V>>, shown: seq<V>, visible: seq<V>, divider: int, rows: nat)
    requires 0 < rows && Holds(window, shown, divider, rows)
    requires |shown| < rows && shown <= visible && (|shown| + 1 == rows || shown == visible)
    ensures Pictures(window[divider % rows + 1 := Divider], visible, divider, rows)
  {
    hide RowOf, Place;
    DividerRow(divider, rows);
    RowPlace(divider, rows, rows - 1, 1);
    var w := window[divider % rows + 1 := Divider];
    forall r | 1 <= r <= rows ensures Shows(w, r, At(visible, divider, rows, r)) {
      RowPlace(divider, rows, rows - 1, r);
      assert Shows(window, r, Filled(shown, Place(divider, rows, r)));
      assert Place(divider, rows, r) < rows by {
        PlaceSmall(divider, rows, r);
      }
    }
  }

  lemma PlaceSmall(divider: int, rows: nat, r: int)
    requires 0 < rows
    ensures Place(divider, rows, r) < rows
  {
  }

  function Filled<V>(shown: seq<V>, k: nat): Option<Cell<V>> {
    if k < |shown| then Some(Item(shown[k])) else None
  }

  lemma NothingHeld<V>(window: map<int, Cell<V>>, shown: seq<V>, divider: int, rows: nat)
    requires 0 < rows && window == map[] && shown == []
    ensures Holds(window, shown, divider, rows)
  {
  }

  lemma NothingVisible<V>(filter: Option<V -> bool>, vals: seq<V>)
    requires vals == []
    ensures Visible(vals, filter) == []
  {
  }

  lemma VisibleSnoc<V>(vals: seq<V>, i: nat, filter: Option<V -> bool>)
    requires i < |vals|
    ensures Visible(vals[..i + 1], filter) ==
      Visible(vals[..i], filter) + if Passes(filter, vals[i]) then [vals[i]] else []
  {
    VisibleAppend(vals[..i], [vals[i]], filter);
    assert vals[..i + 1] == vals[..i] + [vals[i]];
    assert [vals[i]][1..] == [];
  }

  lemma DividerRow(divider: int, rows: nat)
    requires 0 < rows
    ensures RowOf(divider, rows, rows - 1) == divider % rows + 1
  {
    var a, x := divider / rows, divider % rows;
    assert divider == rows * a + x;
    assert rows * (a - 1) == rows * a - rows;
    IntModIs(divider - 1 - (rows - 1), rows, a - 1, x);
  }

  // ------------------------------------------------------------ rows stay still

  /** The next insert evicts an entry, and that entry passes the filter. */
  predicate Evicts<K, V>(log: seq<Entry<K, V>>, max: nat, filter: Option<V -> bool>)
    requires 0 < max
  {
    |log| >= max && Passes(filter, log[|log| - max].val)
  }

  /** The visible entries after one more insert: it comes first, and exactly the visible evicted one is missing. */
  lemma VisibleAfterInsert<K, V>(log: seq<Entry<K, V>>, x: Entry<K, V>, max: nat, filter: Option<V -> bool>)
    requires 0 < max
    ensures var visible := Visible(NewestFirst(log, max), filter);
      && (Evicts(log, max, filter) ==> visible != [])
      && var kept := if Evicts(log, max, filter) then visible[..|visible| - 1] else visible;
      Visible(NewestFirst(log + [x], max), filter) == (if Passes(filter, x.val) then [x.val] else []) + kept
  {
    hide Visible;
    var vals := NewestFirst(log, max);
    var n := |vals|;
    var left := if |log| < max then n else n - 1;
    assert NewestFirst(log + [x], max) == [x.val] + vals[..left];
    VisibleAppend([x.val], vals[..left], filter);
    VisibleOne(x.val, filter);
    if |log| >= max {
      assert vals == vals[..left] + [log[|log| - max].val];
      VisibleAppend(vals[..left], [log[|log| - max].val], filter);
      VisibleOne(log[|log| - max].val, filter);
    } else {
      assert vals[..left] == vals;
    }
  }

  lemma VisibleOne<V>(v: V, filter: Option<V -> bool>)
    ensures Visible([v], filter) == if Passes(filter, v) then [v] else []
  {
    assert [v][1..] == [];
  }

  /** The row whose entry the next insert evicts. */
  predicate LosesEntry<K, V>(log: seq<Entry<K, V>>, max: nat, filter: Option<V -> bool>,
                             divider: int, rows: nat, r: int)
    requires 0 < max && 0 < rows
  {
    && Evicts(log, max, filter)
    && Place(divider, rows, r) == |Visible(NewestFirst(log, max), filter)| - 1
    && Place(divider, rows, r) != rows - 1
  }

  /** With the view not scrolled, a visible insert shows up in the old divider's row, the divider goes to the next one,
      and every other row keeps its contents, except that it goes blank exactly when its entry is evicted. */
  lemma InsertKeepsRows<K, V>(log: seq<Entry<K, V>>, x: Entry<K, V>, max: nat, filter: Option<V -> bool>,
                              ticker: nat, rows: nat, r: int)
    requires 0 < max && 2 <= rows && 1 <= r <= rows && Passes(filter, x.val)
    ensures var before := At(Visible(NewestFirst(log, max), filter), ticker, rows, r);
      var after := At(Visible(NewestFirst(log + [x], max), filter), ticker + 1, rows, r);
      && (r == ticker % rows + 1 ==> before == Some(Divider) && after == Some(Item(x.val)))
      && (r == (ticker + 1) % rows + 1 ==> after == Some(Divider))
      && (r != ticker % rows + 1 && r != (ticker + 1) % rows + 1 ==>
          after == if LosesEntry(log, max, filter, ticker, rows, r) then None else before)
  {
    hide Visible, Place, RowOf, Evicts;
    VisibleAfterInsert(log, x, max, filter);
    PlaceMoves(ticker, rows, r);
    DividerRow(ticker, rows);
    DividerRow(ticker + 1, rows);
    RowPlace(ticker, rows, rows - 1, r);
    RowPlace(ticker + 1, rows, rows - 1, r);
  }

  /** An insert that does not pass the filter moves nothing, and blanks exactly the row of the entry it evicts. */
  lemma HiddenInsertKeepsRows<K, V>(log: seq<Entry<K, V>>, x: Entry<K, V>, max: nat, filter: Option<V -> bool>,
                                    ticker: nat, rows: nat, r: int)
    requires 0 < max && 0 < rows && !Passes(filter, x.val)
    ensures var before := At(Visible(NewestFirst(log, max), filter), ticker, rows, r);
      var after := At(Visible(NewestFirst(log + [x], max), filter), ticker, rows, r);
      after == if LosesEntry(log, max, filter, ticker, rows, r) then None else before
  {
    hide Visible, Place, Evicts;
    VisibleAfterInsert(log, x, max, filter);
  }

  /** The row of a later drawing is that of an earlier one, or is blank where `lost` says so. */
  ghost predicate Still<V>(w1: map<int, Cell<V>>, w2: map<int, Cell<V>>, r: int, lost: bool) {
    if lost then r !in w2 else Shows(w2, r, if r in w1 then Some(w1[r]) else None)
  }

  /** Draw, insert, and draw again, not scrolled: the divider's row `d` takes a visible entry, the row after it the
      divider, and the other rows stand still. */
  method DrawInsertDraw<K(==), V, F(==,!new)>(source: OrderedMap<K, V, F>, scroll: int, rows: nat,
                                             filter: Option<V -> bool>, x: Entry<K, V>)
      returns (w1: map<int, Cell<V>>, w2: map<int, Cell<V>>)
    requires source.Valid() && scroll <= 0 && 2 <= rows
    modifies source, source.keys, source.vals
    ensures source.Valid() && source.log == old(source.log) + [x]
    ensures Passes(filter, x.val) ==>
      var d := old(source.ticker) % rows + 1;
      var next := d % rows + 1;
      && d in w1 && w1[d] == Divider && d in w2 && w2[d] == Item(x.val)
      && next in w2 && w2[next] == Divider
      && forall r :: 1 <= r <= rows && r != d && r != next ==>
          Still(w1, w2, r, LosesEntry(old(source.log), source.max, filter, old(source.ticker), rows, r))
    ensures !Passes(filter, x.val) ==>
      forall r :: 1 <= r <= rows ==>
        Still(w1, w2, r, LosesEntry(old(source.log), source.max, filter, old(source.ticker), rows, r))
  {
    hide Visible, LosesEntry, At, NewestFirst, Listed, Place, Pictures, Still;
    ghost var log, ticker, max := source.log, source.ticker, source.max;
    w1 := Draw(source, scroll, rows, filter);
    source.Insert(x.key, x.val);
    w2 := Draw(source, scroll, rows, filter);
    assert Entry(x.key, x.val) == x;
    ListedFrom(log, max, 0);
    ListedFrom(log + [x], max, 0);
    WholeFrom(log, max);
    WholeFrom(log + [x], max);
    NextDivider(ticker, rows);
    if Passes(filter, x.val) {
      VisibleRows(log, x, max, filter, ticker, rows, w1, w2);
    } else {
      HiddenRows(log, x, max, filter, ticker, rows, w1, w2);
    }
  }

  lemma VisibleRows<K, V>(log: seq<Entry<K, V>>, x: Entry<K, V>, max: nat, filter: Option<V -> bool>,
                          ticker: nat, rows: nat, w1: map<int, Cell<V>>, w2: map<int, Cell<V>>)
    requires 0 < max && 2 <= rows && Passes(filter, x.val)
    requires Pictures(w1, Visible(NewestFirst(log, max), filter), ticker, rows)
    requires Pictures(w2, Visible(NewestFirst(log + [x], max), filter), ticker + 1, rows)
    ensures var d, next := ticker % rows + 1, (ticker + 1) % rows + 1;
      && d in w1 && w1[d] == Divider && d in w2 && w2[d] == Item(x.val) && next in w2 && w2[next] == Divider
      && forall r :: 1 <= r <= rows && r != d && r != next ==>
          Still(w1, w2, r, LosesEntry(log, max, filter, ticker, rows, r))
  {
    hide Visible, LosesEntry, At, NewestFirst, Place, Evicts;
    var d, next := ticker % rows + 1, (ticker + 1) % rows + 1;
    InsertKeepsRows(log, x, max, filter, ticker, rows, d);
    InsertKeepsRows(log, x, max, filter, ticker, rows, next);
    assert Shows(w1, d, At(Visible(NewestFirst(log, max), filter), ticker, rows, d));
    forall r | 1 <= r <= rows && r != d && r != next
      ensures Still(w1, w2, r, LosesEntry(log, max, filter, ticker, rows, r))
    {
      InsertKeepsRows(log, x, max, filter, ticker, rows, r);
      assert Shows(w1, r, At(Visible(NewestFirst(log, max), filter), ticker, rows, r));
      assert Shows(w2, r, At(Visible(NewestFirst(log + [x], max), filter), ticker + 1, rows, r));
    }
  }

  lemma HiddenRows<K, V>(log: seq<Entry<K, V>>, x: Entry<K, V>, max: nat, filter: Option<V -> bool>,
                         ticker: nat, rows: nat, w1: map<int, Cell<V>>, w2: map<int, Cell<V>>)
    requires 0 < max && 2 <= rows && !Passes(filter, x.val)
    requires Pictures(w1, Visible(NewestFirst(log, max), filter), ticker, rows)
    requires Pictures(w2, Visible(NewestFirst(log + [x], max), filter), ticker, rows)
    ensures forall r :: 1 <= r <= rows ==>
      Still(w1, w2, r, LosesEntry(log, max, filter, ticker, rows, r))
  {
    hide Visible, LosesEntry, At, NewestFirst, Place, Evicts;
    forall r | 1 <= r <= rows
      ensures Still(w1, w2, r, LosesEntry(log, max, filter, ticker, rows, r))
    {
      HiddenInsertKeepsRows(log, x, max, filter, ticker, rows, r);
      assert Shows(w1, r, At(Visible(NewestFirst(log, max), filter), ticker, rows, r));
      assert Shows(w2, r, At(Visible(NewestFirst(log + [x], max), filter), ticker, rows, r));
    }
  }

  lemma WholeFrom<K, V>(log: seq<Entry<K, V>>, max: nat)
    ensures From(NewestFirst(log, max), 0) == NewestFirst(log, max)
  {
  }

  lemma NextDivider(ticker: nat, rows: nat)
    requires 2 <= rows
    ensures (ticker + 1) % rows == (ticker % rows + 1) % rows
  {
    var a, x := ticker / rows, ticker % rows;
    assert ticker == rows * a + x;
    assert rows * (a + 1) == rows * a + rows;
    IntModIs(ticker + 1, rows, if x + 1 < rows then a else a + 1, if x + 1 < rows then x + 1 else 0);
    IntModIs(x + 1, rows, if x + 1 < rows then 0 else 1, if x + 1 < rows then x + 1 else 0);
  }

  // ------------------------------------------------------------ scrolled

  /** The layout while scrolled: the divider at the bottom, the entries above it, the newest lowest. */
  lemma ScrolledLayout<V>(visible: seq<V>, rows: nat, r: int)
    requires 0 < rows && 1 <= r <= rows
    ensures At(visible, rows - 1, rows, r) ==
      if r == rows then Some(Divider) else if rows - 1 - r < |visible| then Some(Item(visible[rows - 1 - r])) else None
  {
    if r == rows {
      IntModIs(rows - 1 - r, rows, -1, rows - 1);
    } else {
      IntModIs(rows - 1 - r, rows, 0, rows - 1 - r);
    }
  }

  /** What row `r` above the divider shows when `scroll` of the newest entries are left out. */
  function ScrolledCell<V>(newest: seq<V>, scroll: nat, rows: nat, r: nat): Option<Cell<V>>
    requires r < rows
  {
    var k := scroll + (rows - 1 - r);
    if k < |newest| then Some(Item(newest[k])) else None
  }

  lemma ScrolledRows<V>(window: map<int, Cell<V>>, newest: seq<V>, scroll: nat, rows: nat)
    requires 0 < rows && Pictures(window, From(newest, scroll), rows - 1, rows)
    ensures rows in window && window[rows] == Divider
    ensures forall r: nat :: 1 <= r < rows ==> Shows(window, r, ScrolledCell(newest, scroll, rows, r))
  {
    hide At;
    var shown := From(newest, scroll);
    ScrolledLayout(shown, rows, rows);
    assert Shows(window, rows, At(shown, rows - 1, rows, rows));
    forall r: nat | 1 <= r < rows ensures Shows(window, r, ScrolledCell(newest, scroll, rows, r)) {
      ScrolledLayout(shown, rows, r);
      assert Shows(window, r, At(shown, rows - 1, rows, r));
    }
  }

  /** The first scrolled drawing: `scroll` of the newest entries are left out, and the next ones stand above the divider
      at the bottom. */
  method ScrolledDraw<K(==), V, F(==,!new)>(source: OrderedMap<K, V, F>, scroll: nat, rows: nat)
      returns (window: map<int, Cell<V>>)
    requires source.Valid() && scroll > 0 && 0 < rows && source.pin == None
    modifies source`filter, source`pin
    ensures source.Valid() && source.pin == Some(source.ticker)
    ensures rows in window && window[rows] == Divider
    ensures var newest := NewestFirst(source.log, source.max);
      forall r: nat :: 1 <= r < rows ==> Shows(window, r, ScrolledCell(newest, scroll, rows, r))
  {
    hide Visible, At, NewestFirst, Pictures, Shows, ScrolledCell;
    window := Draw(source, scroll, rows, None);
    ListedFrom(source.log, source.max, scroll);
    AllVisible(From(NewestFirst(source.log, source.max), scroll));
    ScrolledRows(window, NewestFirst(source.log, source.max), scroll, rows);
  }

  /** How many of `n` entries are still there, after `m` more, in a store for `max`. */
  function Left(n: nat, m: nat, max: nat): (k: nat)
    ensures k <= n - Low(n, max)
  {
    if n > Low(n + m, max) then n - Low(n + m, max) else 0
  }

  /** The entries listed before, without those evicted since. */
  function Survivors<K, V>(log: seq<Entry<K, V>>, m: nat, max: nat, offset: nat): seq<V> {
    From(NewestFirst(log, max)[..Left(|log|, m, max)], offset)
  }

  /** Going back as many entries as were inserted leads to the same entries, those evicted being the only ones lost. */
  lemma OlderPart<K, V>(log: seq<Entry<K, V>>, xs: seq<Entry<K, V>>, max: nat, offset: nat)
    requires 0 < max
    ensures From(NewestFirst(log + xs, max), offset + |xs|) == Survivors(log, |xs|, max, offset)
  {
    var a, b := Survivors(log, |xs|, max, offset), From(NewestFirst(log + xs, max), offset + |xs|);
    var n, m := |log|, |xs|;
    assert |a| == |b|;
    forall i | 0 <= i < |b| ensures b[i] == a[i] {
      assert b[i] == NewestFirst(log + xs, max)[offset + m + i];
      assert b[i] == (log + xs)[n + m - 1 - (offset + m + i)].val;
      assert a[i] == NewestFirst(log, max)[offset + i];
    }
  }

  /** Row `r` of a scrolled view is for an entry that the store has evicted after `m` more. */
  predicate NoLongerHeld(n: nat, m: nat, max: nat, offset: nat, rows: nat, r: int)
    requires 0 < rows
  {
    var k := Place(rows - 1, rows, r);
    k != rows - 1 && n - 1 - (offset + k) < Low(n + m, max)
  }

  /** While scrolled without a filter, any number of inserts leaves every row as it was, and blanks exactly the rows
      whose entries are evicted. */
  lemma ScrolledRowsStay<K, V>(log: seq<Entry<K, V>>, xs: seq<Entry<K, V>>, max: nat, offset: nat, rows: nat, r: int)
    requires 0 < max && 0 < rows
    ensures var before := At(From(NewestFirst(log, max), offset), rows - 1, rows, r);
      var after := At(From(NewestFirst(log + xs, max), offset + |xs|), rows - 1, rows, r);
      after == if NoLongerHeld(|log|, |xs|, max, offset, rows, r) then None else before
  {
    hide Place;
    OlderPart(log, xs, max, offset);
  }

  /** How far a filtered view's offset moves for these inserts: hidden ones do not count. */
  function Counted<K, V>(xs: seq<Entry<K, V>>, filter: Option<V -> bool>): (p: nat)
    ensures p <= |xs|
  {
    if xs == [] then 0 else
      Counted(xs[..|xs| - 1], filter) + if Passes(filter, xs[|xs| - 1].val) then 1 else 0
  }

  /** The entries between where the offset gets to and where the old view now starts: one for each hidden insert. */
  function Gap<K, V>(log: seq<Entry<K, V>>, xs: seq<Entry<K, V>>, max: nat, offset: nat,
                     filter: Option<V -> bool>): seq<V>
  {
    var all := NewestFirst(log + xs, max);
    var lo, hi := offset + Counted(xs, filter), offset + |xs|;
    From(all[..if hi <= |all| then hi else |all|], lo)
  }

  predicate Hidden<V>(vals: seq<V>, filter: Option<V -> bool>) {
    forall i :: 0 <= i < |vals| ==> !Passes(filter, vals[i])
  }

  lemma {:induction false} HiddenIff<V>(vals: seq<V>, filter: Option<V -> bool>)
    ensures Visible(vals, filter) == [] <==> Hidden(vals, filter)
  {
    if vals != [] {
      HiddenIff(vals[1..], filter);
      assert forall i :: 0 <= i < |vals| - 1 ==> vals[1..][i] == vals[i + 1];
      if Hidden(vals[1..], filter) && !Passes(filter, vals[0]) {
        forall i | 0 <= i < |vals| ensures !Passes(filter, vals[i]) {
          assert i > 0 ==> vals[i] == vals[1..][i - 1];
        }
      }
    }
  }

  /** What a scrolled view shows after any inserts: the visible part of the gap, then what survives of the old view. */
  lemma ScrolledView<K, V>(log: seq<Entry<K, V>>, xs: seq<Entry<K, V>>, max: nat, offset: nat,
                           filter: Option<V -> bool>)
    requires 0 < max
    ensures Visible(From(NewestFirst(log + xs, max), offset + Counted(xs, filter)), filter) ==
      Visible(Gap(log, xs, max, offset, filter), filter) + Visible(Survivors(log, |xs|, max, offset), filter)
  {
    hide Visible, Counted, NewestFirst, Survivors;
    var all := NewestFirst(log + xs, max);
    var lo, hi := offset + Counted(xs, filter), offset + |xs|;
    OlderPart(log, xs, max, offset);
    assert From(all, lo) == Gap(log, xs, max, offset, filter) + From(all, hi);
    VisibleAppend(Gap(log, xs, max, offset, filter), From(all, hi), filter);
  }

  /** A scrolled, filtered view stays as it was, up to evictions, if and only if no entry in the gap passes. */
  lemma ScrolledViewStaysIff<K, V>(log: seq<Entry<K, V>>, xs: seq<Entry<K, V>>, max: nat, offset: nat,
                                   filter: Option<V -> bool>)
    requires 0 < max
    ensures var after := From(NewestFirst(log + xs, max), offset + Counted(xs, filter));
      Visible(after, filter) == Visible(Survivors(log, |xs|, max, offset), filter) <==>
      Hidden(Gap(log, xs, max, offset, filter), filter)
  {
    hide Visible, Counted, NewestFirst, Survivors, Gap;
    ScrolledView(log, xs, max, offset, filter);
    HiddenIff(Gap(log, xs, max, offset, filter), filter);
  }

  lemma {:induction false} CountedAll<K, V>(xs: seq<Entry<K, V>>, filter: Option<V -> bool>)
    requires forall i :: 0 <= i < |xs| ==> Passes(filter, xs[i].val)
    ensures Counted(xs, filter) == |xs|
  {
    if xs != [] {
      CountedAll(xs[..|xs| - 1], filter);
    }
  }

  /** In particular when every insert passes, and so always without a filter. */
  lemma NoGap<K, V>(log: seq<Entry<K, V>>, xs: seq<Entry<K, V>>, max: nat, offset: nat, filter: Option<V -> bool>)
    requires forall i :: 0 <= i < |xs| ==> Passes(filter, xs[i].val)
    ensures Gap(log, xs, max, offset, filter) == []
  {
    CountedAll(xs, filter);
  }

  /** Where it does not stay: scrolled past the one visible entry, a hidden insert brings it back into the first row. */
  lemma FilteredViewMoves()
    ensures var log, x: Entry<nat, nat> := [Entry<nat, nat>.Entry(None, 1)], Entry(None, 0);
      var odd := Some((v: nat) => v % 2 == 1);
      && Visible(From(NewestFirst(log, 4), 1), odd) == []
      && Visible(From(NewestFirst(log + [x], 4), 1 + Counted([x], odd)), odd) == [1]
  {
    var log, x: Entry<nat, nat> := [Entry<nat, nat>.Entry(None, 1)], Entry(None, 0);
    var odd := Some((v: nat) => v % 2 == 1);
    assert [x][..0] == [];
    assert From(NewestFirst(log + [x], 4), 1) == [1];
    VisibleOne<nat>(1, odd);
  }

  /** Row `r` of a scrolled view is for an entry, and not for a visible survivor. */
  predicate BehindSurvivors<K, V>(log: seq<Entry<K, V>>, m: nat, max: nat, offset: nat, filter: Option<V -> bool>,
                                  rows: nat, r: int)
    requires 0 < rows
  {
    var k := Place(rows - 1, rows, r);
    k != rows - 1 && k >= |Visible(Survivors(log, m, max, offset), filter)|
  }

  /** Draw scrolled, insert any entries, and draw again: when the gap is hidden, every row is as it was, or blank
      exactly where the entry is no longer among the survivors. */
  method DrawInsertsDraw<K(==), V, F(==,!new)>(source: OrderedMap<K, V, F>, scroll: int, rows: nat,
                                              filter: Option<V -> bool>, xs: seq<Entry<K, V>>)
      returns (w1: map<int, Cell<V>>, w2: map<int, Cell<V>>)
    requires source.Valid() && scroll > 0 && 0 < rows && Offset(scroll, source.ticker, source.pin) >= 0
    modifies source, source.keys, source.vals
    ensures source.Valid() && source.log == old(source.log) + xs
    ensures var offset := old(Offset(scroll, source.ticker, source.pin));
      Hidden(Gap(old(source.log), xs, source.max, offset, filter), filter) ==>
        forall r :: 1 <= r <= rows ==>
          Still(w1, w2, r, BehindSurvivors(old(source.log), |xs|, source.max, offset, filter, rows, r))
  {
    hide Visible, Gap, At, NewestFirst, Survivors, Listed, Place, Counted, Hidden;
    ghost var log, max := source.log, source.max;
    ghost var offset := Offset(scroll, source.ticker, source.pin);
    w1 := Draw(source, scroll, rows, filter);
    InsertAll(source, xs);
    w2 := Draw(source, scroll, rows, filter);
    ListedFrom(log, max, offset);
    ListedFrom(log + xs, max, offset + Counted(xs, filter));
    ScrolledViewStaysIff(log, xs, max, offset, filter);
    SurvivorsFirst(log, |xs|, max, offset, filter);
    if Hidden(Gap(log, xs, max, offset, filter), filter) {
      forall r | 1 <= r <= rows
        ensures Still(w1, w2, r, BehindSurvivors(log, |xs|, max, offset, filter, rows, r))
      {
        AtPrefix(Visible(From(NewestFirst(log, max), offset), filter),
                 Visible(Survivors(log, |xs|, max, offset), filter), rows - 1, rows, r);
        assert Shows(w1, r, At(Visible(From(NewestFirst(log, max), offset), filter), rows - 1, rows, r));
        assert Shows(w2, r, At(Visible(Survivors(log, |xs|, max, offset), filter), rows - 1, rows, r));
      }
    }
  }

  method InsertAll<K(==), V, F(==,!new)>(source: OrderedMap<K, V, F>, xs: seq<Entry<K, V>>)
    requires source.Valid()
    modifies source`n, source`index, source`ticker, source`log, source.keys, source.vals
    ensures source.Valid() && source.log == old(source.log) + xs
    ensures source.ticker == old(source.ticker) + Counted(xs, source.filter)
  {
    hide OrderedMap.Valid, Counted;
    assert source.log + xs[..0] == source.log;
    CountedNone(xs[..0], source.filter);
    for i := 0 to |xs|
      invariant source.Valid() && source.log == old(source.log) + xs[..i]
      invariant source.ticker == old(source.ticker) + Counted(xs[..i], source.filter)
    {
      assert xs[..i + 1] == xs[..i] + [xs[i]];
      assert xs[i] == Entry(xs[i].key, xs[i].val);
      CountedSnoc(xs[..i], xs[i], source.filter);
      source.Insert(xs[i].key, xs[i].val);
    }
    assert xs[..|xs|] == xs;
  }

  lemma CountedNone<K, V>(xs: seq<Entry<K, V>>, filter: Option<V -> bool>)
    requires xs == []
    ensures Counted(xs, filter) == 0
  {
  }

  lemma CountedSnoc<K, V>(xs: seq<Entry<K, V>>, x: Entry<K, V>, filter: Option<V -> bool>)
    ensures Counted(xs + [x], filter) == Counted(xs, filter) + if Passes(filter, x.val) then 1 else 0
  {
    assert (xs + [x])[..|xs|] == xs;
  }

  /** The survivors are the first of the entries listed before. */
  lemma SurvivorsFirst<K, V>(log: seq<Entry<K, V>>, m: nat, max: nat, offset: nat, filter: Option<V -> bool>)
    ensures Visible(Survivors(log, m, max, offset), filter) <= Visible(From(NewestFirst(log, max), offset), filter)
  {
    hide Visible;
    var all, some := From(NewestFirst(log, max), offset), Survivors(log, m, max, offset);
    assert all == some + all[|some|..];
    VisibleAppend(some, all[|some|..], filter);
  }

  lemma AtPrefix<V>(all: seq<V>, some: seq<V>, divider: int, rows: nat, r: int)
    requires 0 < rows && some <= all
    ensures At(some, divider, rows, r) ==
      if Place(divider, rows, r) != rows - 1 && Place(divider, rows, r) >= |some| then None
      else At(all, divider, rows, r)
  {
  }

  /** Draw scrolled, insert any entries, and draw again, without a filter: unless it is too far ahead, the pin keeps
      every row as it was, and the rows that go blank are exactly those whose entries were evicted. */
  method ScrolledDrawsAgree<K(==), V, F(==,!new)>(source: OrderedMap<K, V, F>, scroll: int, rows: nat,
                                                 xs: seq<Entry<K, V>>)
      returns (w1: map<int, Cell<V>>, w2: map<int, Cell<V>>)
    requires source.Valid() && scroll > 0 && 0 < rows && Offset(scroll, source.ticker, source.pin) >= 0
    modifies source, source.keys, source.vals
    ensures source.Valid() && source.log == old(source.log) + xs
    ensures var n, offset := |old(source.log)|, old(Offset(scroll, source.ticker, source.pin));
      forall r :: 1 <= r <= rows ==> Still(w1, w2, r, NoLongerHeld(n, |xs|, source.max, offset, rows, r))
  {
    hide Visible, Gap, NewestFirst, Survivors, Place, Counted, Hidden;
    ghost var log, max := source.log, source.max;
    ghost var offset := Offset(scroll, source.ticker, source.pin);
    w1, w2 := DrawInsertsDraw(source, scroll, rows, None, xs);
    NoGap(log, xs, max, offset, None);
    HiddenIff(Gap(log, xs, max, offset, None), None);
    AllVisible(Gap(log, xs, max, offset, None));
    AllVisible(Survivors(log, |xs|, max, offset));
    forall r | 1 <= r <= rows
      ensures BehindSurvivors(log, |xs|, max, offset, None, rows, r) <==>
        NoLongerHeld(|log|, |xs|, max, offset, rows, r)
    {
      GoneIff(log, |xs|, max, offset, Place(rows - 1, rows, r));
    }
  }

  /** Item `k` of the old view is gone exactly when its position is no longer held. */
  lemma GoneIff<K, V>(log: seq<Entry<K, V>>, m: nat, max: nat, offset: nat, k: nat)
    ensures k >= |Survivors(log, m, max, offset)| <==> |log| - 1 - (offset + k) < Low(|log| + m, max)
  {
  }

  /** A pin above the scroll position plus the ticker, as `reset` can leave behind, makes the offset negative, and the
      view moves: once the offset is back at zero its first row shows the last insert, whatever it showed before. */
  lemma NegativeOffsetMoves<K, V>(log: seq<Entry<K, V>>, xs: seq<Entry<K, V>>, max: nat, scroll: nat, ticker: nat,
                                  pin: int, rows: nat)
    requires 0 < max && 0 < scroll && 2 <= rows && xs != [] && Offset(scroll, ticker, Some(pin)) == -|xs|
    ensures var offset := Offset(scroll, ticker + |xs|, Some(pin));
      At(Visible(Listed(log + xs, max, offset), None), rows - 1, rows, rows - 1) == Some(Item(xs[|xs| - 1].val))
  {
    hide Walk;
    ListedFrom(log + xs, max, 0);
    AllVisible(Listed(log + xs, max, 0));
    assert Listed(log + xs, max, 0)[0] == xs[|xs| - 1].val;
  }

  /** Without a filter everything is visible. */
  lemma {:induction false} AllVisible<V>(vals: seq<V>)
    ensures Visible(vals, None) == vals
  {
    if vals != [] {
      AllVisible(vals[1..]);
    }
  }
}
