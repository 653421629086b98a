/** The bounded message store: a ring of slots with an index by key. Slots are counted from zero here. */
module OrderedMaps {
  import opened Bytes

  datatype Entry<K, V> = Entry(key: Option<K>, val: V)

  // ------------------------------------------------------------ ring arithmetic

  lemma {:induction false} MulLess(a: int, b: int, m: nat)
    requires a < b
    ensures m * a + m <= m * b
    decreases b - a
  {
    assert m * b == m * (b - 1) + m;
    if a < b - 1 {
      MulLess(a, b - 1, m);
    }
  }

  /** Positions less than `m` apart share no slot; positions `m` apart share theirs. */
  lemma SlotsDiffer(p: nat, q: nat, m: nat)
    requires 0 < m && p < q < p + m
    ensures p % m != q % m
  {
    var a, b := p / m, q / m;
    assert p == m * a + p % m && q == m * b + q % m;
    if p % m == q % m {
      assert m * (b - a) == q - p;
      if a < b {
        MulLess(a, b, m);
      } else {
        MulLess(b - 1, a, m);
      }
      assert false;
    }
  }

  lemma SlotWraps(p: nat, m: nat)
    requires 0 < m
    ensures (p + m) % m == p % m
  {
    var a, b := p / m, (p + m) / m;
    var r, s := p % m, (p + m) % m;
    assert p == m * a + r && p + m == m * b + s;
    if a + 1 < b {
      MulLess(a + 1, b, m);
    } else if b < a + 1 {
      MulLess(b, a + 1, m);
    }
    assert m * (a + 1) == m * a + m;
  }

  lemma SlotSmall(p: nat, m: nat)
    requires p < m
    ensures p % m == p
  {
  }

  // ------------------------------------------------------------ what the store should hold

  /** The first position still held. */
  function Low(n: nat, m: nat): nat {
    if n <= m then 0 else n - m
  }

  /** The last `m` inserts, oldest first. */
  function Retained<T>(log: seq<T>, m: nat): seq<T> {
    log[Low(|log|, m)..]
  }

  function Rev<T>(s: seq<T>): (r: seq<T>)
    ensures |r| == |s|
  {
    seq(|s|, i requires 0 <= i < |s| => s[|s| - 1 - i])
  }

  predicate HasKey<K, V, F(==)>(e: Entry<K, V>, keyfn: K -> F, f: F) {
    e.key.Some? && keyfn(e.key.value) == f
  }

  /** The position of the newest entry at or above `lo` with folded key `f`. */
  function Newest<K, V, F(==)>(log: seq<Entry<K, V>>, lo: nat, keyfn: K -> F, f: F): (r: Option<nat>)
    ensures r.Some? ==> lo <= r.value < |log| && HasKey(log[r.value], keyfn, f)
    ensures r.Some? ==> forall q :: r.value < q < |log| ==> !HasKey(log[q], keyfn, f)
    ensures r.None? ==> forall q :: lo <= q < |log| ==> !HasKey(log[q], keyfn, f)
  {
    if |log| <= lo then None
    else if HasKey(log[|log| - 1], keyfn, f) then Some(|log| - 1)
    else Newest(log[..|log| - 1], lo, keyfn, f)
  }

  /** Those properties leave no choice. */
  lemma NewestIs<K, V, F>(log: seq<Entry<K, V>>, lo: nat, keyfn: K -> F, f: F, p: nat)
    requires lo <= p < |log| && HasKey(log[p], keyfn, f)
    requires forall q :: p < q < |log| ==> !HasKey(log[q], keyfn, f)
    ensures Newest(log, lo, keyfn, f) == Some(p)
  {
    hide Newest, HasKey;
    var r := Newest(log, lo, keyfn, f);
  }

  lemma NewestNone<K, V, F>(log: seq<Entry<K, V>>, lo: nat, keyfn: K -> F, f: F)
    requires forall q :: lo <= q < |log| ==> !HasKey(log[q], keyfn, f)
    ensures Newest(log, lo, keyfn, f) == None
  {
    hide Newest, HasKey;
    var r := Newest(log, lo, keyfn, f);
  }

  /** One more entry: it is the newest for its own key, and at most the lowest position drops out for another. */
  lemma NewestInsert<K, V, F>(log: seq<Entry<K, V>>, lo: nat, lo': nat, keyfn: K -> F, f: F, x: Entry<K, V>)
    requires lo <= lo' <= lo + 1 && lo' <= |log|
    ensures Newest(log + [x], lo', keyfn, f) ==
      if HasKey(x, keyfn, f) then Some(|log|)
      else if Newest(log, lo, keyfn, f) == Some(lo) && lo' == lo + 1 then None
      else Newest(log, lo, keyfn, f)
  {
    hide Newest, HasKey;
    var all, n := log + [x], |log|;
    assert all[n] == x && forall q :: 0 <= q < n ==> all[q] == log[q];
    var r := Newest(log, lo, keyfn, f);
    if HasKey(x, keyfn, f) {
      NewestIs(all, lo', keyfn, f, n);
    } else if r == None || (r == Some(lo) && lo' == lo + 1) {
      NewestNone(all, lo', keyfn, f);
    } else {
      NewestIs(all, lo', keyfn, f, r.value);
    }
  }

  // ------------------------------------------------------------ the representation

  /** The slots hold the last `m` entries. */
  ghost predicate Ring<K, V>(keys: seq<Option<K>>, vals: seq<Option<V>>, log: seq<Entry<K, V>>, m: nat) {
    && 0 < m == |keys| == |vals|
    && (forall p :: Low(|log|, m) <= p < |log| ==> keys[p % m] == log[p].key && vals[p % m] == Some(log[p].val))
    && (forall i :: |log| <= i < m ==> keys[i] == None && vals[i] == None)
  }

  /** Every index entry names a live slot whose folded key is that entry. */
  ghost predicate IndexSound<K, F(!new)>(index: map<F, nat>, keys: seq<Option<K>>, n: nat, keyfn: K -> F) {
    forall f :: f in index ==>
      (index[f] < n && index[f] < |keys| && keys[index[f]].Some? && keyfn(keys[index[f]].value) == f)
  }

  /** ... and without rekeying, the newest one. */
  ghost predicate IndexNewest<K, V, F(!new)>(index: map<F, nat>, log: seq<Entry<K, V>>, m: nat, keyfn: K -> F) {
    0 < m && forall f :: NewestAt(index, log, m, keyfn, f)
  }

  ghost predicate NewestAt<K, V, F>(index: map<F, nat>, log: seq<Entry<K, V>>, m: nat, keyfn: K -> F, f: F)
    requires 0 < m
  {
    match Newest(log, Low(|log|, m), keyfn, f)
    case None => f !in index
    case Some(p) => f in index && index[f] == p % m
  }

  /** The slot about to be written holds the entry `m` positions back, or nothing yet. */
  lemma SlotOfNext<K, V>(keys: seq<Option<K>>, vals: seq<Option<V>>, log: seq<Entry<K, V>>, m: nat)
    requires Ring(keys, vals, log, m)
    ensures |log| >= m ==> Low(|log|, m) % m == |log| % m && keys[|log| % m] == log[Low(|log|, m)].key
    ensures |log| < m ==> |log| % m == |log| && keys[|log| % m] == None
  {
    if |log| >= m {
      SlotWraps(|log| - m, m);
    } else {
      SlotSmall(|log|, m);
    }
  }

  lemma RingInsert<K, V>(keys: seq<Option<K>>, vals: seq<Option<V>>, log: seq<Entry<K, V>>, m: nat, x: Entry<K, V>)
    requires Ring(keys, vals, log, m)
    ensures var i := |log| % m;
      Ring(keys[i := x.key], vals[i := Some(x.val)], log + [x], m)
  {
    var n, i := |log|, |log| % m;
    SlotOfNext(keys, vals, log, m);
    forall p | Low(n + 1, m) <= p < n ensures p % m != i {
      SlotsDiffer(p, n, m);
    }
  }

  /** The index after an insert: the overwritten slot's entry goes if it points there, the new key's is set. */
  function Reindex<K, F>(index: map<F, nat>, over: Option<K>, i: nat, key: Option<K>, keyfn: K -> F): map<F, nat> {
    var cleared := if over.Some? && keyfn(over.value) in index && index[keyfn(over.value)] == i
      then index - {keyfn(over.value)} else index;
    if key.Some? then cleared[keyfn(key.value) := i] else cleared
  }

  lemma SoundInsert<K, F(!new)>(index: map<F, nat>, keys: seq<Option<K>>, n: nat, keyfn: K -> F, i: nat, key: Option<K>)
    requires IndexSound(index, keys, n, keyfn) && i < |keys| && i <= n
    ensures IndexSound(Reindex(index, keys[i], i, key, keyfn), keys[i := key], n + 1, keyfn)
  {
  }

  lemma NewestInsertAt<K, V, F>(index: map<F, nat>, keys: seq<Option<K>>, vals: seq<Option<V>>,
                                log: seq<Entry<K, V>>, m: nat,
                                keyfn: K -> F, x: Entry<K, V>, f: F)
    requires Ring(keys, vals, log, m) && NewestAt(index, log, m, keyfn, f)
    ensures NewestAt(Reindex(index, keys[|log| % m], |log| % m, x.key, keyfn), log + [x], m, keyfn, f)
  {
    hide Newest;
    var n := |log|;
    NewestInsert(log, Low(n, m), Low(n + 1, m), keyfn, f, x);
    SlotOfNext(keys, vals, log, m);
    var r := Newest(log, Low(n, m), keyfn, f);
    if r.Some? && (n < m || r.value != n - m) {
      SlotsDiffer(r.value, n, m);
    }
  }

  /** Rekeying rewrites the key of one live entry and leaves the ring a ring. */
  lemma RingRekey<K, V>(keys: seq<Option<K>>, vals: seq<Option<V>>, log: seq<Entry<K, V>>, m: nat,
                        i: nat, key: Option<K>)
      returns (p: nat)
    requires Ring(keys, vals, log, m) && i < m && i < |log|
    ensures Low(|log|, m) <= p < |log| && p % m == i
    ensures Ring(keys[i := key], vals, log[p := Entry(key, log[p].val)], m)
  {
    p := LiveAt(|log|, m, i);
    forall q | Low(|log|, m) <= q < |log| && q != p ensures q % m != i {
      if q < p {
        SlotsDiffer(q, p, m);
      } else {
        SlotsDiffer(p, q, m);
      }
    }
  }

  /** Every live slot holds some position. */
  lemma LiveAt(n: nat, m: nat, i: nat) returns (p: nat)
    requires i < m && i < n
    ensures Low(n, m) <= p < n && p % m == i
  {
    if n <= m {
      p := i;
      SlotSmall(i, m);
    } else {
      AllSlots(n - m, m, i);
      p :| n - m <= p < n && p % m == i;
    }
  }

  /** Among `m` consecutive positions every slot occurs. */
  lemma AllSlots(p: nat, m: nat, i: nat)
    requires i < m
    ensures exists q :: p <= q < p + m && q % m == i
  {
    var r := p % m;
    var q := if i >= r then p + (i - r) else p + (m + i - r);
    ModAdd(p, m, if i >= r then i - r else m + i - r);
    assert q % m == i;
  }

  lemma ModAdd(p: nat, m: nat, d: nat)
    requires 0 < m && d < m
    ensures (p + d) % m == if p % m + d < m then p % m + d else p % m + d - m
  {
    var a, r := p / m, p % m;
    assert p == m * a + r;
    ModIs(p + d, m, if r + d < m then a else a + 1, if r + d < m then r + d else r + d - m);
  }

  lemma ModIs(n: nat, m: nat, a: nat, r: nat)
    requires 0 < m && r < m && n == m * a + r
    ensures n % m == r
  {
    var b, s := n / m, n % m;
    assert n == m * b + s;
    if a < b {
      MulLess(a, b, m);
    } else if b < a {
      MulLess(b, a, m);
    }
  }

  // ------------------------------------------------------------ the class

  class OrderedMap<K(==), V, F(==,!new)> {
    const max: nat
    const keyfn: K -> F
    var keys: array<Option<K>>
    var vals: array<Option<V>>
    var index: map<F, nat>
    var n: nat
    var ticker: nat
    var filter: Option<V -> bool>   // the field `predicate`
    var pin: Option<int>
    ghost var log: seq<Entry<K, V>>
    ghost var rekeyed: bool

    ghost predicate Valid()
      reads this, keys, vals
    {
      && keys as object != vals as object && n == |log|
      && Ring(keys[..], vals[..], log, max)
      && IndexSound(index, keys[..], n, keyfn)
      && (!rekeyed ==> IndexNewest(index, log, max, keyfn))
    }

    constructor (max: nat, keyfn: K -> F)
      requires 0 < max
      ensures Valid() && log == [] && !rekeyed && ticker == 0 && filter == None && pin == None
      ensures this.max == max && this.keyfn == keyfn && fresh(keys) && fresh(vals)
    {
      this.max, this.keyfn := max, keyfn;
      keys := new Option<K>[max](_ => None);
      vals := new Option<V>[max](_ => None);
      index, n, ticker, filter, pin := map[], 0, 0, None, None;
      log, rekeyed := [], false;
    }

    method Reset()
      requires Valid()
      modifies this`keys, this`vals, this`index, this`n, this`ticker, this`log, this`rekeyed
      ensures Valid() && log == [] && !rekeyed && ticker == 0 && fresh(keys) && fresh(vals)
    {
      index := map[];
      keys := new Option<K>[max](_ => None);
      vals := new Option<V>[max](_ => None);
      n, ticker := 0, 0;
      log, rekeyed := [], false;
    }

    function GetIndex(key: Option<K>): Option<nat>
      reads this
    {
      if key.Some? && keyfn(key.value) in index then Some(index[keyfn(key.value)]) else None
    }

    /** Overwriting an old entry: remove it from the index if needed; then remember the new one. */
    method UpdateIndex(i: nat, key: Option<K>)
      requires i < keys.Length
      modifies this`index
      ensures index == Reindex(old(index), keys[i], i, key, keyfn)
    {
      if GetIndex(keys[i]) == Some(i) {
        index := index - {keyfn(keys[i].value)};
      }
      if key.Some? {
        index := index[keyfn(key.value) := i];
      }
    }

    method Insert(key: Option<K>, val: V)
      requires Valid()
      modifies this`n, this`index, this`ticker, this`log, keys, vals
      ensures Valid() && log == old(log) + [Entry(key, val)]
      ensures ticker == old(ticker) + if filter.None? || filter.value(val) then 1 else 0
    {
      hide Ring, IndexSound, NewestAt, Reindex;
      RingShape(keys[..], vals[..], log, max);
      var i := n % max;
      ghost var keys0, vals0, index0 := keys[..], vals[..], index;
      n := n + 1;
      UpdateIndex(i, key);
      keys[i] := key;
      vals[i] := Some(val);
      RingInsert(keys0, vals0, log, max, Entry(key, val));
      SoundInsert(index0, keys0, n - 1, keyfn, i, key);
      if !rekeyed {
        forall f ensures NewestAt(index, log + [Entry(key, val)], max, keyfn, f) {
          assert NewestAt(index0, log, max, keyfn, f);
          NewestInsertAt(index0, keys0, vals0, log, max, keyfn, Entry(key, val), f);
        }
      }
      log := log + [Entry(key, val)];
      assert keys[..] == keys0[i := key] && vals[..] == vals0[i := Some(val)];
      if filter.None? || filter.value(val) {
        ticker := ticker + 1;
      }
    }

    /** Without rekeying: the newest retained value for the key, or nothing. With it: a retained value, or nothing. */
    method Lookup(key: Option<K>) returns (r: Option<V>)
      requires Valid()
      ensures key.None? ==> r == None
      ensures key.Some? && !rekeyed ==>
        r == match Newest(log, Low(n, max), keyfn, keyfn(key.value)) case None => None case Some(p) => Some(log[p].val)
      ensures r.Some? ==> exists e :: e in Retained(log, max) && HasKey(e, keyfn, keyfn(key.value)) && r == Some(e.val)
    {
      hide Newest;
      var i := GetIndex(key);
      if i.None? {
        assert key.Some? && !rekeyed ==> NewestAt(index, log, max, keyfn, keyfn(key.value));
        return None;
      }
      ghost var p := LiveAt(n, max, i.value);
      assert Retained(log, max)[p - Low(n, max)] == log[p];
      assert log[p] in Retained(log, max);
      assert !rekeyed ==> NewestAt(index, log, max, keyfn, keyfn(key.value));
      r := vals[i.value];
    }

    /** The entry that `was` leads to is found under `now` afterwards; a missing key changes nothing. */
    method Rekey(was: K, now: K) returns (ghost p: nat)
      requires Valid()
      modifies this`index, this`log, this`rekeyed, keys
      ensures Valid()
      ensures keyfn(was) !in old(index) ==> log == old(log) && index == old(index) && rekeyed == old(rekeyed)
      ensures keyfn(was) in old(index) ==> rekeyed && Low(n, max) <= p < n && p % max == old(index)[keyfn(was)]
      ensures keyfn(was) in old(index) ==> log == old(log)[p := Entry(Some(now), old(log)[p].val)]
      ensures keyfn(was) in old(index) ==> index == (old(index) - {keyfn(was)})[keyfn(now) := p % max]
    {
      var i := GetIndex(Some(was));
      p := 0;
      if i.Some? {
        ghost var keys0, vals0 := keys[..], vals[..];
        index := index - {keyfn(was)};
        keys[i.value] := Some(now);
        index := index[keyfn(now) := i.value];
        p := RingRekey(keys0, vals0, log, max, i.value, Some(now));
        assert keys[..] == keys0[i.value := Some(now)];
        log := log[p := Entry(Some(now), log[p].val)];
        rekeyed := true;
      }
    }

    method GetOldest() returns (r: Option<V>)
      requires Valid()
      ensures r == if log == [] then None else Some(Retained(log, max)[0].val)
    {
      SlotOfNext(keys[..], vals[..], log, max);
      if n <= max {
        if n > 0 {
          SlotSmall(0, max);
        }
        r := vals[0];
      } else {
        r := vals[n % max];
      }
    }

    /** What a loop over `each(offset)` sees: newest first, without the first `offset` entries. The loop stops at the
        first empty slot, which a negative offset can lead to. */
    method Each(offset: int) returns (out: seq<Entry<K, V>>)
      requires Valid()
      ensures out == Walk(log, max, offset)
      ensures 0 <= offset <= |Retained(log, max)| ==> out == Rev(Retained(log, max))[offset..]
      ensures offset > |Retained(log, max)| ==> out == []
    {
      hide Ring, SlotEntry;
      var i := offset;
      var t := if n < max then n else max;
      out := [];
      RingShape(keys[..], vals[..], log, max);
      WalkIs(log, max, offset);
      ghost var whole := Walk(log, max, offset);
      assert whole == out + Walk(log, max, i);
      while i < t
        invariant whole == out + Walk(log, max, i)
        decreases t - i
      {
        i := i + 1;
        var j := (n - i) % max;
        SlotHolds(keys[..], vals[..], log, max, j);
        if vals[j].None? {
          assert out + [] == out;
          return;
        }
        SnocCons(out, Entry(keys[j], vals[j].value), Walk(log, max, i));
        out := out + [Entry(keys[j], vals[j].value)];
      }
      assert out + [] == out;
    }

    /** What a loop over `reveach()` sees: oldest first. */
    method RevEach() returns (out: seq<Entry<K, V>>)
      requires Valid()
      ensures out == Retained(log, max)
    {
      var i := 0;
      var t := if n < max then n else max;
      out := [];
      ghost var lo := Low(n, max);
      while i < t
        invariant i <= t && out == log[lo..lo + i]
      {
        var j := (n + i) % t;
        RevSlot(n, max, i);
        assert log[lo..lo + i + 1] == log[lo..lo + i] + [log[lo + i]];
        out := out + [Entry(keys[j], vals[j].value)];
        i := i + 1;
      }
    }

    /** The two iterators yield the same entries in exactly opposite orders. */
    method BothWays() returns (newest: seq<Entry<K, V>>, oldest: seq<Entry<K, V>>)
      requires Valid()
      ensures oldest == Rev(newest) && newest == Rev(oldest) && |newest| == if n < max then n else max
    {
      newest := Each(0);
      oldest := RevEach();
      RevOfRev(oldest);
    }
  }

  // ------------------------------------------------------------ walking the slots

  /** The entry that slot `j` holds. */
  function SlotEntry<K, V>(log: seq<Entry<K, V>>, m: nat, j: nat): Option<Entry<K, V>>
    requires j < m
  {
    if j < |log| then Some(log[|log| - 1 - (|log| - 1 - j) % m]) else None
  }

  /** From step `i` on, slots backwards from the newest one, up to an empty one. */
  function Walk<K, V>(log: seq<Entry<K, V>>, m: nat, i: int): seq<Entry<K, V>>
    requires 0 < m
    decreases |Retained(log, m)| - i
  {
    if i >= |Retained(log, m)| then []
    else
      match SlotEntry(log, m, (|log| - 1 - i) % m)
      case None => []
      case Some(e) => [e] + Walk(log, m, i + 1)
  }

  lemma SlotEntryAt<K, V>(log: seq<Entry<K, V>>, m: nat, p: nat)
    requires 0 < m && Low(|log|, m) <= p < |log|
    ensures SlotEntry(log, m, p % m) == Some(log[p])
  {
    var n, j := |log|, p % m;
    SlotBelow(p, m);
    var b, x := (n - 1 - j) / m, (n - 1 - j) % m;
    var q := n - 1 - x;
    assert q == m * b + j;
    assert b >= 0;
    ModIs(q, m, b, j);
    Window(n, m, p, q);
  }

  lemma SlotBelow(p: nat, m: nat)
    requires 0 < m
    ensures p % m <= p
  {
  }

  /** Two of the last `m` positions in the same slot are one. */
  lemma Window(n: nat, m: nat, p: nat, q: nat)
    requires 0 < m && n - m <= p < n && n - m <= q < n && p % m == q % m
    ensures p == q
  {
    if p < q {
      SlotsDiffer(p, q, m);
    } else if q < p {
      SlotsDiffer(q, p, m);
    }
  }

  lemma SlotHolds<K, V>(keys: seq<Option<K>>, vals: seq<Option<V>>, log: seq<Entry<K, V>>, m: nat, j: nat)
    requires Ring(keys, vals, log, m) && j < m
    ensures match SlotEntry(log, m, j)
      case None => vals[j] == None
      case Some(e) => keys[j] == e.key && vals[j] == Some(e.val)
  {
    hide SlotEntry;
    if j < |log| {
      var p := LiveAt(|log|, m, j);
      SlotEntryAt(log, m, p);
    } else {
      NoSlotEntry(log, m, j);
    }
  }

  lemma NoSlotEntry<K, V>(log: seq<Entry<K, V>>, m: nat, j: nat)
    requires |log| <= j < m
    ensures SlotEntry(log, m, j) == None
  {
  }

  /** An offset that is not negative leaves out that many of the newest entries. */
  lemma {:induction false} WalkIs<K, V>(log: seq<Entry<K, V>>, m: nat, i: int)
    requires 0 < m
    ensures 0 <= i <= |Retained(log, m)| ==> Walk(log, m, i) == Rev(Retained(log, m))[i..]
    ensures i >= |Retained(log, m)| ==> Walk(log, m, i) == []
    decreases |Retained(log, m)| - i
  {
    hide SlotEntry;
    var newest := Rev(Retained(log, m));
    if 0 <= i < |newest| {
      WalkIs(log, m, i + 1);
      SlotEntryAt(log, m, |log| - 1 - i);
      assert newest[i..] == [log[|log| - 1 - i]] + newest[i + 1..];
    }
  }

  /** A negative offset repeats the oldest entries in front of the newest when the ring is full ... */
  lemma {:induction false} WalkWraps<K, V>(log: seq<Entry<K, V>>, m: nat, d: int)
    requires 0 < m <= |log| && 0 <= d <= m
    ensures Walk(log, m, -d) == Rev(Retained(log, m))[m - d..] + Rev(Retained(log, m))
  {
    hide SlotEntry;
    var newest := Rev(Retained(log, m));
    if d == 0 {
      WalkIs(log, m, 0);
    } else {
      WalkWraps(log, m, d - 1);
      var p := |log| - 1 + d - m;
      SlotWraps(p, m);
      SlotEntryAt(log, m, p);
      assert newest[m - d..] == [log[p]] + newest[m - d + 1..];
    }
  }

  /** ... and stops at once at an empty slot while there is one. */
  lemma WalkStops<K, V>(log: seq<Entry<K, V>>, m: nat, d: int)
    requires 0 < d <= m - |log|
    ensures Walk(log, m, -d) == []
  {
    SlotSmall(|log| - 1 + d, m);
  }

  lemma RingShape<K, V>(keys: seq<Option<K>>, vals: seq<Option<V>>, log: seq<Entry<K, V>>, m: nat)
    requires Ring(keys, vals, log, m)
    ensures 0 < m == |keys| == |vals|
  {
  }

  lemma RevSlot(n: nat, m: nat, i: nat)
    requires 0 < m && i < if n < m then n else m
    ensures (n + i) % (if n < m then n else m) == (Low(n, m) + i) % m
  {
    if n < m {
      SlotWraps(i, n);
      SlotSmall(i, n);
      SlotSmall(i, m);
    } else {
      SlotWraps(n - m + i, m);
    }
  }

  lemma RevOfRev<T>(s: seq<T>)
    ensures Rev(Rev(s)) == s
  {
  }

  /** Looking up the newest entry survives a rekey if and only if the rekeyed entry was the only one under its old key
      and no newer one is under the new key. */
  lemma RekeyKeepsNewestIff<K, V, F(!new)>(index: map<F, nat>, log: seq<Entry<K, V>>, m: nat, keyfn: K -> F,
                                           was: K, now: K, p: nat)
    requires IndexNewest(index, log, m, keyfn) && Newest(log, Low(|log|, m), keyfn, keyfn(was)) == Some(p)
    ensures var log' := log[p := Entry(Some(now), log[p].val)];
      IndexNewest((index - {keyfn(was)})[keyfn(now) := p % m], log', m, keyfn) <==>
      (keyfn(was) == keyfn(now)
       || ((forall q :: Low(|log|, m) <= q < p ==> !HasKey(log[q], keyfn, keyfn(was)))
           && (forall q :: p < q < |log| ==> !HasKey(log[q], keyfn, keyfn(now)))))
  {
    hide Newest;
    var index', log' := (index - {keyfn(was)})[keyfn(now) := p % m], log[p := Entry(Some(now), log[p].val)];
    var a, b := keyfn(was), keyfn(now);
    forall f | f != a && f != b ensures NewestAt(index', log', m, keyfn, f) {
      assert NewestAt(index, log, m, keyfn, f);
      SameNewest(log, log', Low(|log|, m), keyfn, f);
    }
    NewestAfterRekey(index', log', m, keyfn, b, p);
    if a != b {
      GoneAfterRekey(index', log, log', m, keyfn, a, p);
    } else {
      assert forall q :: p < q < |log| ==> log'[q] == log[q];
    }
    assert NewestAt(index', log', m, keyfn, a) && NewestAt(index', log', m, keyfn, b)
      ==> forall f :: NewestAt(index', log', m, keyfn, f);
  }

  /** Where it does not survive: the second of two entries under one key is rekeyed, and the first is unreachable. */
  lemma RekeyLosesOlder()
    ensures var log: seq<Entry<nat, nat>> := [Entry(Some(1), 10), Entry(Some(1), 20)];
      var same := (k: nat) => k;
      && IndexNewest(map[1 := 1], log, 2, same) && Newest(log, 0, same, 1) == Some(1)
      && !IndexNewest((map[1 := 1] - {1})[2 := 1], log[1 := Entry(Some(2), 20)], 2, same)
  {
    var log: seq<Entry<nat, nat>> := [Entry(Some(1), 10), Entry(Some(1), 20)];
    var same := (k: nat) => k;
    NewestIs(log, 0, same, 1, 1);
    forall f: nat ensures NewestAt(map[1 := 1], log, 2, same, f) {
      if f != 1 {
        NewestNone(log, 0, same, f);
      }
    }
    RekeyKeepsNewestIff(map[1 := 1], log, 2, same, 1, 2, 1);
    assert HasKey(log[0], same, 1);
  }

  lemma SameNewest<K, V, F>(log: seq<Entry<K, V>>, log': seq<Entry<K, V>>, lo: nat, keyfn: K -> F, f: F)
    requires |log| == |log'| && forall q :: 0 <= q < |log| ==> (HasKey(log[q], keyfn, f) <==> HasKey(log'[q], keyfn, f))
    ensures Newest(log, lo, keyfn, f) == Newest(log', lo, keyfn, f)
  {
    hide Newest, HasKey;
    var r := Newest(log, lo, keyfn, f);
    if r.Some? {
      NewestIs(log', lo, keyfn, f, r.value);
    } else {
      NewestNone(log', lo, keyfn, f);
    }
  }

  lemma NewestAfterRekey<K, V, F>(index: map<F, nat>, log: seq<Entry<K, V>>, m: nat, keyfn: K -> F, f: F, p: nat)
    requires 0 < m && Low(|log|, m) <= p < |log| && HasKey(log[p], keyfn, f) && f in index && index[f] == p % m
    ensures NewestAt(index, log, m, keyfn, f) <==> forall q :: p < q < |log| ==> !HasKey(log[q], keyfn, f)
  {
    hide Newest, HasKey;
    var r := Newest(log, Low(|log|, m), keyfn, f);
    assert r.Some? && r.value >= p;
    if r.value > p {
      SlotsDiffer(p, r.value, m);
    }
  }

  lemma GoneAfterRekey<K, V, F>(index: map<F, nat>, log: seq<Entry<K, V>>, log': seq<Entry<K, V>>, m: nat,
                                keyfn: K -> F, f: F, p: nat)
    requires 0 < m && Newest(log, Low(|log|, m), keyfn, f) == Some(p) && f !in index
    requires |log'| == |log| && !HasKey(log'[p], keyfn, f) && forall q :: 0 <= q < |log| && q != p ==> log'[q] == log[q]
    ensures NewestAt(index, log', m, keyfn, f) <==> forall q :: Low(|log|, m) <= q < p ==> !HasKey(log[q], keyfn, f)
  {
    hide Newest, HasKey;
    var r := Newest(log', Low(|log|, m), keyfn, f);
    var q0 := Newest(log, Low(|log|, m), keyfn, f);
    if forall q :: Low(|log|, m) <= q < p ==> !HasKey(log[q], keyfn, f) {
      NewestNone(log', Low(|log|, m), keyfn, f);
    } else {
      var q :| Low(|log|, m) <= q < p && HasKey(log[q], keyfn, f);
      assert HasKey(log'[q], keyfn, f);
    }
  }
}
