/** The counters of one named group of networks. */
module NetTrackers {
  import opened Bytes
  import opened MaskTrackers

  datatype Label = Label(text: string)
  datatype Network = Network(address: seq<byte>, prefix: nat)
  datatype Sighting = Sighting(address: seq<byte>, i: int)

  ghost predicate Covered(nets: map<Label, Network>, address: seq<byte>) {
    exists l :: l in nets && InNetwork(address, nets[l].address, nets[l].prefix)
  }

  lemma CoveredBy(nets: map<Label, Network>, address: seq<byte>, l: Label)
    requires l in nets && InNetwork(address, nets[l].address, nets[l].prefix)
    ensures Covered(nets, address)
  {
  }

  lemma NotCovered(nets: map<Label, Network>, address: seq<byte>)
    requires forall l :: l in nets ==> !InNetwork(address, nets[l].address, nets[l].prefix)
    ensures !Covered(nets, address)
  {
  }

  /** What the sightings add up to when each counts once if any network covers it. */
  ghost function Change(nets: map<Label, Network>, events: seq<Sighting>): int {
    if events == [] then 0 else
      var e := events[|events| - 1];
      Change(nets, events[..|events| - 1]) + if Covered(nets, e.address) then e.i else 0
  }

  // ------------------------------------------------------------ sums in any order

  ghost function Sum(counts: map<Label, int>, keys: set<Label>): int
    requires keys <= counts.Keys
  {
    if keys == {} then 0 else
      var l :| l in keys;
      counts[l] + Sum(counts, keys - {l})
  }

  /** Any label may be taken first. */
  lemma {:induction false} SumFrom(counts: map<Label, int>, keys: set<Label>, l: Label)
    requires keys <= counts.Keys && l in keys
    ensures Sum(counts, keys) == counts[l] + Sum(counts, keys - {l})
    decreases keys
  {
    var m :| m in keys && Sum(counts, keys) == counts[m] + Sum(counts, keys - {m});
    if m != l {
      SumFrom(counts, keys - {m}, l);
      SumFrom(counts, keys - {l}, m);
      assert keys - {m} - {l} == keys - {l} - {m};
    }
  }

  lemma {:induction false} SumSame(a: map<Label, int>, b: map<Label, int>, keys: set<Label>)
    requires keys <= a.Keys && keys <= b.Keys && forall l :: l in keys ==> a[l] == b[l]
    ensures Sum(a, keys) == Sum(b, keys)
    decreases keys
  {
    if keys != {} {
      var l :| l in keys;
      SumFrom(a, keys, l);
      SumFrom(b, keys, l);
      SumSame(a, b, keys - {l});
    }
  }

  /** A total changes by what one of its counters changes. */
  lemma TotalStep(a: map<Label, int>, b: map<Label, int>, l: Label)
    requires a.Keys == b.Keys && l in a && forall k :: k in a && k != l ==> a[k] == b[k]
    ensures Sum(b, b.Keys) == Sum(a, a.Keys) - a[l] + b[l]
  {
    SumFrom(a, a.Keys, l);
    SumFrom(b, b.Keys, l);
    SumSame(a, b, a.Keys - {l});
  }

  lemma TotalAdded(a: map<Label, int>, b: map<Label, int>, l: Label)
    requires l !in a && b == a[l := 0]
    ensures Sum(b, b.Keys) == Sum(a, a.Keys)
  {
    SumFrom(b, b.Keys, l);
    assert b.Keys - {l} == a.Keys;
    SumSame(a, b, a.Keys);
  }

  ghost predicate Distinct(masks: map<Label, MaskTracker>) {
    forall l, m :: l in masks && m in masks && masks[l] == masks[m] ==> l == m
  }

  lemma DistinctUpdate(masks: map<Label, MaskTracker>, name: Label, mask: MaskTracker)
    requires Distinct(masks) && mask !in masks.Values
    ensures Distinct(masks[name := mask])
  {
    var after := masks[name := mask];
    forall l, m | l in after && m in after && after[l] == after[m] ensures l == m {
      assert l != name ==> masks[l] in masks.Values;
      assert m != name ==> masks[m] in masks.Values;
    }
  }

  class NetTracker {
    var masks: map<Label, MaskTracker>
    ghost var nets: map<Label, Network>

    /** Each label has its own tracker, and it tracks the network of that label. */
    ghost predicate Valid()
      reads this, masks.Values
    {
      && masks.Keys == nets.Keys
      && (forall l :: l in masks ==> masks[l].For(nets[l].address, nets[l].prefix))
      && Distinct(masks)
    }

    ghost function Counts(): (c: map<Label, int>)
      reads this, masks.Values
    {
      map l | l in masks :: masks[l].count
    }

    ghost function Total(): int
      reads this, masks.Values
    {
      Sum(Counts(), Counts().Keys)
    }

    constructor ()
      ensures Valid() && nets == map[] && Counts() == map[]
    {
      masks, nets := map[], map[];
    }

    /** Fails, changing nothing, where the mask constructor raises. */
    method Track(name: Label, address: seq<byte>, prefix: nat) returns (ok: bool)
      requires Valid()
      modifies this
      ensures Valid()
      ensures ok <==> HasTail(address, prefix)
      ensures nets == if ok then old(nets)[name := Network(address, prefix)] else old(nets)
      ensures Counts() == if ok then old(Counts())[name := 0] else old(Counts())
      ensures Total() == old(Total()) - if ok && name in old(nets) then old(Counts())[name] else 0
    {
      hide Sum, HasTail, MaskTracker.For, Distinct;
      ok := HasTail(address, prefix);
      if ok {
        var mask := new MaskTracker(address, prefix);
        DistinctUpdate(masks, name, mask);
        masks := masks[name := mask];
        nets := nets[name := Network(address, prefix)];
        if name in old(nets) {
          TotalStep(old(Counts()), Counts(), name);
        } else {
          TotalAdded(old(Counts()), Counts(), name);
        }
      }
    }

    method Set(name: Label, count: int)
      requires Valid()
      modifies masks.Values`count
      ensures Valid()
      ensures Counts() == if name in nets then old(Counts())[name := count] else old(Counts())
      ensures Total() == old(Total()) + if name in nets then count - old(Counts())[name] else 0
    {
      hide Sum;
      if name in masks {
        masks[name].count := count;
        TotalStep(old(Counts()), Counts(), name);
      }
    }

    /** The table is walked in an arbitrary order and at most one counter moves. */
    method Delta(address: seq<byte>, i: int)
      requires Valid()
      modifies masks.Values`count
      ensures Valid()
      ensures Total() == old(Total()) + if Covered(nets, address) then i else 0
      ensures !Covered(nets, address) ==> Counts() == old(Counts())
      ensures Covered(nets, address) ==>
                exists l :: l in nets && InNetwork(address, nets[l].address, nets[l].prefix)
                            && Counts() == old(Counts())[l := old(Counts())[l] + i]
    {
      hide Sum, InNetwork, Covered, MaskTracker.For;
      var rest := masks.Keys;
      while rest != {}
        invariant rest <= masks.Keys
        invariant forall l :: l in masks && l !in rest ==> !InNetwork(address, nets[l].address, nets[l].prefix)
        invariant unchanged(masks.Values)
      {
        var l :| l in rest;
        var hit := masks[l].Match(address, nets[l].address, nets[l].prefix);
        if hit {
          masks[l].Delta(i);
          assert Counts() == old(Counts())[l := old(Counts())[l] + i];
          TotalStep(old(Counts()), Counts(), l);
          CoveredBy(nets, address, l);
          return;
        }
        rest := rest - {l};
      }
      NotCovered(nets, address);
    }

    method Count() returns (n: int)
      requires Valid()
      ensures n == Total()
    {
      n := 0;
      var rest := masks.Keys;
      ghost var counts := Counts();
      assert counts.Keys == rest;
      while rest != {}
        invariant rest <= counts.Keys
        invariant n + Sum(counts, rest) == Total()
        modifies {}
      {
        var l :| l in rest;
        SumFrom(counts, rest, l);
        n := n + masks[l].count;
        rest := rest - {l};
      }
    }

    /** Any run of sightings with fixed masks. */
    method Watch(events: seq<Sighting>)
      requires Valid()
      modifies masks.Values`count
      ensures Valid()
      ensures Total() == old(Total()) + Change(nets, events)
    {
      hide Sum, Covered, MaskTracker.For;
      for k := 0 to |events|
        invariant Valid()
        invariant Total() == old(Total()) + Change(nets, events[..k])
      {
        assert events[..k + 1][..k] == events[..k];
        Delta(events[k].address, events[k].i);
      }
      assert events[..|events|] == events;
    }
  }
}
