/** The upstream tree of the server network: breadth-first search over a queue that grows while it is walked. */
module Upstream {
  datatype Server = Server(name: string)

  type Links = map<Server, set<Server>>

  function Neighbours(links: Links, s: Server): set<Server> {
    if s in links then links[s] else {}
  }

  // ------------------------------------------------------------ what the tree should be

  /** `p` is a way from `a` to `b` along the links; it has `|p| - 1` hops. */
  ghost predicate Path(links: Links, a: Server, b: Server, p: seq<Server>) {
    |p| > 0 && p[0] == a && p[|p| - 1] == b && forall i :: 0 <= i < |p| - 1 ==> p[i + 1] in Neighbours(links, p[i])
  }

  ghost predicate Reaches(links: Links, a: Server, b: Server) {
    exists p :: Path(links, a, b, p)
  }

  ghost predicate ShortestIs(links: Links, a: Server, b: Server, n: nat) {
    && (exists p :: Path(links, a, b, p) && |p| == n + 1)
    && (forall p :: Path(links, a, b, p) ==> |p| >= n + 1)
  }

  /** Following `upstream` from `x` meets the hub for the first time after exactly `n` steps. */
  ghost predicate ClimbsIn(upstream: map<Server, Server>, hub: Server, x: Server, n: nat)
    decreases n
  {
    if x == hub then n == 0
    else n > 0 && x in upstream && ClimbsIn(upstream, hub, upstream[x], n - 1)
  }

  ghost predicate IsUpstreamTree(links: Links, hub: Server, upstream: map<Server, Server>) {
    && (forall x :: x in upstream <==> Reaches(links, hub, x))
    && (forall x | x in upstream :: exists n: nat :: ClimbsIn(upstream, hub, x, n) && ShortestIs(links, hub, x, n))
    && hub in upstream && upstream[hub] == hub
    && (forall x | x in upstream && x != hub :: x in Neighbours(links, upstream[x]))
  }

  // ------------------------------------------------------------ the search

  function Servers(links: Links, hub: Server): set<Server> {
    {hub} + set s, k | k in links && s in links[k] :: s
  }

  /** What is known of the servers met so far: a distance for each, one more than that of its upstream server. */
  ghost predicate Tree(links: Links, hub: Server, up: map<Server, Server>, dist: map<Server, nat>) {
    && up.Keys == dist.Keys <= Servers(links, hub)
    && hub in up && up[hub] == hub && dist[hub] == 0
    && (forall x | x in up && x != hub ::
      up[x] in up && x in Neighbours(links, up[x]) && dist[x] == dist[up[x]] + 1)
  }

  /** The queue holds the servers met, by distance; `d` bounds how far it has come. */
  ghost predicate Queue(up: map<Server, Server>, dist: map<Server, nat>, q: seq<Server>, d: nat)
    requires up.Keys == dist.Keys
  {
    && (forall x :: x in q <==> x in up)
    && (forall j, k :: 0 <= j < k < |q| ==> dist[q[j]] <= dist[q[k]])
    && (forall j :: 0 <= j < |q| ==> dist[q[j]] <= d + 1)
  }

  /** The links of `s` have been looked at, except those in `todo`. */
  ghost predicate Explored(links: Links, dist: map<Server, nat>, s: Server, todo: set<Server>)
    requires s in dist
  {
    forall v | v in Neighbours(links, s) && v !in todo :: v in dist && dist[v] <= dist[s] + 1
  }

  ghost predicate Extends(dist: map<Server, nat>, dist': map<Server, nat>) {
    forall x :: x in dist ==> x in dist' && dist'[x] == dist[x]
  }

  ghost predicate Grows(q: seq<Server>, q': seq<Server>) {
    |q| <= |q'| && forall j :: 0 <= j < |q| ==> q'[j] == q[j]
  }

  lemma Grow(links: Links, hub: Server, up: map<Server, Server>, dist: map<Server, nat>, here: Server, k: Server)
    requires Tree(links, hub, up, dist) && here in up && k in Neighbours(links, here) && k !in up
    ensures Tree(links, hub, up[k := here], dist[k := dist[here] + 1])
    ensures |Servers(links, hub) - up[k := here].Keys| == |Servers(links, hub) - up.Keys| - 1
  {
    assert k in links[here];
    assert k in Servers(links, hub);
    hide Servers;
    assert Servers(links, hub) - up[k := here].Keys == (Servers(links, hub) - up.Keys) - {k};
  }

  lemma Enqueue(up: map<Server, Server>, dist: map<Server, nat>, q: seq<Server>, here: Server, k: Server)
    requires up.Keys == dist.Keys && here in up && Queue(up, dist, q, dist[here]) && k !in up
    ensures Queue(up[k := here], dist[k := dist[here] + 1], q + [k], dist[here])
  {
    var up', dist', q' := up[k := here], dist[k := dist[here] + 1], q + [k];
    forall x ensures x in q' <==> x in up' {
      assert x in q' <==> x in q || x == k;
    }
    forall j | 0 <= j < |q'| ensures q'[j] in up' && dist'[q'[j]] <= dist[here] + 1 {
      assert j < |q| ==> q[j] in q;
    }
    forall j, l | 0 <= j < l < |q'| ensures dist'[q'[j]] <= dist'[q'[l]] {
      assert q[j] in q;
      assert l < |q| ==> q[l] in q;
    }
  }

  /** The inner loop: look at every link of `here`, in whatever order the table yields them. */
  method Explore(links: Links, ghost hub: Server, here: Server, up: map<Server, Server>, ghost dist: map<Server, nat>,
                 q: seq<Server>)
      returns (up': map<Server, Server>, ghost dist': map<Server, nat>, q': seq<Server>)
    requires Tree(links, hub, up, dist) && here in up && Queue(up, dist, q, dist[here])
    ensures Tree(links, hub, up', dist') && here in up' && up'.Keys == dist'.Keys && Queue(up', dist', q', dist'[here])
    ensures Extends(dist, dist') && Grows(q, q') && Explored(links, dist', here, {})
    ensures |Servers(links, hub) - up'.Keys| + |q'| == |Servers(links, hub) - up.Keys| + |q|
  {
    hide Tree, Queue, Servers;
    up', dist', q' := up, dist, q;
    Sane(links, hub, up', dist');
    var todo := Neighbours(links, here);
    while todo != {}
      invariant up'.Keys == dist'.Keys && here in up'
      invariant Tree(links, hub, up', dist') && Queue(up', dist', q', dist'[here])
      invariant todo <= Neighbours(links, here) && Extends(dist, dist') && Grows(q, q')
      invariant Explored(links, dist', here, todo)
      invariant |Servers(links, hub) - up'.Keys| + |q'| == |Servers(links, hub) - up.Keys| + |q|
    {
      var k :| k in todo;
      if k !in up' {
        Grow(links, hub, up', dist', here, k);
        Enqueue(up', dist', q', here, k);
        up', dist', q' := up'[k := here], dist'[k := dist'[here] + 1], q' + [k];
      } else {
        Near(up', dist', q', here, k);
      }
      todo := todo - {k};
    }
  }

  lemma Sane(links: Links, hub: Server, up: map<Server, Server>, dist: map<Server, nat>)
    requires Tree(links, hub, up, dist)
    ensures up.Keys == dist.Keys && hub in up && dist[hub] == 0
  {
  }

  lemma Near(up: map<Server, Server>, dist: map<Server, nat>, q: seq<Server>, here: Server, k: Server)
    requires up.Keys == dist.Keys && here in up && Queue(up, dist, q, dist[here]) && k in up
    ensures dist[k] <= dist[here] + 1
  {
    var j :| 0 <= j < |q| && q[j] == k;
  }

  lemma Start(links: Links, hub: Server, up: map<Server, Server>, dist: map<Server, nat>, q: seq<Server>)
    requires up == map[hub := hub] && dist == map[hub := 0] && q == [hub]
    ensures Tree(links, hub, up, dist) && Queue(up, dist, q, 0)
  {
  }

  /** The first `i` servers of the queue are done. */
  ghost predicate ExploredTo(links: Links, dist: map<Server, nat>, q: seq<Server>, i: nat) {
    i <= |q| && forall j :: 0 <= j < i ==> q[j] in dist && Explored(links, dist, q[j], {})
  }

  lemma StillExplored(links: Links, dist: map<Server, nat>, dist': map<Server, nat>,
                      q: seq<Server>, q': seq<Server>, i: nat)
    requires ExploredTo(links, dist, q, i) && Extends(dist, dist') && Grows(q, q')
    requires i < |q| && q[i] in dist' && Explored(links, dist', q[i], {})
    ensures ExploredTo(links, dist', q', i + 1)
  {
  }

  lemma Ordered(up: map<Server, Server>, dist: map<Server, nat>, q: seq<Server>, d: nat, i: nat)
    requires up.Keys == dist.Keys && Queue(up, dist, q, d) && 0 < i && i - 1 < |q|
    requires q[i - 1] in dist && dist[q[i - 1]] == d
    ensures i < |q| ==> q[i] in dist && d <= dist[q[i]]
  {
    if i < |q| {
      assert q[i] in q;
    }
  }

  lemma Members(up: map<Server, Server>, dist: map<Server, nat>, q: seq<Server>, d: nat)
    requires up.Keys == dist.Keys && Queue(up, dist, q, d)
    ensures forall x :: x in q <==> x in up
  {
  }

  /** The queue is ready for its next server. */
  lemma Advance(up: map<Server, Server>, dist: map<Server, nat>, q: seq<Server>, d: nat, i: nat)
    requires up.Keys == dist.Keys && Queue(up, dist, q, d) && i < |q|
    requires q[i] in dist ==> d <= dist[q[i]]
    ensures q[i] in up && Queue(up, dist, q, dist[q[i]])
  {
    assert q[i] in q;
  }

  method Search(links: Links, hub: Server) returns (upstream: map<Server, Server>)
    ensures IsUpstreamTree(links, hub, upstream)
  {
    upstream := map[hub := hub];
    ghost var dist: map<Server, nat> := map[hub := 0];
    var q := [hub];
    var i := 0;
    ghost var d := 0;
    Start(links, hub, upstream, dist, q);
    hide Tree, Queue, Servers, Explored, ExploredTo, Extends, IsUpstreamTree;
    while i < |q|
      invariant i <= |q| && upstream.Keys == dist.Keys
      invariant Tree(links, hub, upstream, dist) && Queue(upstream, dist, q, d)
      invariant i < |q| ==> q[i] in dist && d <= dist[q[i]]
      invariant ExploredTo(links, dist, q, i)
      decreases |Servers(links, hub) - upstream.Keys| + |q| - i
    {
      var here := q[i];
      Advance(upstream, dist, q, d, i);
      d := dist[here];
      ghost var was, q0 := dist, q;
      upstream, dist, q := Explore(links, hub, here, upstream, dist, q);
      StillExplored(links, was, dist, q0, q, i);
      Sane(links, hub, upstream, dist);
      i := i + 1;
      Ordered(upstream, dist, q, d, i);
    }
    Members(upstream, dist, q, d);
    TreeIsShortest(links, hub, upstream, dist, q);
  }

  // ------------------------------------------------------------ why the result is the tree

  /** The upstream chain of `x`, read from the hub down. */
  lemma {:induction false} PathDown(links: Links, hub: Server, up: map<Server, Server>, dist: map<Server, nat>,
                                    x: Server)
      returns (p: seq<Server>)
    requires Tree(links, hub, up, dist) && x in up
    ensures Path(links, hub, x, p) && |p| == dist[x] + 1
    ensures ClimbsIn(up, hub, x, dist[x])
    decreases dist[x]
  {
    if x == hub {
      p := [hub];
    } else {
      p := PathDown(links, hub, up, dist, up[x]);
      p := p + [x];
    }
  }

  /** When every server met has been explored, nothing is closer than its distance says. */
  lemma {:induction false} NoShorter(links: Links, hub: Server, dist: map<Server, nat>, x: Server, p: seq<Server>)
    requires hub in dist && dist[hub] == 0
    requires forall s | s in dist :: Explored(links, dist, s, {})
    requires Path(links, hub, x, p)
    ensures x in dist && dist[x] <= |p| - 1
    decreases |p|
  {
    if |p| > 1 {
      var last := |p| - 1;
      assert p[last - 1 + 1] in Neighbours(links, p[last - 1]);
      NoShorter(links, hub, dist, p[last - 1], p[..last]);
      assert Explored(links, dist, p[last - 1], {});
    }
  }

  lemma TreeIsShortest(links: Links, hub: Server, up: map<Server, Server>, dist: map<Server, nat>, q: seq<Server>)
    requires Tree(links, hub, up, dist)
    requires forall x :: x in q <==> x in up
    requires ExploredTo(links, dist, q, |q|)
    ensures IsUpstreamTree(links, hub, up)
  {
    forall s | s in dist ensures Explored(links, dist, s, {}) {
      assert s in q;
    }
    forall x ensures x in up <==> Reaches(links, hub, x) {
      if x in up {
        var p := PathDown(links, hub, up, dist, x);
      }
      if p :| Path(links, hub, x, p) {
        NoShorter(links, hub, dist, x, p);
      }
    }
    forall x | x in up ensures exists n: nat :: ClimbsIn(up, hub, x, n) && ShortestIs(links, hub, x, n) {
      var p := PathDown(links, hub, up, dist, x);
      forall p' | Path(links, hub, x, p') ensures |p'| >= dist[x] + 1 {
        NoShorter(links, hub, dist, x, p');
      }
      assert ShortestIs(links, hub, x, dist[x]);
    }
  }
}
