/** The link table built from the replies to LINKS, and the handlers that own it. */
module LinkTable {
  import opened Bytes
  import opened Upstream

  /** One RPL_LINKS: a server and the one it is linked to. */
  datatype Reply = Reply(server: Server, linked: Server)

  function AddLink(links: Links, r: Reply): Links {
    var l := links[r.server := {r.linked}];
    if r.linked in l then l[r.linked := l[r.linked] + {r.server}] else l
  }

  function Table(replies: seq<Reply>): Links {
    if replies == [] then map[]
    else AddLink(Table(replies[..|replies| - 1]), replies[|replies| - 1])
  }

  /** The handlers' state: the table under construction, the last complete one, and the tree. */
  class Network {
    var building: Option<Links>
    var links: Option<Links>
    var upstream: map<Server, Server>
    const primaryHub: Option<Server>
    ghost var replies: seq<Reply>

    ghost predicate Valid()
      reads this
    {
      building == if replies == [] then None else Some(Table(replies))
    }

    constructor (primaryHub: Option<Server>)
      ensures Valid() && this.primaryHub == primaryHub && building == None && upstream == map[]
    {
      this.primaryHub := primaryHub;
      building, links, upstream, replies := None, None, map[], [];
    }

    method RplLinks(server: Server, linked: Server)
      requires Valid()
      modifies this`building, this`replies
      ensures Valid() && replies == old(replies) + [Reply(server, linked)]
      ensures building == Some(Table(replies))
    {
      var l := if building.Some? then building.value else map[];
      l := l[server := {linked}];
      if linked in l {
        l := l[linked := l[linked] + {server}];
      }
      building := Some(l);
      replies := replies + [Reply(server, linked)];
      assert replies[..|replies| - 1] == old(replies);
    }

    /** Raises exactly when there is a hub to start from and no reply came; otherwise builds the tree. */
    method RplEndOfLinks() returns (raised: bool)
      requires Valid()
      modifies this
      ensures Valid() && building == None && replies == [] && links == old(building)
      ensures raised <==> primaryHub.Some? && old(replies) == []
      ensures primaryHub.None? ==> upstream == old(upstream)
      ensures raised ==> upstream == map[primaryHub.value := primaryHub.value]
      ensures primaryHub.Some? && !raised ==> IsUpstreamTree(Table(old(replies)), primaryHub.value, upstream)
    {
      links := building;
      building, replies := None, [];
      raised := false;
      if primaryHub.Some? {
        if links.None? {
          upstream := map[primaryHub.value := primaryHub.value];
          raised := true;
        } else {
          upstream := Search(links.value, primaryHub.value);
        }
      }
    }
  }

  // ------------------------------------------------------------ what the table says

  /** Reply `i` is the last one about its server. */
  predicate LastAbout(replies: seq<Reply>, i: nat)
    requires i < |replies|
  {
    forall j :: i < j < |replies| ==> replies[j].server != replies[i].server
  }

  /** `s` is linked to what its last reply says, and to every server that named it since. */
  ghost predicate Linked(replies: seq<Reply>, s: Server, x: Server) {
    exists i: nat :: i < |replies| && replies[i].server == s && Accounts(replies, i, x)
  }

  ghost predicate Mentioned(replies: seq<Reply>, s: Server) {
    exists i :: 0 <= i < |replies| && replies[i].server == s
  }

  lemma MentionedSnoc(replies: seq<Reply>, r: Reply, s: Server)
    ensures Mentioned(replies + [r], s) <==> Mentioned(replies, s) || s == r.server
  {
    var all, n := replies + [r], |replies|;
    assert all[n] == r;
    if Mentioned(replies, s) {
      var i :| 0 <= i < n && replies[i].server == s;
      assert all[i].server == s;
    }
  }

  lemma LastAboutSnoc(replies: seq<Reply>, r: Reply, i: nat)
    requires i < |replies|
    ensures LastAbout(replies + [r], i) <==> LastAbout(replies, i) && replies[i].server != r.server
  {
    var all, n := replies + [r], |replies|;
    assert all[n] == r;
    assert forall j :: 0 <= j < n ==> all[j] == replies[j];
  }

  /** Reply `i` accounts for the link from its server to `x`. */
  ghost predicate Accounts(replies: seq<Reply>, i: nat, x: Server)
    requires i < |replies|
  {
    LastAbout(replies, i)
      && (x == replies[i].linked || exists j :: i < j < |replies| && replies[j] == Reply(x, replies[i].server))
  }

  lemma AccountsSnoc(replies: seq<Reply>, r: Reply, i: nat, x: Server)
    requires i < |replies|
    ensures Accounts(replies + [r], i, x) <==>
      (replies[i].server != r.server
       && (Accounts(replies, i, x) || (LastAbout(replies, i) && r == Reply(x, replies[i].server))))
  {
    hide LastAbout;
    var all, n := replies + [r], |replies|;
    LastAboutSnoc(replies, r, i);
    assert all[n] == r && all[i] == replies[i];
    assert forall j :: 0 <= j < n ==> all[j] == replies[j];
    if Accounts(replies, i, x) && x != replies[i].linked {
      var j :| i < j < n && replies[j] == Reply(x, replies[i].server);
      assert all[j] == Reply(x, all[i].server);
    }
  }

  lemma LinkedSnoc(replies: seq<Reply>, r: Reply, s: Server, x: Server)
    ensures Linked(replies + [r], s, x) <==>
      if s == r.server then x == r.linked
      else Linked(replies, s, x) || (r == Reply(x, s) && Mentioned(replies, s))
  {
    hide Accounts;
    var all, n := replies + [r], |replies|;
    LastReply(all, x);
    assert all[n] == r && forall i :: 0 <= i < n ==> all[i] == replies[i];
    forall i: nat | i < n ensures Accounts(all, i, x) <==>
      (replies[i].server != r.server
       && (Accounts(replies, i, x) || (LastAbout(replies, i) && r == Reply(x, replies[i].server))))
    {
      AccountsSnoc(replies, r, i, x);
    }
    if s == r.server {
      assert Accounts(all, n, x) <==> x == r.linked;
    } else {
      if Linked(replies, s, x) {
        var i: nat :| i < n && replies[i].server == s && Accounts(replies, i, x);
        assert Accounts(all, i, x);
      }
      if r == Reply(x, s) && Mentioned(replies, s) {
        var i := Latest(replies, s);
        assert Accounts(all, i, x);
      }
    }
  }

  lemma LastReply(replies: seq<Reply>, x: Server)
    requires replies != []
    ensures Accounts(replies, |replies| - 1, x) <==> x == replies[|replies| - 1].linked
  {
  }

  lemma {:induction false} Latest(replies: seq<Reply>, s: Server) returns (i: nat)
    requires Mentioned(replies, s)
    ensures i < |replies| && replies[i].server == s && LastAbout(replies, i)
  {
    var n := |replies| - 1;
    if replies[n].server == s {
      i := n;
    } else {
      var k :| 0 <= k < |replies| && replies[k].server == s;
      assert replies[..n][k].server == s;
      i := Latest(replies[..n], s);
      forall j | i < j < |replies| ensures replies[j].server != replies[i].server {
        assert j < n ==> replies[..n][j] == replies[j];
      }
    }
  }

  /** The table, for every list of replies: a link is kept from either end only as far as their order allows. */
  lemma {:induction false} TableIs(replies: seq<Reply>, s: Server, x: Server)
    ensures s in Table(replies) <==> Mentioned(replies, s)
    ensures x in Neighbours(Table(replies), s) <==> Linked(replies, s, x)
  {
    if replies != [] {
      var init, r := replies[..|replies| - 1], replies[|replies| - 1];
      assert replies == init + [r];
      TableIs(init, s, x);
      MentionedSnoc(init, r, s);
      LinkedSnoc(init, r, s, x);
    }
  }

  /** A leaf reported before its hub: the hub's row comes later without it, and no tree from the hub has the leaf. */
  lemma LeafFirst(hub: Server, leaf: Server, upstream: map<Server, Server>)
    requires hub != leaf
    ensures var links := Table([Reply(leaf, hub), Reply(hub, hub)]);
      && Neighbours(links, leaf) == {hub} == Neighbours(links, hub)
      && (IsUpstreamTree(links, hub, upstream) ==> leaf !in upstream)
  {
    var replies := [Reply(leaf, hub), Reply(hub, hub)];
    assert replies[..1] == [Reply(leaf, hub)] && [Reply(leaf, hub)][..0] == [];
    var links := Table(replies);
    assert Table(replies[..1]) == map[leaf := {hub}] && {hub} + {hub} == {hub};
    assert links == map[leaf := {hub}, hub := {hub}];
    if IsUpstreamTree(links, hub, upstream) && leaf in upstream {
      assert leaf in Neighbours(links, upstream[leaf]);
    }
  }

  // ------------------------------------------------------------ replies in tree order

  /** Every server is reported once, after the one it is linked to; the first is linked to itself. */
  predicate ParentFirst(replies: seq<Reply>) {
    && (forall i, j :: 0 <= i < j < |replies| ==> replies[i].server != replies[j].server)
    && (forall i :: 0 <= i < |replies| ==>
      if i == 0 then replies[i].linked == replies[i].server
      else exists j :: 0 <= j < i && replies[i].linked == replies[j].server)
  }

  lemma ReachesThrough(links: Links, a: Server, b: Server, c: Server)
    requires Reaches(links, a, b) && Reaches(links, b, c)
    ensures Reaches(links, a, c)
  {
    var p :| Path(links, a, b, p);
    var q :| Path(links, b, c, q);
    var r := p + q[1..];
    forall i | 0 <= i < |r| - 1 ensures r[i + 1] in Neighbours(links, r[i]) {
      if i >= |p| - 1 {
        var k := i - (|p| - 1);
        assert r[i] == q[k] && r[i + 1] == q[k + 1];
      }
    }
    assert Path(links, a, c, r);
  }

  lemma ReachesNext(links: Links, a: Server, b: Server)
    requires b in Neighbours(links, a)
    ensures Reaches(links, a, b)
  {
    assert Path(links, a, b, [a, b]);
  }

  /** Each server reported reaches the first one and is reached from it. */
  lemma {:induction false} ReachesRoot(replies: seq<Reply>, i: nat)
    requires ParentFirst(replies) && i < |replies|
    ensures Reaches(Table(replies), replies[i].server, replies[0].server)
    ensures Reaches(Table(replies), replies[0].server, replies[i].server)
  {
    hide Table;
    var links, root, s := Table(replies), replies[0].server, replies[i].server;
    if i == 0 {
      assert Path(links, root, root, [root]);
    } else {
      var j :| 0 <= j < i && replies[i].linked == replies[j].server;
      var parent := replies[j].server;
      ReachesRoot(replies, j);
      TableIs(replies, s, parent);
      TableIs(replies, parent, s);
      assert replies[i] == Reply(s, parent);
      assert Accounts(replies, i, parent) && Accounts(replies, j, s);
      ReachesNext(links, s, parent);
      ReachesNext(links, parent, s);
      ReachesThrough(links, s, parent, root);
      ReachesThrough(links, root, parent, s);
    }
  }

  /** In tree order the tree covers the whole network, whichever listed server is the hub. */
  lemma TreeCoversAll(replies: seq<Reply>, hub: Server, upstream: map<Server, Server>, s: Server)
    requires ParentFirst(replies) && Mentioned(replies, hub) && Mentioned(replies, s)
    requires IsUpstreamTree(Table(replies), hub, upstream)
    ensures s in upstream
  {
    var i :| 0 <= i < |replies| && replies[i].server == hub;
    var j :| 0 <= j < |replies| && replies[j].server == s;
    ReachesRoot(replies, i);
    ReachesRoot(replies, j);
    ReachesThrough(Table(replies), hub, replies[0].server, s);
  }
}
