/** Who is in which channel: the client's tables against the server that feeds them. */
module Membership {
  import opened Bytes

  type Nick = seq<byte>

  /** `irccase`: letters and the four bracket pairs that count as letters go to upper case. */
  function FoldByte(c: byte): byte {
    if 97 <= c <= 126 then c - 32 else c
  }

  datatype Key = Key(folded: seq<byte>)

  function Fold(name: Nick): Key {
    Key(seq(|name|, i requires 0 <= i < |name| => FoldByte(name[i])))
  }

  /** A lower-case character and its upper-case one: the letters, and braces, bar and tilde over brackets, backslash
      and caret. */
  predicate CasePair(lower: byte, upper: byte) {
    || ('a' as int <= lower as int <= 'z' as int && upper as int == lower as int - 'a' as int + 'A' as int)
    || (lower as int == '{' as int && upper as int == '[' as int)
    || (lower as int == '|' as int && upper as int == '\\' as int)
    || (lower as int == '}' as int && upper as int == ']' as int)
    || (lower as int == '~' as int && upper as int == '^' as int)
  }

  predicate SameButForCase(x: byte, y: byte) {
    x == y || CasePair(x, y) || CasePair(y, x)
  }

  lemma FoldByteIs(x: byte, y: byte)
    ensures FoldByte(x) == FoldByte(y) <==> SameButForCase(x, y)
    ensures FoldByte(FoldByte(x)) == FoldByte(x) && (CasePair(x, y) ==> FoldByte(x) == y)
  {
  }

  /** Names are the same key exactly when they differ in nothing but case, and folding is done once and for all. */
  lemma FoldSameIff(a: Nick, b: Nick)
    ensures Fold(a) == Fold(b) <==> |a| == |b| && forall i :: 0 <= i < |a| ==> SameButForCase(a[i], b[i])
    ensures Fold(Fold(a).folded) == Fold(a)
  {
    hide FoldByte, SameButForCase;
    var f, g := Fold(a).folded, Fold(b).folded;
    forall i | 0 <= i < |a|
      ensures FoldByte(f[i]) == f[i]
      ensures i < |b| ==> (f[i] == g[i] <==> SameButForCase(a[i], b[i]))
    {
      FoldByteIs(a[i], if i < |b| then b[i] else 0);
    }
    assert Fold(f).folded == f;
    if |a| == |b| && forall i :: 0 <= i < |a| ==> SameButForCase(a[i], b[i]) {
      assert f == g;
    }
  }

  // ------------------------------------------------------------ the server's side

  /** `unlisted` holds, for each channel of ours, the members that its NAMES replies have not named yet. */
  datatype World = World(me: Key, online: map<Key, Nick>, chans: map<Key, set<Key>>, unlisted: map<Key, set<Key>>)

  datatype Event =
    | Connect(nick: Nick)
    | Join(who: Key, chan: Nick)
    | Names(chan: Nick, listed: seq<Key>)
    | Part(who: Key, chan: Nick)
    | Kick(chan: Nick, who: Key)
    | Quit(who: Key)
    | Rename(who: Key, nick: Nick)

  function Members(w: World, c: Key): set<Key> {
    if c in w.chans then w.chans[c] else {}
  }

  predicate Joined(w: World, c: Key) {
    w.me in Members(w, c)
  }

  function Unlisted(w: World, c: Key): set<Key> {
    if c in w.unlisted then w.unlisted[c] else {}
  }

  ghost predicate WorldOk(w: World) {
    && w.me in w.online
    && (forall k :: k in w.online ==> Fold(w.online[k]) == k)
    && (forall c :: Members(w, c) <= w.online.Keys)
    && (forall c :: Unlisted(w, c) <= Members(w, c) - {w.me})
    && (forall c :: Unlisted(w, c) != {} ==> Joined(w, c))
  }

  /** What a server whose nicks are unique up to case can do. */
  predicate Legal(w: World, e: Event) {
    match e
    case Connect(nick) => Fold(nick) !in w.online
    case Join(k, chan) => k in w.online && k !in Members(w, Fold(chan))
    case Names(chan, listed) =>
      Joined(w, Fold(chan)) && forall i :: 0 <= i < |listed| ==> listed[i] in Members(w, Fold(chan))
    case Part(k, chan) => k in Members(w, Fold(chan))
    case Kick(chan, k) => k in Members(w, Fold(chan))
    case Quit(k) => k in w.online && k != w.me
    case Rename(k, nick) => k in w.online && (Fold(nick) == k || Fold(nick) !in w.online)
  }

  function Swap(s: set<Key>, a: Key, b: Key): set<Key> {
    if a in s then s - {a} + {b} else s
  }

  function Leave(w: World, k: Key, c: Key): World {
    w.(chans := w.chans[c := Members(w, c) - {k}],
       unlisted := w.unlisted[c := if k == w.me then {} else Unlisted(w, c) - {k}])
  }

  function Next(w: World, e: Event): World
    requires Legal(w, e)
  {
    match e
    case Connect(nick) => w.(online := w.online[Fold(nick) := nick])
    case Join(k, chan) =>
      var c := Fold(chan);
      w.(chans := w.chans[c := Members(w, c) + {k}],
         unlisted := if k == w.me then w.unlisted[c := Members(w, c)] else w.unlisted)
    case Names(chan, listed) =>
      var c := Fold(chan);
      w.(unlisted := w.unlisted[c := Unlisted(w, c) - set i | 0 <= i < |listed| :: listed[i]])
    case Part(k, chan) => Leave(w, k, Fold(chan))
    case Kick(chan, k) => Leave(w, k, Fold(chan))
    case Quit(k) =>
      w.(online := w.online - {k},
         chans := map c | c in w.chans :: w.chans[c] - {k},
         unlisted := map c | c in w.unlisted :: w.unlisted[c] - {k})
    case Rename(k, nick) =>
      var k' := Fold(nick);
      w.(me := if k == w.me then k' else w.me,
         online := (w.online - {k})[k' := nick],
         chans := map c | c in w.chans :: Swap(w.chans[c], k, k'),
         unlisted := map c | c in w.unlisted :: Swap(w.unlisted[c], k, k'))
  }

  predicate Shares(w: World, k: Key) {
    exists c | c in w.chans :: Joined(w, c) && k in Members(w, c)
  }

  /** The server tells us about ourselves and about those we share a channel with. */
  predicate Visible(w: World, e: Event) {
    match e
    case Connect(_) => false
    case Join(k, chan) => k == w.me || Joined(w, Fold(chan))
    case Names(_, _) => true
    case Part(_, chan) => Joined(w, Fold(chan))
    case Kick(chan, _) => Joined(w, Fold(chan))
    case Quit(k) => Shares(w, k)
    case Rename(k, _) => k == w.me || Shares(w, k)
  }

  // ------------------------------------------------------------ the client's side

  /** What the client's tables say, without the user objects. */
  datatype View = View(nick: Nick, channels: map<Key, set<Key>>)

  function OnJoin(v: View, who: Nick, chan: Nick): View {
    var c := Fold(chan);
    var channels := if who == v.nick then v.channels[c := {}] else v.channels;
    if c in channels then v.(channels := channels[c := channels[c] + {Fold(who)}]) else v.(channels := channels)
  }

  /** Our own join starts the channel anew, with ourselves alone, even when a table for it is there already. */
  lemma OwnJoinResets(v: View, chan: Nick)
    ensures OnJoin(v, v.nick, chan) == View(v.nick, v.channels[Fold(chan) := {Fold(v.nick)}])
  {
    assert {} + {Fold(v.nick)} == {Fold(v.nick)};
    assert v.channels[Fold(chan) := {}][Fold(chan) := {Fold(v.nick)}] == v.channels[Fold(chan) := {Fold(v.nick)}];
  }

  function FoldAll(nicks: seq<Nick>): set<Key> {
    set i | 0 <= i < |nicks| :: Fold(nicks[i])
  }

  function OnNames(v: View, chan: Nick, nicks: seq<Nick>): View {
    var c := Fold(chan);
    if c in v.channels then v.(channels := v.channels[c := v.channels[c] + FoldAll(nicks)]) else v
  }

  /** PART and KICK treat the one who leaves alike. */
  function OnLeave(v: View, who: Nick, chan: Nick): View {
    var c := Fold(chan);
    if who == v.nick then v.(channels := v.channels - {c})
    else if c in v.channels then v.(channels := v.channels[c := v.channels[c] - {Fold(who)}])
    else v
  }

  function OnQuit(v: View, who: Nick): View {
    v.(channels := map c | c in v.channels :: v.channels[c] - {Fold(who)})
  }

  function OnNick(v: View, was: Nick, now: Nick): View {
    View(if was == v.nick then now else v.nick,
         map c | c in v.channels :: Swap(v.channels[c], Fold(was), Fold(now)))
  }

  function Nicks(w: World, ks: seq<Key>): seq<Nick>
    requires forall i :: 0 <= i < |ks| ==> ks[i] in w.online
  {
    seq(|ks|, i requires 0 <= i < |ks| => w.online[ks[i]])
  }

  /** The message for an event carries the nicks as the server spells them. */
  function Receive(w: World, e: Event, v: View): View
    requires WorldOk(w) && Legal(w, e)
  {
    if !Visible(w, e) then v
    else
      match e
      case Connect(_) => v
      case Join(k, chan) => OnJoin(v, w.online[k], chan)
      case Names(chan, listed) => OnNames(v, chan, Nicks(w, listed))
      case Part(k, chan) => OnLeave(v, w.online[k], chan)
      case Kick(chan, k) => OnLeave(v, w.online[k], chan)
      case Quit(k) => OnQuit(v, w.online[k])
      case Rename(k, nick) => OnNick(v, w.online[k], nick)
  }

  /** The client is in the same channels, knows only members, and misses only those not named yet. */
  ghost predicate Tracks(w: World, v: View) {
    && w.me in w.online && v.nick == w.online[w.me]
    && (forall c :: TracksChannel(w, v, c))
  }

  ghost predicate TracksChannel(w: World, v: View, c: Key) {
    && (c in v.channels <==> Joined(w, c))
    && (c in v.channels ==> v.channels[c] <= Members(w, c) <= v.channels[c] + Unlisted(w, c))
  }

  lemma SameNick(w: World, a: Key, b: Key)
    requires WorldOk(w) && a in w.online && b in w.online
    ensures w.online[a] == w.online[b] <==> a == b
  {
  }

  lemma WorldSays(w: World, c: Key)
    requires WorldOk(w)
    ensures Members(w, c) <= w.online.Keys && Unlisted(w, c) <= Members(w, c) - {w.me}
    ensures Unlisted(w, c) != {} ==> Joined(w, c)
  {
  }

  /** The server's own invariant survives everything it does. */
  lemma NextIsOk(w: World, e: Event)
    requires WorldOk(w) && Legal(w, e)
    ensures WorldOk(Next(w, e))
  {
    hide Fold;
    match e
    case Connect(nick) => NextConnect(w, nick);
    case Join(k, chan) => NextJoin(w, k, chan);
    case Names(chan, listed) => NextNames(w, chan, listed);
    case Part(k, chan) => NextLeave(w, k, Fold(chan));
    case Kick(chan, k) => NextLeave(w, k, Fold(chan));
    case Quit(k) => NextQuit(w, k);
    case Rename(k, nick) => NextRename(w, k, nick);
  }

  lemma NextConnect(w: World, nick: Nick)
    requires WorldOk(w) && Legal(w, Connect(nick))
    ensures WorldOk(Next(w, Connect(nick)))
  {
    hide Fold;
    var w' := Next(w, Connect(nick));
    forall d ensures Members(w', d) <= w'.online.Keys && Unlisted(w', d) <= Members(w', d) - {w.me}
      && (Unlisted(w', d) != {} ==> Joined(w', d))
    {
      WorldSays(w, d);
    }
  }

  lemma NextJoin(w: World, k: Key, chan: Nick)
    requires WorldOk(w) && Legal(w, Join(k, chan))
    ensures WorldOk(Next(w, Join(k, chan)))
  {
    hide Fold;
    var w' := Next(w, Join(k, chan));
    forall c ensures Members(w', c) <= w'.online.Keys && Unlisted(w', c) <= Members(w', c) - {w.me}
      && (Unlisted(w', c) != {} ==> Joined(w', c))
    {
      WorldSays(w, c);
    }
  }

  lemma NextNames(w: World, chan: Nick, listed: seq<Key>)
    requires WorldOk(w) && Legal(w, Names(chan, listed))
    ensures WorldOk(Next(w, Names(chan, listed)))
  {
    hide Fold;
    var w' := Next(w, Names(chan, listed));
    forall d ensures Members(w', d) <= w'.online.Keys && Unlisted(w', d) <= Members(w', d) - {w.me}
      && (Unlisted(w', d) != {} ==> Joined(w', d))
    {
      WorldSays(w, d);
    }
  }

  lemma NextLeave(w: World, k: Key, c: Key)
    requires WorldOk(w)
    ensures WorldOk(Leave(w, k, c))
  {
    var w' := Leave(w, k, c);
    forall d ensures Members(w', d) <= w'.online.Keys && Unlisted(w', d) <= Members(w', d) - {w.me}
      && (Unlisted(w', d) != {} ==> Joined(w', d))
    {
      WorldSays(w, d);
    }
  }

  lemma NextQuit(w: World, k: Key)
    requires WorldOk(w) && Legal(w, Quit(k))
    ensures WorldOk(Next(w, Quit(k)))
  {
    var w' := Next(w, Quit(k));
    forall d ensures Members(w', d) <= w'.online.Keys && Unlisted(w', d) <= Members(w', d) - {w.me}
      && (Unlisted(w', d) != {} ==> Joined(w', d))
    {
      WorldSays(w, d);
    }
  }

  lemma AfterRename(w: World, k: Key, nick: Nick, c: Key)
    requires WorldOk(w) && Legal(w, Rename(k, nick))
    ensures var w' := Next(w, Rename(k, nick));
      && Members(w', c) == Swap(Members(w, c), k, Fold(nick))
      && Unlisted(w', c) == Swap(Unlisted(w, c), k, Fold(nick))
      && (Joined(w', c) <==> Joined(w, c))
      && Unlisted(w', c) <= Members(w', c) - {w'.me}
  {
    hide Fold;
    WorldSays(w, c);
  }

  lemma NextRename(w: World, k: Key, nick: Nick)
    requires WorldOk(w) && Legal(w, Rename(k, nick))
    ensures WorldOk(Next(w, Rename(k, nick)))
  {
    hide Fold;
    var w' := Next(w, Rename(k, nick));
    forall c ensures Members(w', c) <= w'.online.Keys && Unlisted(w', c) <= Members(w', c) - {w'.me}
      && (Unlisted(w', c) != {} ==> Joined(w', c))
    {
      AfterRename(w, k, nick, c);
      WorldSays(w, c);
    }
  }

  /** Every message keeps the client's tables in step with the server, and every event it does not hear of does too. */
  lemma ReceiveTracks(w: World, e: Event, v: View)
    requires WorldOk(w) && Legal(w, e) && Tracks(w, v)
    ensures Tracks(Next(w, e), Receive(w, e, v))
  {
    hide Fold, WorldOk;
    match e
    case Connect(_) => ConnectTracks(w, e.nick, v);
    case Join(k, chan) => JoinTracks(w, k, chan, v);
    case Names(chan, listed) => NamesTracks(w, chan, listed, v);
    case Part(k, chan) => LeaveTracks(w, k, chan, v);
    case Kick(chan, k) => LeaveTracks(w, k, chan, v);
    case Quit(k) => QuitTracks(w, k, v);
    case Rename(k, nick) => RenameTracks(w, k, nick, v);
  }

  lemma ConnectTracks(w: World, nick: Nick, v: View)
    requires WorldOk(w) && Legal(w, Connect(nick)) && Tracks(w, v)
    ensures Tracks(Next(w, Connect(nick)), v)
  {
    hide Fold;
    var w' := Next(w, Connect(nick));
    forall c ensures TracksChannel(w', v, c) {
      assert TracksChannel(w, v, c);
    }
  }

  lemma JoinTracks(w: World, k: Key, chan: Nick, v: View)
    requires WorldOk(w) && Legal(w, Join(k, chan)) && Tracks(w, v)
    ensures Tracks(Next(w, Join(k, chan)), Receive(w, Join(k, chan), v))
  {
    hide Fold;
    SameNick(w, k, w.me);
    assert Fold(w.online[k]) == k;
    var c, w' := Fold(chan), Next(w, Join(k, chan));
    var v' := Receive(w, Join(k, chan), v);
    forall d ensures TracksChannel(w', v', d) {
      WorldSays(w, d);
      assert TracksChannel(w, v, d);
    }
  }

  lemma NamesTracks(w: World, chan: Nick, listed: seq<Key>, v: View)
    requires WorldOk(w) && Legal(w, Names(chan, listed)) && Tracks(w, v)
    ensures Tracks(Next(w, Names(chan, listed)), Receive(w, Names(chan, listed), v))
  {
    hide Fold;
    var c, w', nicks := Fold(chan), Next(w, Names(chan, listed)), Nicks(w, listed);
    assert forall i :: 0 <= i < |listed| ==> Fold(nicks[i]) == listed[i];
    assert (set i | 0 <= i < |nicks| :: Fold(nicks[i])) == (set i | 0 <= i < |listed| :: listed[i]);
    var v' := OnNames(v, chan, nicks);
    forall d ensures TracksChannel(w', v', d) {
      assert TracksChannel(w, v, d);
    }
  }

  lemma LeaveTracks(w: World, k: Key, chan: Nick, v: View)
    requires WorldOk(w) && k in Members(w, Fold(chan)) && Tracks(w, v)
    ensures k in w.online
    ensures Tracks(Leave(w, k, Fold(chan)), if Joined(w, Fold(chan)) then OnLeave(v, w.online[k], chan) else v)
  {
    hide Fold;
    assert Members(w, Fold(chan)) <= w.online.Keys;
    SameNick(w, k, w.me);
    assert Fold(w.online[k]) == k;
    var c := Fold(chan);
    var w' := Leave(w, k, c);
    var v' := if Joined(w, c) then OnLeave(v, w.online[k], chan) else v;
    forall d ensures TracksChannel(w', v', d) {
      WorldSays(w, d);
      assert TracksChannel(w, v, d);
    }
  }

  lemma QuitTracks(w: World, k: Key, v: View)
    requires WorldOk(w) && Legal(w, Quit(k)) && Tracks(w, v)
    ensures Tracks(Next(w, Quit(k)), Receive(w, Quit(k), v))
  {
    hide Fold;
    assert Fold(w.online[k]) == k;
    var w' := Next(w, Quit(k));
    var v' := Receive(w, Quit(k), v);
    forall c ensures TracksChannel(w', v', c) {
      assert TracksChannel(w, v, c);
      assert k in Members(w, c) && Joined(w, c) ==> Shares(w, k);
    }
  }

  lemma RenameTracks(w: World, k: Key, nick: Nick, v: View)
    requires WorldOk(w) && Legal(w, Rename(k, nick)) && Tracks(w, v)
    ensures Tracks(Next(w, Rename(k, nick)), Receive(w, Rename(k, nick), v))
  {
    hide Fold;
    SameNick(w, k, w.me);
    assert Fold(w.online[k]) == k;
    var w' := Next(w, Rename(k, nick));
    var v' := Receive(w, Rename(k, nick), v);
    forall c ensures TracksChannel(w', v', c) {
      AfterRename(w, k, nick, c);
      WorldSays(w, c);
      assert TracksChannel(w, v, c);
      assert k in Members(w, c) && Joined(w, c) ==> Shares(w, k);
    }
  }

  // ------------------------------------------------------------ runs

  predicate LegalRun(w: World, es: seq<Event>)
    decreases |es|
  {
    es == [] || (Legal(w, es[0]) && LegalRun(Next(w, es[0]), es[1..]))
  }

  function After(w: World, es: seq<Event>): World
    requires LegalRun(w, es)
    decreases |es|
  {
    if es == [] then w else After(Next(w, es[0]), es[1..])
  }

  ghost function Received(w: World, es: seq<Event>, v: View): View
    requires WorldOk(w) && LegalRun(w, es)
    decreases |es|
  {
    if es == [] then v
    else
      NextIsOk(w, es[0]);
      Received(Next(w, es[0]), es[1..], Receive(w, es[0], v))
  }

  /** In every run: the client is in exactly our channels and lists only members, and all once NAMES has finished. */
  lemma {:induction false} RunTracks(w: World, es: seq<Event>, v: View)
    requires WorldOk(w) && LegalRun(w, es) && Tracks(w, v)
    ensures var w', v' := After(w, es), Received(w, es, v);
      && WorldOk(w') && Tracks(w', v')
      && forall c :: Joined(w', c) && Unlisted(w', c) == {} ==> c in v'.channels && v'.channels[c] == Members(w', c)
    decreases |es|
  {
    hide Next, Receive, WorldOk;
    if es == [] {
      forall c ensures Joined(w, c) && Unlisted(w, c) == {} ==> c in v.channels && v.channels[c] == Members(w, c) {
        assert TracksChannel(w, v, c);
      }
    } else {
      NextIsOk(w, es[0]);
      ReceiveTracks(w, es[0], v);
      RunTracks(Next(w, es[0]), es[1..], Receive(w, es[0], v));
    }
  }

  // ------------------------------------------------------------ the tables themselves

  lemma FoldAllSnoc(nicks: seq<Nick>, i: nat)
    requires i < |nicks|
    ensures FoldAll(nicks[..i + 1]) == FoldAll(nicks[..i]) + {Fold(nicks[i])}
  {
    hide Fold;
    var a, b := nicks[..i], nicks[..i + 1];
    forall k ensures k in FoldAll(b) <==> k in FoldAll(a) + {Fold(nicks[i])} {
      if k in FoldAll(a) {
        var j :| 0 <= j < i && Fold(a[j]) == k;
        assert Fold(b[j]) == k;
      }
      assert Fold(b[i]) == Fold(nicks[i]);
    }
  }

  lemma FoldAllNone(nicks: seq<Nick>)
    requires nicks == []
    ensures FoldAll(nicks) == {}
  {
  }

  /** A user object, shared by the users table and all member entries for that user. */
  class User {
    var nick: Nick

    constructor (nick: Nick)
      ensures this.nick == nick
    {
      this.nick := nick;
    }
  }

  ghost predicate Filed(users: map<Key, User>, channels: map<Key, map<Key, User>>) {
    forall c, k :: c in channels && k in channels[c] ==> k in users && channels[c][k] == users[k]
  }

  function KeySets(channels: map<Key, map<Key, User>>): map<Key, set<Key>> {
    map c | c in channels :: channels[c].Keys
  }

  lemma KeySetsUpdate(channels: map<Key, map<Key, User>>, c: Key, m: map<Key, User>)
    ensures KeySets(channels[c := m]) == KeySets(channels)[c := m.Keys]
    ensures KeySets(channels).Keys == channels.Keys && (c in channels ==> KeySets(channels)[c] == channels[c].Keys)
  {
  }

  lemma AddNothing(sets: map<Key, set<Key>>, c: Key)
    requires c in sets
    ensures sets == sets[c := sets[c] + {}]
  {
    assert sets[c] + {} == sets[c];
  }

  lemma AddOne(sets: map<Key, set<Key>>, c: Key, s: set<Key>, k: Key)
    requires c in sets
    ensures sets[c := sets[c] + s][c := sets[c] + s + {k}] == sets[c := sets[c] + (s + {k})]
  {
    assert sets[c] + s + {k} == sets[c] + (s + {k});
  }

  class Irc {
    var nick: Nick
    var users: map<Key, User>
    var channels: map<Key, map<Key, User>>

    /** Each user is filed under its folded nick, and each member entry is the user filed under the same key. */
    ghost predicate Valid()
      reads this, users.Values
    {
      && (forall k :: k in users ==> Fold(users[k].nick) == k)
      && Filed(users, channels)
    }

    ghost function Tables(): View
      reads this
    {
      View(nick, KeySets(channels))
    }

    constructor (nick: Nick)
      ensures Valid() && users == map[] && Tables() == View(nick, map[])
    {
      this.nick := nick;
      users, channels := map[], map[];
    }

    method GetUser(who: Nick) returns (u: User)
      modifies this`users
      ensures users == old(users)[Fold(who) := u]
      ensures if Fold(who) in old(users) then u == old(users)[Fold(who)] else fresh(u) && u.nick == who
      ensures old(Valid()) ==> Valid()
    {
      var key := Fold(who);
      if key in users {
        u := users[key];
      } else {
        u := new User(who);
        users := users[key := u];
      }
    }

    /** `members[irccase(who)] = Member(get_user(who))` */
    method AddMember(c: Key, who: Nick)
      requires Valid() && c in channels
      modifies this`users, this`channels
      ensures Valid()
      ensures Fold(who) in users && users == old(users)[Fold(who) := users[Fold(who)]]
      ensures if Fold(who) in old(users) then users == old(users) else fresh(users[Fold(who)])
      ensures channels == old(channels)[c := old(channels)[c][Fold(who) := users[Fold(who)]]]
    {
      hide Fold;
      var user := GetUser(who);
      channels := channels[c := channels[c][Fold(who) := user]];
    }

    method Join(who: Nick, chan: Nick) returns (raised: bool)
      requires Valid()
      modifies this`users, this`channels
      ensures Valid() && Tables() == OnJoin(old(Tables()), who, chan)
      ensures raised <==> who != nick && Fold(chan) !in old(channels)
      ensures Fold(who) in users && users == old(users)[Fold(who) := users[Fold(who)]]
      ensures Fold(who) !in old(users) ==> fresh(users[Fold(who)])
      ensures Fold(who) in old(users) ==> users == old(users)
    {
      hide Fold, KeySets;
      var c := Fold(chan);
      if who == nick {
        channels := channels[c := map[]];
      }
      ghost var mid, none: map<Key, User> := channels, map[];
      KeySetsUpdate(old(channels), c, none);
      assert none.Keys == {};
      KeySetsUpdate(mid, c, none);
      if c !in channels {
        var _ := GetUser(who);
        return true;
      }
      AddMember(c, who);
      assert mid[c][Fold(who) := users[Fold(who)]].Keys == mid[c].Keys + {Fold(who)};
      KeySetsUpdate(mid, c, mid[c][Fold(who) := users[Fold(who)]]);
      raised := false;
    }

    method NamReply(chan: Nick, nicks: seq<Nick>) returns (raised: bool)
      requires Valid()
      modifies this`users, this`channels
      ensures Valid() && Tables() == OnNames(old(Tables()), chan, nicks)
      ensures raised <==> nicks != [] && Fold(chan) !in old(channels)
      ensures users.Keys >= old(users.Keys)
      ensures forall k :: k in users ==> if k in old(users) then users[k] == old(users)[k] else fresh(users[k])
    {
      hide Fold, FoldAll, KeySets;
      FoldAllNone(nicks[..0]);
      var c := Fold(chan);
      KeySetsUpdate(channels, c, map[]);
      if c !in channels {
        if nicks != [] {
          var _ := GetUser(nicks[0]);
        }
        return nicks != [];
      }
      ghost var sets := KeySets(channels);
      KeySetsUpdate(channels, c, channels[c]);
      AddNothing(sets, c);
      var i := 0;
      while i < |nicks|
        invariant i <= |nicks| && Valid() && nick == old(nick) && c in channels && c in sets
        invariant KeySets(channels) == sets[c := sets[c] + FoldAll(nicks[..i])]
        invariant users.Keys >= old(users.Keys)
        invariant forall k :: k in users ==> if k in old(users) then users[k] == old(users)[k] else fresh(users[k])
      {
        ghost var before := channels;
        AddMember(c, nicks[i]);
        KeySetsUpdate(before, c, channels[c]);
        KeySetsUpdate(before, c, before[c]);
        assert channels[c].Keys == before[c].Keys + {Fold(nicks[i])};
        AddOne(sets, c, FoldAll(nicks[..i]), Fold(nicks[i]));
        FoldAllSnoc(nicks, i);
        i := i + 1;
      }
      assert nicks[..i] == nicks;
      raised := false;
    }

    /** The PART and KICK handlers: the channel goes when it is we who leave, else the one entry. */
    method Leave(who: Nick, chan: Nick) returns (raised: bool)
      requires Valid()
      modifies this`channels
      ensures Valid() && Tables() == OnLeave(old(Tables()), who, chan)
      ensures raised <==> who != nick && Fold(chan) !in old(channels)
    {
      hide Fold;
      var c := Fold(chan);
      if who == nick {
        channels := channels - {c};
      } else if c in channels {
        channels := channels[c := channels[c] - {Fold(who)}];
      } else {
        return true;
      }
      raised := false;
    }

    method Quit(who: Nick)
      requires Valid()
      modifies this`users, this`channels
      ensures Valid() && Tables() == OnQuit(old(Tables()), who)
      ensures users == old(users) - {Fold(who)}
    {
      hide Fold;
      var key := Fold(who);
      var todo := channels.Keys;
      while todo != {}
        invariant todo <= channels.Keys == old(channels.Keys) && nick == old(nick) && users == old(users)
        invariant forall c :: c in channels ==>
          channels[c] == if c in todo then old(channels)[c] else old(channels)[c] - {key}
      {
        var c :| c in todo;
        todo := todo - {c};
        channels := channels[c := channels[c] - {key}];
      }
      users := users - {key};
    }

    /** The shared user object changes its name in place, and is refiled under the new one. */
    method Nick(was: Nick, now: Nick)
      requires Valid()
      modifies this, if Fold(was) in users then {users[Fold(was)]} else {}
      ensures Tables() == OnNick(old(Tables()), was, now)
      ensures Fold(now) in users && users[Fold(now)].nick == now
      ensures users == (old(users) - {Fold(was)})[Fold(now) := users[Fold(now)]]
      ensures if Fold(was) in old(users) then users[Fold(now)] == old(users)[Fold(was)] else fresh(users[Fold(now)])
      ensures Fold(was) == Fold(now) || (forall c :: c in old(channels) ==> Fold(now) !in old(channels)[c]) ==> Valid()
    {
      hide Fold;
      ghost var users0, channels0 := users, channels;
      Retitle(was, now);
      RefileAll(Fold(was), Fold(now));
      if Fold(was) == Fold(now) || (forall c :: c in channels0 ==> Fold(now) !in channels0[c]) {
        RefileFiled(users0, channels0, users, channels, Fold(was), Fold(now));
      }
    }

    /** The part of the NICK handler before the channels. */
    method Retitle(was: Nick, now: Nick)
      requires Valid()
      modifies this`nick, this`users, if Fold(was) in users then {users[Fold(was)]} else {}
      ensures nick == if was == old(nick) then now else old(nick)
      ensures Fold(now) in users && users[Fold(now)].nick == now
      ensures users == (old(users) - {Fold(was)})[Fold(now) := users[Fold(now)]]
      ensures if Fold(was) in old(users) then users[Fold(now)] == old(users)[Fold(was)] else fresh(users[Fold(now)])
      ensures forall k :: k in users ==> Fold(users[k].nick) == k
    {
      hide Fold;
      var oldkey, newkey := Fold(was), Fold(now);
      if was == nick {
        nick := now;
      }
      var user := GetUser(was);
      user.nick := now;
      if oldkey != newkey {
        users := (users - {oldkey})[newkey := user];
      }
    }

    method RefileAll(oldkey: Key, newkey: Key)
      modifies this`channels
      ensures channels.Keys == old(channels.Keys)
      ensures forall c :: c in channels ==> channels[c] == Refile(old(channels)[c], oldkey, newkey)
      ensures forall c :: c in channels ==> channels[c].Keys == Swap(old(channels)[c].Keys, oldkey, newkey)
    {
      hide Refile;
      var todo := channels.Keys;
      while todo != {}
        invariant todo <= channels.Keys == old(channels.Keys)
        invariant forall c :: c in channels ==>
          channels[c] == if c in todo then old(channels)[c] else Refile(old(channels)[c], oldkey, newkey)
      {
        var c :| c in todo;
        todo := todo - {c};
        channels := channels[c := Refile(channels[c], oldkey, newkey)];
      }
      forall c | c in channels ensures channels[c].Keys == Swap(old(channels)[c].Keys, oldkey, newkey) {
        RefileKeys(old(channels)[c], oldkey, newkey);
      }
    }

    /** The users table is weak: an entry that nothing else refers to may vanish at any time. */
    method Collect(dead: set<Key>)
      requires Valid() && forall c :: c in channels ==> channels[c].Keys !! dead
      modifies this`users
      ensures Valid() && users == old(users) - dead && Tables() == old(Tables())
    {
      users := users - dead;
    }

    /** Hand one event to its handler, spelled as the server spells it; events we do not hear of change nothing, and
        none that such a server sends makes a handler raise. */
    method Deliver(w: World, e: Event) returns (raised: bool)
      requires Valid() && WorldOk(w) && Legal(w, e) && Tracks(w, Tables())
      modifies this, users.Values
      ensures Valid() && Tables() == Receive(w, e, old(Tables()))
      ensures forall u :: u in users.Values ==> u in old(users).Values || fresh(u)
      ensures !raised
    {
      hide Fold, WorldOk, Tracks, OnJoin, OnNames, OnLeave, OnQuit, OnNick;
      raised := false;
      if Visible(w, e) {
        SpelledOnline(w, e);
        ChannelKnown(w, e, Tables());
        assert Tables().channels.Keys == channels.Keys;
        match e
        case Connect(_) =>
        case Join(k, chan) => raised := Join(w.online[k], chan);
        case Names(chan, listed) => raised := NamReply(chan, Nicks(w, listed));
        case Part(k, chan) => raised := Leave(w.online[k], chan);
        case Kick(chan, k) => raised := Leave(w.online[k], chan);
        case Quit(k) => Quit(w.online[k]);
        case Rename(k, nick) =>
          FreshNick(w, k, nick, Tables());
          assert forall c :: c in channels ==> channels[c].Keys == Tables().channels[c];
          Nick(w.online[k], nick);
      }
    }

    /** A whole run, with the garbage collector at work between any two messages. */
    method Follow(w: World, es: seq<Event>) returns (w': World, raised: bool)
      requires Valid() && WorldOk(w) && LegalRun(w, es) && Tracks(w, Tables())
      modifies this, users.Values
      ensures Valid() && w' == After(w, es) && Tracks(w', Tables()) && !raised
      ensures forall c :: Joined(w', c) && Unlisted(w', c) == {} ==> c in channels && channels[c].Keys == Members(w', c)
    {
      hide Fold, WorldOk, Tracks, Legal, Next, Receive;
      w', raised := w, false;
      var i := 0;
      while i < |es|
        invariant i <= |es| && !raised && Valid() && WorldOk(w') && Tracks(w', Tables())
        invariant LegalRun(w', es[i..]) && After(w', es[i..]) == After(w, es)
        invariant forall u :: u in users.Values ==> u in old(users).Values || fresh(u)
      {
        var dead: set<Key> :| forall c :: c in channels ==> channels[c].Keys !! dead;
        Collect(dead);
        assert es[i..][1..] == es[i + 1..];
        NextIsOk(w', es[i]);
        ReceiveTracks(w', es[i], Tables());
        raised := Deliver(w', es[i]);
        w' := Next(w', es[i]);
        i := i + 1;
      }
      forall c | Joined(w', c) && Unlisted(w', c) == {} ensures c in channels && channels[c].Keys == Members(w', c) {
        Complete(w', Tables(), c);
      }
    }
  }

  lemma Complete(w: World, v: View, c: Key)
    requires Tracks(w, v) && Joined(w, c) && Unlisted(w, c) == {}
    ensures c in v.channels && v.channels[c] == Members(w, c)
  {
    assert TracksChannel(w, v, c);
  }

  lemma SpelledOnline(w: World, e: Event)
    requires WorldOk(w) && Legal(w, e)
    ensures match e
      case Names(chan, listed) => forall i :: 0 <= i < |listed| ==> listed[i] in w.online
      case Join(k, _) => k in w.online
      case Part(k, _) => k in w.online
      case Kick(_, k) => k in w.online
      case _ => true
  {
    hide Fold;
    match e
    case Names(chan, listed) =>
      WorldSays(w, Fold(chan));
      assert forall i :: 0 <= i < |listed| ==> listed[i] in Members(w, Fold(chan));
    case Part(k, chan) => WorldSays(w, Fold(chan));
    case Kick(chan, k) => WorldSays(w, Fold(chan));
    case _ =>
  }

  /** We are told of joins, names and leavings only for ourselves or for channels we are in. */
  lemma ChannelKnown(w: World, e: Event, v: View)
    requires WorldOk(w) && Legal(w, e) && Visible(w, e) && Tracks(w, v)
    ensures match e
      case Names(chan, listed) => Fold(chan) in v.channels
      case Join(k, chan) => w.online[k] == v.nick || Fold(chan) in v.channels
      case Part(k, chan) => Fold(chan) in v.channels
      case Kick(chan, k) => Fold(chan) in v.channels
      case _ => true
  {
    hide Fold, WorldOk;
    match e
    case Names(chan, _) => assert TracksChannel(w, v, Fold(chan));
    case Join(_, chan) => assert TracksChannel(w, v, Fold(chan));
    case Part(_, chan) => assert TracksChannel(w, v, Fold(chan));
    case Kick(chan, _) => assert TracksChannel(w, v, Fold(chan));
    case _ =>
  }

  /** A nick that the server lets someone take is not filed as a member anywhere. */
  lemma FreshNick(w: World, k: Key, nick: Nick, v: View)
    requires WorldOk(w) && Legal(w, Rename(k, nick)) && Tracks(w, v)
    ensures Fold(w.online[k]) == k
    ensures Fold(nick) == k || forall c :: c in v.channels ==> Fold(nick) !in v.channels[c]
  {
    hide Fold;
    forall c | c in v.channels && Fold(nick) != k ensures Fold(nick) !in v.channels[c] {
      assert TracksChannel(w, v, c);
      WorldSays(w, c);
    }
  }

  lemma RefileFiled(users: map<Key, User>, channels: map<Key, map<Key, User>>,
                    users': map<Key, User>, channels': map<Key, map<Key, User>>, a: Key, b: Key)
    requires Filed(users, channels) && b in users' && users' == (users - {a})[b := users'[b]]
    requires a in users ==> users'[b] == users[a]
    requires channels'.Keys == channels.Keys && forall c :: c in channels ==> channels'[c] == Refile(channels[c], a, b)
    requires a == b || forall c :: c in channels ==> b !in channels[c]
    ensures Filed(users', channels')
  {
    forall c, k | c in channels' && k in channels'[c] ensures k in users' && channels'[c][k] == users'[k] {
      assert a in channels[c] ==> channels[c][a] == users[a];
      assert k in channels[c] ==> channels[c][k] == users[k];
    }
  }

  lemma RefileKeys(members: map<Key, User>, a: Key, b: Key)
    ensures Refile(members, a, b).Keys == Swap(members.Keys, a, b)
  {
  }

  /** The entry under `a` moves to `b`. */
  function Refile(members: map<Key, User>, a: Key, b: Key): map<Key, User> {
    if a in members && a != b then (members - {a})[b := members[a]] else members
  }
}
