/** The message parser as it runs: over a mutable buffer, returning views into that buffer. */
module InPlaceParser {
  import opened Bytes
  import opened IrcMessage

  /** A `string_view`: a range of the buffer, or the default-constructed empty view. */
  datatype View = Null | View(off: nat, len: nat)

  datatype TagView = TagView(key: View, val: View)

  datatype MessageView = MessageView(tags: seq<TagView>, source: View, command: View, args: seq<View>)

  ghost predicate Within(v: View, lo: nat, hi: nat) {
    v.View? ==> lo <= v.off && v.off + v.len <= hi
  }

  ghost predicate TagWithin(t: TagView, lo: nat, hi: nat) {
    Within(t.key, lo, hi) && Within(t.val, lo, hi)
  }

  ghost predicate TagsWithin(tags: seq<TagView>, lo: nat, hi: nat) {
    forall i :: 0 <= i < |tags| ==> TagWithin(tags[i], lo, hi)
  }

  ghost predicate ViewsWithin(views: seq<View>, lo: nat, hi: nat) {
    forall i :: 0 <= i < |views| ==> Within(views[i], lo, hi)
  }

  ghost predicate MessageWithin(m: MessageView, lo: nat, hi: nat) {
    && TagsWithin(m.tags, lo, hi)
    && Within(m.source, lo, hi)
    && Within(m.command, lo, hi)
    && ViewsWithin(m.args, lo, hi)
  }

  /** What a view reads when the memory is `mem`. */
  function Text(mem: seq<byte>, v: View): seq<byte>
    requires Within(v, 0, |mem|)
  {
    if v.Null? then [] else mem[v.off..v.off + v.len]
  }

  function TagText(mem: seq<byte>, t: TagView): Tag
    requires TagWithin(t, 0, |mem|)
  {
    Tag(Text(mem, t.key), Text(mem, t.val))
  }

  function TagTexts(mem: seq<byte>, tags: seq<TagView>): (r: seq<Tag>)
    requires TagsWithin(tags, 0, |mem|)
    ensures |r| == |tags|
  {
    seq(|tags|, i requires 0 <= i < |tags| => TagText(mem, tags[i]))
  }

  function Texts(mem: seq<byte>, views: seq<View>): (r: seq<seq<byte>>)
    requires ViewsWithin(views, 0, |mem|)
    ensures |r| == |views|
  {
    seq(|views|, i requires 0 <= i < |views| => Text(mem, views[i]))
  }

  function MessageText(mem: seq<byte>, m: MessageView): Message
    requires MessageWithin(m, 0, |mem|)
  {
    Message(TagTexts(mem, m.tags), Text(mem, m.source), Text(mem, m.command), Texts(mem, m.args))
  }

  /** Memory may change anywhere but in `[lo, hi)`; the next one, only there. */
  ghost predicate SameRange(a: seq<byte>, b: seq<byte>, lo: nat, hi: nat) {
    hi <= |a| == |b| && forall i :: lo <= i < hi ==> a[i] == b[i]
  }

  ghost predicate SameOutside(a: seq<byte>, b: seq<byte>, lo: nat, hi: nat) {
    lo <= hi <= |a| == |b| && forall i :: 0 <= i < lo || hi <= i < |a| ==> a[i] == b[i]
  }

  lemma TextStable(a: seq<byte>, b: seq<byte>, v: View, lo: nat, hi: nat)
    requires SameRange(a, b, lo, hi) && Within(v, lo, hi)
    ensures Text(a, v) == Text(b, v)
  {
    if v.View? {
      assert a[v.off..v.off + v.len] == b[v.off..v.off + v.len];
    }
  }

  /** A message keeps its meaning through any write outside the range its views lie in. */
  lemma MessageStable(a: seq<byte>, b: seq<byte>, m: MessageView, lo: nat, hi: nat)
    requires SameRange(a, b, lo, hi) && MessageWithin(m, lo, hi)
    ensures MessageText(a, m) == MessageText(b, m)
  {
    TagsStable(a, b, m.tags, lo, hi);
    TextsStable(a, b, m.args, lo, hi);
    TextStable(a, b, m.source, lo, hi);
    TextStable(a, b, m.command, lo, hi);
  }

  lemma TagsStable(a: seq<byte>, b: seq<byte>, tags: seq<TagView>, lo: nat, hi: nat)
    requires SameRange(a, b, lo, hi) && TagsWithin(tags, lo, hi)
    ensures TagTexts(a, tags) == TagTexts(b, tags)
  {
    forall i | 0 <= i < |tags| ensures TagTexts(a, tags)[i] == TagTexts(b, tags)[i] {
      TextStable(a, b, tags[i].key, lo, hi);
      TextStable(a, b, tags[i].val, lo, hi);
    }
  }

  lemma TextsStable(a: seq<byte>, b: seq<byte>, views: seq<View>, lo: nat, hi: nat)
    requires SameRange(a, b, lo, hi) && ViewsWithin(views, lo, hi)
    ensures Texts(a, views) == Texts(b, views)
  {
    forall i | 0 <= i < |views| ensures Texts(a, views)[i] == Texts(b, views)[i] {
      TextStable(a, b, views[i], lo, hi);
    }
  }

  /** The bytes `[p, e)` are text and `e` holds its terminator. */
  ghost predicate Terminated(mem: seq<byte>, p: nat, e: nat) {
    p <= e < |mem| && mem[e] == NUL && forall i :: p <= i < e ==> mem[i] != NUL
  }

  /** A view built from a `char*`: its length is the distance to the first NUL. */
  function ViewOf(mem: seq<byte>, p: nat): View
    requires p <= |mem|
  {
    View(p, Find(mem[p..], NUL))
  }

  lemma ViewOfTerminated(mem: seq<byte>, p: nat, e: nat)
    requires Terminated(mem, p, e)
    ensures ViewOf(mem, p) == View(p, e - p)
  {
    FindIs(mem[p..], NUL, e - p);
  }

  // ------------------------------------------------------------ tags

  lemma Cut(mem: seq<byte>, p: nat, k: nat, e: nat)
    requires Terminated(mem, p, e) && p <= k < e
    ensures var m := mem[k := NUL];
      && Terminated(m, p, k) && m[p..k] == mem[p..e][..k - p]
      && Terminated(m, k + 1, e) && m[k + 1..e] == mem[p..e][k - p + 1..]
      && SameOutside(m, mem, p, e)
  {
    var m := mem[k := NUL];
    assert m[p..k] == mem[p..e][..k - p];
    assert m[k + 1..e] == mem[p..e][k - p + 1..];
  }

  /** The scan of `strchr` and `strsep`: the first `c`, or the terminator. */
  method Scan(buf: array<byte>, p: nat, ghost e: nat, c: byte) returns (i: nat)
    requires Terminated(buf[..], p, e) && c != NUL
    ensures p <= i <= e && i - p == Find(buf[p..e], c)
    ensures buf[i] == if i == e then NUL else c
  {
    hide Find;
    ghost var text := buf[p..e];
    i := p;
    while buf[i] != c && buf[i] != NUL
      modifies {}
      invariant p <= i <= e
      invariant forall j :: 0 <= j < i - p ==> text[j] != c
      decreases e - i
    {
      assert buf[i] == text[i - p];
      i := i + 1;
    }
    assert i < e ==> buf[i] == text[i - p];
    FindIs(text, c, i - p);
  }

  /** `strsep`: cut the string at the first `c`; the next string starts behind it. */
  method StrSep(buf: array<byte>, p: nat, ghost e: nat, c: byte) returns (next: Option<nat>, ghost k: nat)
    requires Terminated(buf[..], p, e) && c != NUL
    modifies buf
    ensures k == Find(old(buf[p..e]), c) && Terminated(buf[..], p, p + k)
    ensures SameOutside(buf[..], old(buf[..]), p, e)
    ensures buf[p..p + k] == old(buf[p..e])[..k]
    ensures next.None? ==> k == e - p
    ensures next.Some? ==> next.value == p + k + 1 && Terminated(buf[..], next.value, e)
    ensures next.Some? ==> buf[next.value..e] == old(buf[p..e])[k + 1..]
  {
    hide Find;
    var i := Scan(buf, p, e, c);
    k := i - p;
    SliceOfSlice(buf[..], p, e, 0, k);
    if buf[i] == NUL {
      return None, k;
    }
    ghost var mem := buf[..];
    Cut(mem, p, i, e);
    buf[i] := NUL;
    assert buf[..] == mem[i := NUL];
    next := Some(i + 1);
  }

  lemma UnescapeAt(t: seq<byte>, i: nat)
    requires i < |t|
    ensures t[i] != BACKSLASH ==> Unescape(t[i..]) == [t[i]] + Unescape(t[i + 1..])
    ensures t[i] == BACKSLASH && i + 1 == |t| ==> Unescape(t[i..]) == []
    ensures t[i] == BACKSLASH && i + 1 < |t| ==> Unescape(t[i..]) == [Escaped(t[i + 1])] + Unescape(t[i + 2..])
  {
    assert t[i..][1..] == t[i + 1..];
    if i + 1 < |t| {
      assert t[i..][2..] == t[i + 2..];
    }
  }

  /** One write at `w`, strictly before `c`: what the slices around it hold afterwards. */
  lemma WriteBehind(m: seq<byte>, lo: nat, w: nat, c: nat, hi: nat, x: byte)
    requires lo <= w < c <= hi <= |m|
    ensures var n := m[w := x];
      n[lo..w + 1] == m[lo..w] + [x] && n[c..hi] == m[c..hi] && SameOutside(n, m, lo, hi)
  {
  }

  lemma {:induction false} UnescapePlain(t: seq<byte>, k: nat)
    requires k <= |t| && forall i :: 0 <= i < k ==> t[i] != BACKSLASH
    ensures Unescape(t) == t[..k] + Unescape(t[k..])
  {
    if k == 0 {
      assert t[0..] == t;
    } else {
      assert t[1..][k - 1..] == t[k..];
      UnescapePlain(t[1..], k - 1);
      assert t[..k] == [t[0]] + t[1..][..k - 1];
    }
  }

  /** Decode the escapes of one tag value in place. The write cursor never passes the read cursor. */
  method UnescapeTagValue(buf: array<byte>, val: nat, ghost e: nat) returns (v: View)
    requires Terminated(buf[..], val, e)
    modifies buf
    ensures v.View? && Within(v, val, e)
    ensures SameOutside(buf[..], old(buf[..]), val, e)
    ensures Text(buf[..], v) == Unescape(old(buf[val..e]))
  {
    hide Unescape, Find;
    ghost var text := buf[val..e];
    var cursor := Scan(buf, val, e, BACKSLASH);
    UnescapePlain(text, cursor - val);
    SliceOfSlice(buf[..], val, e, 0, cursor - val);
    SliceOfSlice(buf[..], val, e, cursor - val, e - val);
    if buf[cursor] == NUL {
      UnescapeNothing();
      v := View(val, cursor - val);
    } else {
      v := UnescapeFrom(buf, val, e, cursor);
    }
  }

  lemma UnescapeNothing()
    ensures Unescape([]) == []
  {
  }

  /** The copying half, from the first backslash on. */
  method UnescapeFrom(buf: array<byte>, val: nat, ghost e: nat, first: nat) returns (v: View)
    requires Terminated(buf[..], first, e) && val <= first
    modifies buf
    ensures v.View? && Within(v, val, e)
    ensures SameOutside(buf[..], old(buf[..]), val, e)
    ensures Text(buf[..], v) == old(buf[val..first]) + Unescape(old(buf[first..e]))
  {
    hide Unescape;
    var cursor, write := first, first;
    ghost var done := buf[val..first];
    while buf[cursor] != NUL
      invariant val <= write <= cursor <= e
      invariant buf[val..write] == done
      invariant Terminated(buf[..], cursor, e)
      invariant SameOutside(buf[..], old(buf[..]), val, e)
      invariant old(buf[val..first]) + Unescape(old(buf[first..e])) == done + Unescape(buf[cursor..e])
      decreases e - cursor
    {
      ghost var mem := buf[..];
      ghost var text := mem[cursor..e];
      UnescapeAt(text, 0);
      var c := buf[cursor];
      assert c == text[0];
      var next := cursor + 1;
      if c == BACKSLASH {
        if buf[next] == NUL {
          break;
        }
        c := Escaped(buf[next]);
        assert text[2..] == mem[next + 1..e];
        next := next + 1;
      }
      assert Unescape(text) == [c] + Unescape(mem[next..e]);
      SnocCons(done, c, Unescape(mem[next..e]));
      WriteBehind(mem, val, write, next, e, c);
      buf[write] := c;
      assert buf[..] == mem[write := c];
      done := done + [c];
      write := write + 1;
      cursor := next;
    }
    v := View(val, write - val);
    UnescapeNothing();
  }

  lemma ParseTagIs(text: seq<byte>)
    ensures var k := Find(text, EQUALS);
      ParseTag(text) == if k == 0 then Err(MissingTag) else if k == |text| then Ok(Tag(text, []))
        else Ok(Tag(text[..k], Unescape(text[k + 1..])))
  {
  }

  /** One `key` or `key=value` between semicolons. */
  method ParseIrcTag(buf: array<byte>, key: nat, ghost e: nat) returns (r: Result<TagView>)
    requires Terminated(buf[..], key, e)
    modifies buf
    ensures SameOutside(buf[..], old(buf[..]), key, e)
    ensures r.Ok? ==> TagWithin(r.value, key, e) && ParseTag(old(buf[key..e])) == Ok(TagText(buf[..], r.value))
    ensures r.Err? ==> ParseTag(old(buf[key..e])) == Err(r.error)
  {
    hide Find, Unescape, ParseTag;
    ghost var text := buf[key..e];
    ghost var whole := ParseTag(text);
    ParseTagIs(text);
    var val, k := StrSep(buf, key, e, EQUALS);
    if buf[key] == NUL {
      return Err(MissingTag);
    }
    var keyView := ViewOf(buf[..], key);
    ViewOfTerminated(buf[..], key, key + k);
    if val.None? {
      assert text[..k] == text;
      assert whole == Ok(Tag(text, []));
      return Ok(TagView(keyView, Null));
    }
    ghost var mid := buf[..];
    assert whole == Ok(Tag(mid[key..key + k], Unescape(mid[val.value..e])));
    var valView := UnescapeTagValue(buf, val.value, e);
    TextStable(mid, buf[..], keyView, key, key + k);
    r := Ok(TagView(keyView, valView));
  }

  ghost function PrependTags(tags: seq<Tag>, r: Result<seq<Tag>>): Result<seq<Tag>> {
    if r.Ok? then Ok(tags + r.value) else r
  }

  lemma PrependSnoc(tags: seq<Tag>, t: Tag, r: Result<seq<Tag>>)
    ensures PrependTags(tags, PrependTags([t], r)) == PrependTags(tags + [t], r)
    ensures PrependTags([], r) == r
  {
    if r.Ok? {
      SnocCons(tags, t, r.value);
      assert [] + r.value == r.value;
    }
  }

  lemma TagsSnoc(mem: seq<byte>, tags: seq<TagView>, t: TagView, lo: nat, hi: nat)
    requires TagsWithin(tags, lo, hi) && TagWithin(t, lo, hi) && hi <= |mem|
    ensures TagsWithin(tags + [t], lo, hi)
    ensures TagTexts(mem, tags + [t]) == TagTexts(mem, tags) + [TagText(mem, t)]
  {
  }

  /** One round of the loop over the semicolons: the first tag, and where the next one starts. */
  method ParseNextTag(buf: array<byte>, p: nat, ghost e: nat) returns (r: Result<TagView>, next: Option<nat>)
    requires Terminated(buf[..], p, e)
    modifies buf
    ensures SameOutside(buf[..], old(buf[..]), p, e)
    ensures next.Some? ==> p < next.value && Terminated(buf[..], next.value, e)
    ensures r.Err? ==> ParseTags(old(buf[p..e])) == Err(r.error)
    ensures r.Ok? ==> TagWithin(r.value, p, if next.Some? then next.value else e)
    ensures r.Ok? && next.None? ==> ParseTags(old(buf[p..e])) == Ok([TagText(buf[..], r.value)])
    ensures r.Ok? && next.Some? ==>
      ParseTags(old(buf[p..e])) == PrependTags([TagText(buf[..], r.value)], ParseTags(buf[next.value..e]))
  {
    hide Find, Unescape, ParseTag;
    ghost var text := buf[p..e];
    ghost var whole := ParseTags(text);
    ghost var k;
    next, k := StrSep(buf, p, e, SEMI);
    ghost var mid := buf[..];
    ghost var first := ParseTag(mid[p..p + k]);
    assert first.Err? ==> whole == Err(first.error);
    assert first.Ok? ==> whole == if next.None? then Ok([first.value])
        else PrependTags([first.value], ParseTags(mid[next.value..e]));
    r := ParseIrcTag(buf, p, p + k);
    if next.Some? {
      assert buf[next.value..e] == mid[next.value..e];
    }
  }

  method ParseIrcTags(buf: array<byte>, first: nat, ghost e: nat) returns (r: Result<seq<TagView>>)
    requires Terminated(buf[..], first, e)
    modifies buf
    ensures SameOutside(buf[..], old(buf[..]), first, e)
    ensures r.Ok? ==> TagsWithin(r.value, first, e) && ParseTags(old(buf[first..e])) == Ok(TagTexts(buf[..], r.value))
    ensures r.Err? ==> ParseTags(old(buf[first..e])) == Err(r.error)
  {
    ghost var whole := ParseTags(buf[first..e]);
    var tags: seq<TagView> := [];
    var str := Some(first);
    PrependSnoc([], Tag([], []), whole);
    while str.Some?
      invariant SameOutside(buf[..], old(buf[..]), first, e)
      invariant str.Some? ==> first <= str.value && Terminated(buf[..], str.value, e)
      invariant TagsWithin(tags, first, if str.Some? then str.value else e)
      invariant whole == if str.None? then Ok(TagTexts(buf[..], tags))
        else PrependTags(TagTexts(buf[..], tags), ParseTags(buf[str.value..e]))
      decreases if str.Some? then 1 + e - str.value else 0
    {
      ghost var mem, p := buf[..], str.value;
      var tag;
      tag, str := ParseNextTag(buf, str.value, e);
      if tag.Err? {
        return Err(tag.error);
      }
      ghost var now := buf[..];
      ghost var end := if str.Some? then str.value else e;
      TagsStable(mem, now, tags, first, p);
      TagsSnoc(now, tags, tag.value, first, end);
      if str.Some? {
        PrependSnoc(TagTexts(now, tags), TagText(now, tag.value), ParseTags(now[str.value..e]));
      }
      tags := tags + [tag.value];
    }
    r := Ok(tags);
  }

  // ------------------------------------------------------------ messages

  lemma TrimAt(mem: seq<byte>, i: nat, e: nat)
    requires i <= e <= |mem|
    ensures i < e && mem[i] == SP ==> Trim(mem[i..e]) == Trim(mem[i + 1..e])
    ensures i == e || mem[i] != SP ==> Trim(mem[i..e]) == mem[i..e]
  {
    if i < e {
      assert mem[i..e][1..] == mem[i + 1..e];
    }
  }

  /** The cursor over one null-terminated line. `e` is where the line's terminator is. */
  class Parser {
    const buf: array<byte>
    var msg: nat
    ghost const e: nat

    ghost predicate Valid()
      reads this, buf
    {
      Terminated(buf[..], msg, e)
    }

    ghost function Rest(): seq<byte>
      reads this, buf
      requires Valid()
    {
      buf[msg..e]
    }

    constructor (buf: array<byte>, msg: nat, ghost e: nat)
      requires Terminated(buf[..], msg, e)
      ensures this.buf == buf && this.e == e && Valid()
      ensures msg <= this.msg && Rest() == Bytes.Trim(buf[msg..e])
    {
      this.buf := buf;
      this.msg := msg;
      this.e := e;
      new;
      Trim();
    }

    method Trim()
      requires Valid()
      modifies this`msg
      ensures Valid() && old(msg) <= msg
      ensures Rest() == Bytes.Trim(old(Rest()))
    {
      hide Bytes.Trim;
      while buf[msg] == SP
        invariant Valid() && old(msg) <= msg
        invariant Bytes.Trim(buf[..][msg..e]) == Bytes.Trim(buf[..][old(msg)..e])
        decreases e - msg
      {
        TrimAt(buf[..], msg, e);
        msg := msg + 1;
      }
      TrimAt(buf[..], msg, e);
    }

    /** Consume and terminate the next space-separated token. */
    method Word() returns (w: nat, ghost k: nat)
      requires Valid()
      modifies this`msg, buf
      ensures Valid() && w == old(msg) && w + k <= msg
      ensures Terminated(buf[..], w, w + k) && buf[w..w + k] == FirstWord(old(Rest()))
      ensures Rest() == AfterWord(old(Rest()))
      ensures SameOutside(buf[..], old(buf[..]), w, e)
      ensures k == 0 || buf[w] != NUL
    {
      hide Find, Bytes.Trim;
      w := msg;
      var next;
      next, k := StrSep(buf, msg, e, SP);
      ViewOfTerminated(buf[..], w, w + k);
      if next.Some? {
        msg := next.value;
        Trim();
      } else {
        // no separator: the cursor stops at the terminator
        msg := w + ViewOf(buf[..], w).len;
      }
    }

    method Match(c: byte) returns (matched: bool)
      requires Valid() && c != NUL
      modifies this`msg
      ensures Valid() && matched == (old(Rest()) != [] && old(Rest())[0] == c)
      ensures matched ==> msg == old(msg) + 1 && Rest() == old(Rest())[1..]
      ensures !matched ==> msg == old(msg)
    {
      assert msg < e ==> Rest()[0] == buf[msg];
      matched := buf[msg] == c;
      if matched {
        msg := msg + 1;
      }
    }

    predicate IsEmpty()
      reads this, buf
      requires Valid()
      ensures IsEmpty() <==> Rest() == []
    {
      buf[msg] == NUL
    }
  }

  method ParseTagStage(p: Parser) returns (r: Result<seq<TagView>>)
    requires p.Valid()
    modifies p`msg, p.buf
    ensures p.Valid() && old(p.msg) <= p.msg
    ensures SameOutside(p.buf[..], old(p.buf[..]), old(p.msg), p.e)
    ensures p.Rest() == TagStage(old(p.Rest())).rest
    ensures r.Err? ==> TagStage(old(p.Rest())).part == Err(r.error)
    ensures r.Ok? ==> TagsWithin(r.value, old(p.msg), p.msg)
    ensures r.Ok? ==> TagStage(old(p.Rest())).part == Ok(TagTexts(p.buf[..], r.value))
  {
    hide FirstWord, AfterWord, ParseTags;
    var tagged := p.Match(AT);
    if !tagged {
      return Ok([]);
    }
    var w, k := p.Word();
    ghost var mid := p.buf[..];
    r := ParseIrcTags(p.buf, w, w + k);
    assert p.buf[..][p.msg..p.e] == mid[p.msg..p.e];
  }

  method ParseSourceStage(p: Parser) returns (v: View)
    requires p.Valid()
    modifies p`msg, p.buf
    ensures p.Valid() && old(p.msg) <= p.msg
    ensures SameOutside(p.buf[..], old(p.buf[..]), old(p.msg), p.e)
    ensures p.Rest() == SourceStage(old(p.Rest())).rest
    ensures Within(v, old(p.msg), p.msg) && Text(p.buf[..], v) == SourceStage(old(p.Rest())).part
  {
    hide FirstWord, AfterWord;
    var sourced := p.Match(COLON);
    if !sourced {
      return Null;
    }
    var w, k := p.Word();
    ViewOfTerminated(p.buf[..], w, w + k);
    v := ViewOf(p.buf[..], w);
  }

  method ParseCommand(p: Parser) returns (v: View)
    requires p.Valid()
    modifies p`msg, p.buf
    ensures p.Valid() && old(p.msg) <= p.msg
    ensures SameOutside(p.buf[..], old(p.buf[..]), old(p.msg), p.e)
    ensures p.Rest() == AfterWord(old(p.Rest()))
    ensures v.View? && Within(v, old(p.msg), p.msg) && Text(p.buf[..], v) == FirstWord(old(p.Rest()))
  {
    hide FirstWord, AfterWord;
    var w, k := p.Word();
    ViewOfTerminated(p.buf[..], w, w + k);
    v := ViewOf(p.buf[..], w);
  }

  lemma TextsSnoc(mem: seq<byte>, views: seq<View>, v: View, lo: nat, hi: nat)
    requires ViewsWithin(views, lo, hi) && Within(v, lo, hi) && hi <= |mem|
    ensures ViewsWithin(views + [v], lo, hi)
    ensures Texts(mem, views + [v]) == Texts(mem, views) + [Text(mem, v)]
  {
  }

  method ParseArgsStage(p: Parser) returns (args: seq<View>)
    requires p.Valid()
    modifies p`msg, p.buf
    ensures SameOutside(p.buf[..], old(p.buf[..]), old(p.msg), p.e)
    ensures ViewsWithin(args, old(p.msg), p.e)
    ensures Texts(p.buf[..], args) == ParseArgs(old(p.Rest()))
  {
    hide FirstWord, AfterWord;
    ghost var whole := ParseArgs(p.Rest());
    args := [];
    while !p.IsEmpty()
      invariant p.Valid() && old(p.msg) <= p.msg
      invariant SameOutside(p.buf[..], old(p.buf[..]), old(p.msg), p.e)
      invariant ViewsWithin(args, old(p.msg), p.msg)
      invariant whole == Texts(p.buf[..], args) + ParseArgs(p.Rest())
      decreases |p.Rest()|
    {
      ghost var mem, m, rest := p.buf[..], p.msg, p.Rest();
      var last := p.Match(COLON);
      if last {
        ViewOfTerminated(p.buf[..], p.msg, p.e);
        var v := ViewOf(p.buf[..], p.msg);
        TextsSnoc(mem, args, v, old(p.msg), p.e);
        args := args + [v];
        return;
      }
      var v := ParseCommand(p);
      ghost var now := p.buf[..];
      TextsStable(mem, now, args, old(p.msg), m);
      TextsSnoc(now, args, v, old(p.msg), p.msg);
      SnocCons(Texts(now, args), Text(now, v), ParseArgs(p.Rest()));
      args := args + [v];
    }
  }

  method ParseBodyStage(p: Parser) returns (r: Result<MessageView>)
    requires p.Valid()
    modifies p`msg, p.buf
    ensures SameOutside(p.buf[..], old(p.buf[..]), old(p.msg), p.e)
    ensures r.Ok? ==> MessageWithin(r.value, old(p.msg), p.e) && r.value.tags == []
    ensures r.Ok? ==> ParseBody([], old(p.Rest())) == Ok(MessageText(p.buf[..], r.value))
    ensures r.Err? ==> ParseBody([], old(p.Rest())) == Err(r.error)
  {
    hide FirstWord, AfterWord, ParseArgs, SourceStage;
    var source := ParseSourceStage(p);
    ghost var m2, s2 := p.msg, p.buf[..];
    var command := ParseCommand(p);
    ghost var m3, s3 := p.msg, p.buf[..];
    if command.len == 0 {
      return Err(MissingCommand);
    }
    var args := ParseArgsStage(p);
    TextStable(s2, p.buf[..], source, old(p.msg), m2);
    TextStable(s3, p.buf[..], command, old(p.msg), m3);
    r := Ok(MessageView([], source, command, args));
  }

  /** Parse the line at `msg` (terminated at `e`) in place. All views lie inside the line, and when the call
      returns they read exactly what the parser as a function gives on the original bytes. */
  method ParseIrcMessage(buf: array<byte>, msg: nat, ghost e: nat) returns (r: Result<MessageView>)
    requires Terminated(buf[..], msg, e)
    modifies buf
    ensures SameOutside(buf[..], old(buf[..]), msg, e)
    ensures r.Ok? ==> MessageWithin(r.value, msg, e)
    ensures r.Ok? ==> ParseMessage(old(buf[msg..e])) == Ok(MessageText(buf[..], r.value))
    ensures r.Err? ==> ParseMessage(old(buf[msg..e])) == Err(r.error)
  {
    hide FirstWord, AfterWord, ParseArgs, TagStage, SourceStage, Bytes.Trim;
    var p := new Parser(buf, msg, e);
    var tags := ParseTagStage(p);
    if tags.Err? {
      return Err(tags.error);
    }
    ghost var m, mid := p.msg, buf[..];
    r := ParseBodyStage(p);
    TagsStable(mid, buf[..], tags.value, msg, m);
    if r.Ok? {
      r := Ok(r.value.(tags := tags.value));
    }
  }
}
