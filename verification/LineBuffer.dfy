/** The fixed-size receive buffer with line-oriented dispatch. */
module LineBuffers {
  import opened Bytes
  import opened InPlaceParser

  /** `p` is where a terminated string reading `text` starts; its terminator is at `p + |text|`. */
  ghost predicate HoldsLine(mem: seq<byte>, p: nat, text: seq<byte>) {
    p + |text| < |mem| && mem[p..p + |text|] == text && mem[p + |text|] == NUL
  }

  class LineBuffer {
    const buffer: array<byte>
    var start: nat   // first byte not yet handed out
    var search: nat  // no newline before this
    var end: nat     // first free byte

    ghost predicate Valid()
      reads this, buffer
    {
      start <= search <= end <= buffer.Length && forall i :: start <= i < search ==> buffer[i] != LF
    }

    /** The bytes received and not yet handed out. */
    ghost function Pending(): seq<byte>
      reads this, buffer
      requires Valid()
    {
      buffer[start..end]
    }

    constructor (n: nat)
      ensures Valid() && fresh(buffer) && buffer.Length == n
      ensures Pending() == [] && start == 0
    {
      buffer := new byte[n](_ => NUL);
      start, search, end := 0, 0, 0;
    }

    /** The free space at the end of the buffer. */
    method Prepare() returns (first: nat, size: nat)
      requires Valid()
      ensures first == end && first + size == buffer.Length
    {
      return end, buffer.Length - end;
    }

    /** A read has put `data` into the space that `Prepare` returned; make it part of the buffered bytes. */
    method Commit(data: seq<byte>)
      requires Valid() && end + |data| <= buffer.Length
      modifies this`end, buffer
      ensures Valid() && end == old(end) + |data|
      ensures Pending() == old(Pending()) + data
    {
      for i := 0 to |data|
        invariant Valid()
        invariant buffer[..end] == old(buffer[..end]) && buffer[end..end + i] == data[..i]
      {
        ghost var mem := buffer[..];
        buffer[end + i] := data[i];
        assert buffer[..] == mem[end + i := data[i]];
        assert buffer[..end] == mem[..end];
        assert buffer[end..end + i + 1] == mem[end..end + i] + [data[i]];
      }
      assert buffer[start..end + |data|] == buffer[..end][start..] + buffer[end..end + |data|];
      assert buffer[start..end] == buffer[..end][start..];
      end := end + |data|;
    }

    /** The next complete line, terminated in place, without its newline and one carriage return before it. */
    method NextLine() returns (line: Option<nat>)
      requires Valid()
      modifies this`start, this`search, buffer
      ensures Valid() && old(start) <= start
      ensures SameOutside(buffer[..], old(buffer[..]), old(start), start)
      ensures line == if LF in old(Pending()) then Some(old(start)) else None
      ensures line.None? ==> search == end && Pending() == old(Pending())
      ensures line.Some? ==> start == old(start) + Find(old(Pending()), LF) + 1
      ensures line.Some? ==> Pending() == old(Pending())[Find(old(Pending()), LF) + 1..]
      ensures line.Some? ==>
        HoldsLine(buffer[..start], old(start), StripCR(old(Pending())[..Find(old(Pending()), LF)]))
    {
      hide Find, StripCR, HoldsLine, SameOutside;
      ghost var pending := Pending();
      Untouched(buffer[..], start);
      var nl := FindNewline();
      if nl == end {
        search := end;
        return None;
      }
      var result := start;
      var stop := if start < nl && buffer[nl - 1] == CR then nl - 1 else nl;
      ghost var mem := buffer[..];
      Cutting(mem, start, nl, end);
      buffer[stop] := NUL;
      assert buffer[..] == mem[stop := NUL];
      start, search := nl + 1, nl + 1;
      line := Some(result);
    }

    lemma Untouched(mem: seq<byte>, p: nat)
      requires p <= |mem|
      ensures SameOutside(mem, mem, p, p)
    {
    }

    /** The search resumes where the last one stopped. */
    method FindNewline() returns (nl: nat)
      requires Valid()
      ensures search <= nl <= end && nl - start == Find(Pending(), LF)
    {
      hide Find;
      nl := search;
      while nl < end && buffer[nl] != LF
        modifies {}
        invariant search <= nl <= end
        invariant forall i :: start <= i < nl ==> buffer[i] != LF
      {
        nl := nl + 1;
      }
      FindIs(Pending(), LF, nl - start);
    }

    lemma Cutting(mem: seq<byte>, start: nat, nl: nat, end: nat)
      requires start <= nl < end <= |mem|
      ensures var stop := if start < nl && mem[nl - 1] == CR then nl - 1 else nl;
        var m := mem[stop := NUL];
        && HoldsLine(m[..nl + 1], start, StripCR(mem[start..end][..nl - start]))
        && m[nl + 1..end] == mem[start..end][nl + 1 - start..]
        && SameOutside(m, mem, start, nl + 1)
    {
      var stop := if start < nl && mem[nl - 1] == CR then nl - 1 else nl;
      var raw := mem[start..end][..nl - start];
      assert raw == mem[start..nl];
      assert StripCR(raw) == mem[start..stop];
      assert mem[stop := NUL][..nl + 1][start..stop] == mem[start..stop];
    }

    /** Move the incomplete line to the front of the buffer. */
    method Shift()
      requires Valid()
      modifies this, buffer
      ensures Valid() && start == 0
      ensures Pending() == old(Pending())
    {
      var gap := start;
      if gap != 0 {
        ghost var pending := Pending();
        assert forall j :: 0 <= j < search - gap ==> pending[j] != LF;
        var i := start;
        while i < end
          invariant old(start) <= i <= end == old(end)
          invariant start == old(start) && search == old(search)
          invariant buffer[..i - gap] == pending[..i - gap]
          invariant buffer[i..end] == pending[i - gap..]
        {
          ghost var mem := buffer[..];
          assert mem[i] == mem[i..end][0] == pending[i - gap];
          assert mem[i + 1..end] == mem[i..end][1..];
          buffer[i - gap] := buffer[i];
          assert buffer[..] == mem[i - gap := mem[i]];
          assert buffer[..i - gap + 1] == mem[..i - gap] + [mem[i]];
          assert buffer[i + 1..end] == mem[i + 1..end];
          i := i + 1;
        }
        end := end - gap;
        start := 0;
        search := search - gap;
        forall j | 0 <= j < search ensures buffer[j] != LF {
          assert buffer[j] == buffer[..end][j] == pending[j];
        }
      }
    }
  }
}
