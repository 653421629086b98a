/** Network masks: the byte-and-tail test the tracker makes, against the bits of the address. */
module MaskTrackers {
  import opened Bytes

  // ------------------------------------------------------------ bits

  function Pow2(n: nat): (r: nat)
    ensures r > 0
  {
    if n == 0 then 1 else 2 * Pow2(n - 1)
  }

  /** Bit `j` of a number, the least significant being bit 0. */
  function Bit(n: nat, j: nat): nat {
    if j == 0 then n % 2 else Bit(n / 2, j - 1)
  }

  /** Bitwise conjunction. */
  function And(a: nat, b: nat): nat {
    if a == 0 then 0 else (a % 2) * (b % 2) + 2 * And(a / 2, b / 2)
  }

  function ShiftRight(a: nat, k: nat): nat {
    if k == 0 then a else ShiftRight(a / 2, k - 1)
  }

  lemma {:induction false} ZeroBit(j: nat)
    ensures Bit(0, j) == 0
  {
    if j > 0 {
      ZeroBit(j - 1);
    }
  }

  lemma {:induction false} AndBit(a: nat, b: nat, j: nat)
    ensures Bit(And(a, b), j) == Bit(a, j) * Bit(b, j)
    ensures Bit(a, j) <= 1
  {
    if a == 0 {
      ZeroBit(j);
    } else {
      var p := (a % 2) * (b % 2);
      assert p == 0 || p == 1;
      assert (p + 2 * And(a / 2, b / 2)) / 2 == And(a / 2, b / 2);
      if j > 0 {
        AndBit(a / 2, b / 2, j - 1);
      }
    }
  }

  lemma {:induction false} AndBound(a: nat, b: nat)
    ensures And(a, b) <= a
  {
    if a != 0 {
      var p := (a % 2) * (b % 2);
      assert p <= a % 2;
      AndBound(a / 2, b / 2);
    }
  }

  lemma {:induction false} BitsDecide(a: nat, b: nat, w: nat)
    requires a < Pow2(w) && b < Pow2(w) && forall j :: 0 <= j < w ==> Bit(a, j) == Bit(b, j)
    ensures a == b
  {
    if w > 0 {
      assert Bit(a, 0) == Bit(b, 0);
      forall j | 0 <= j < w - 1 ensures Bit(a / 2, j) == Bit(b / 2, j) {
        assert Bit(a, j + 1) == Bit(b, j + 1);
      }
      BitsDecide(a / 2, b / 2, w - 1);
    }
  }

  /** The high `k` bits of a `w`-bit number. */
  lemma {:induction false} HighMask(w: nat, k: nat, j: nat)
    requires k <= w && j < w
    ensures Pow2(w - k) <= Pow2(w)
    ensures Bit(Pow2(w) - Pow2(w - k), j) == if j >= w - k then 1 else 0
  {
    if k == 0 {
      ZeroBit(j);
    } else if k == w {
      var m := Pow2(w) - 1;
      assert m % 2 == 1 && m / 2 == Pow2(w - 1) - 1;
      if j > 0 {
        HighMask(w - 1, w - 1, j - 1);
      }
    } else {
      if w - 1 > 0 {
        HighMask(w - 1, k, if j > 0 then j - 1 else 0);
      }
      var m := Pow2(w) - Pow2(w - k);
      assert m == 2 * (Pow2(w - 1) - Pow2(w - 1 - k));
    }
  }

  lemma {:induction false} ShiftPow2(w: nat, k: nat)
    requires k <= w
    ensures ShiftRight(Pow2(w), k) == Pow2(w - k)
  {
    if k > 0 {
      assert Pow2(w) / 2 == Pow2(w - 1);
      ShiftPow2(w - 1, k - 1);
    }
  }

  const TAIL_TOP := 0x100

  function TailMask(bits: nat): (m: int) {
    TAIL_TOP - ShiftRight(TAIL_TOP, bits)
  }

  lemma TailMaskBit(bits: nat, j: nat)
    requires bits <= 8 && j < 8
    ensures TailMask(bits) >= 0 && Bit(TailMask(bits), j) == if j >= 8 - bits then 1 else 0
  {
    assert Pow2(8) == TAIL_TOP;
    ShiftPow2(8, bits);
    HighMask(8, bits, j);
  }

  ghost predicate HighBitsAgree(x: nat, y: nat, bits: nat) {
    forall j: nat :: 8 - bits <= j < 8 ==> Bit(x, j) == Bit(y, j)
  }

  /** Masked bytes are equal exactly when their high `bits` bits are. */
  lemma MaskedEqualIff(x: byte, y: byte, bits: nat)
    requires bits <= 8
    ensures TailMask(bits) >= 0
    ensures And(x as nat, TailMask(bits)) == And(y as nat, TailMask(bits)) <==> HighBitsAgree(x as nat, y as nat, bits)
  {
    hide Bit, And, TailMask;
    var a, b := x as nat, y as nat;
    TailMaskBit(bits, 0);
    var m := TailMask(bits);
    forall j | 0 <= j < 8
      ensures Bit(And(a, m), j) == (if j >= 8 - bits then Bit(a, j) else 0)
      ensures Bit(And(b, m), j) == (if j >= 8 - bits then Bit(b, j) else 0)
    {
      TailMaskBit(bits, j);
      AndBit(a, m, j);
      AndBit(b, m, j);
    }
    if HighBitsAgree(a, b, bits) {
      AndBound(a, m);
      AndBound(b, m);
      assert Pow2(8) == TAIL_TOP;
      BitsDecide(And(a, m), And(b, m), 8);
    }
  }

  // ------------------------------------------------------------ addresses

  /** Bit `i` of an address in network order. */
  function AddressBit(s: seq<byte>, i: nat): nat
    requires i < 8 * |s|
  {
    Bit(s[i / 8] as nat, 7 - i % 8)
  }

  ghost predicate BitsAgree(a: seq<byte>, b: seq<byte>, lo: nat, hi: nat)
    requires |a| == |b|
  {
    forall i: nat :: lo <= i < hi && i < 8 * |a| ==> AddressBit(a, i) == AddressBit(b, i)
  }

  ghost predicate SamePrefix(a: seq<byte>, b: seq<byte>, prefix: nat)
    requires |a| == |b|
  {
    BitsAgree(a, b, 0, prefix)
  }

  /** What a network mask means: the length of the network, and its leading bits. */
  ghost predicate InNetwork(address: seq<byte>, network: seq<byte>, prefix: nat) {
    |address| == |network| && SamePrefix(address, network, prefix)
  }

  datatype Tail = Tail(mask: nat, value: nat, ix: nat)

  /** The constructor's guard: with a partial byte, the network must have it. */
  predicate HasTail(network: seq<byte>, prefix: nat) {
    prefix % 8 == 0 || prefix / 8 < |network|
  }

  function Whole(network: seq<byte>, prefix: nat): nat {
    if prefix / 8 <= |network| then prefix / 8 else |network|
  }

  /** The bytes before the cut agree exactly when all of their bits do. */
  lemma BytesAgreeIff(a: seq<byte>, b: seq<byte>, n: nat)
    requires |a| == |b| && n <= |a|
    ensures a[..n] == b[..n] <==> SamePrefix(a, b, 8 * n)
  {
    hide Bit;
    if a[..n] == b[..n] {
      forall i | 0 <= i < 8 * n ensures AddressBit(a, i) == AddressBit(b, i) {
        assert a[..n][i / 8] == b[..n][i / 8];
      }
    }
    if SamePrefix(a, b, 8 * n) {
      forall k | 0 <= k < n ensures a[k] == b[k] {
        SameByte(a, b, k, 8);
        assert Pow2(8) == TAIL_TOP;
        BitsDecide(a[k] as nat, b[k] as nat, 8);
      }
    }
  }

  /** The leading `bits` bits of byte `k`, as bits of the address and as bits of the byte. */
  lemma SameByte(a: seq<byte>, b: seq<byte>, k: nat, bits: nat)
    requires |a| == |b| && k < |a| && bits <= 8
    ensures BitsAgree(a, b, 8 * k, 8 * k + bits) <==> HighBitsAgree(a[k] as nat, b[k] as nat, bits)
  {
    hide Bit;
    var x: nat, y: nat := a[k] as nat, b[k] as nat;
    if BitsAgree(a, b, 8 * k, 8 * k + bits) {
      forall j: nat | 8 - bits <= j < 8 ensures Bit(x, j) == Bit(y, j) {
        var i := 8 * k + (7 - j);
        assert i / 8 == k && i % 8 == 7 - j;
        assert AddressBit(a, i) == AddressBit(b, i);
      }
    }
    if HighBitsAgree(a[k] as nat, b[k] as nat, bits) {
      forall i: nat | 8 * k <= i < 8 * k + bits ensures AddressBit(a, i) == AddressBit(b, i) {
        assert i / 8 == k && i % 8 == i - 8 * k;
      }
    }
  }

  /** The prefix is its whole bytes and the leading bits of the byte after them. */
  lemma PrefixSplits(a: seq<byte>, b: seq<byte>, prefix: nat)
    requires |a| == |b| && HasTail(b, prefix)
    ensures var n := 8 * Whole(b, prefix);
      SamePrefix(a, b, prefix) <==> SamePrefix(a, b, n) && (prefix % 8 == 0 || BitsAgree(a, b, n, n + prefix % 8))
  {
    hide AddressBit;
    var n := 8 * Whole(b, prefix);
    assert prefix == 8 * (prefix / 8) + prefix % 8;
    assert n <= prefix;
    if SamePrefix(a, b, n) && BitsAgree(a, b, n, n + prefix % 8) {
      forall i: nat | i < prefix && i < 8 * |a| ensures AddressBit(a, i) == AddressBit(b, i) {
      }
    }
  }

  /** The tracker's three tests together decide membership of the network. */
  lemma TestsDecide(a: seq<byte>, b: seq<byte>, prefix: nat)
    requires |a| == |b| && HasTail(b, prefix)
    ensures TailMask(prefix % 8) >= 0
    ensures var n, m := Whole(b, prefix), TailMask(prefix % 8);
      (SamePrefix(a, b, prefix) <==>
       a[..n] == b[..n] && (prefix % 8 == 0 || And(a[n] as nat, m) == And(b[n] as nat, m)))
  {
    hide AddressBit, And, TailMask, SamePrefix, BitsAgree, Bit;
    var n, bits := Whole(b, prefix), prefix % 8;
    PrefixSplits(a, b, prefix);
    BytesAgreeIff(a, b, n);
    TailMaskBit(bits, 0);
    if bits > 0 {
      SameByte(a, b, n, bits);
      MaskedEqualIff(a[n], b[n], bits);
    }
  }

  class MaskTracker {
    var addrlen: nat
    var network: seq<byte>
    var tail: Option<Tail>
    var count: int

    /** The fields are those of this network and prefix. */
    ghost predicate For(net: seq<byte>, prefix: nat)
      reads this`addrlen, this`network, this`tail
    {
      && HasTail(net, prefix)
      && TailMask(prefix % 8) >= 0
      && addrlen == |net|
      && network == net[..Whole(net, prefix)]
      && tail == (if prefix % 8 == 0 then None else
                    var m := TailMask(prefix % 8);
                    Some(Tail(m, And(net[prefix / 8] as nat, m), prefix / 8)))
    }

    constructor (net: seq<byte>, prefix: nat)
      requires HasTail(net, prefix)
      ensures For(net, prefix) && count == 0
    {
      var bytes := prefix / 8;
      var bits := prefix % 8;
      TailMaskBit(bits, 0);
      addrlen := |net|;
      network := net[..if bytes <= |net| then bytes else |net|];
      if bits > 0 {
        var mask := TAIL_TOP - ShiftRight(TAIL_TOP, bits);
        tail := Some(Tail(mask, And(net[bytes] as nat, mask), bytes));
      } else {
        tail := None;
      }
      count := 0;
    }

    /** Exactly the addresses of the network, for every prefix the constructor takes. */
    method Match(address: seq<byte>, ghost net: seq<byte>, ghost prefix: nat) returns (r: bool)
      requires For(net, prefix)
      ensures r <==> InNetwork(address, net, prefix)
    {
      hide And, TailMask;
      if |address| != addrlen {
        return false;
      }
      TestsDecide(address, net, prefix);
      r := network <= address;
      assert r <==> address[..|network|] == network;
      if r && tail.Some? {
        r := And(address[tail.value.ix] as nat, tail.value.mask) == tail.value.value;
      }
    }

    method Delta(i: int)
      modifies this`count
      ensures count == old(count) + i
    {
      count := count + i;
    }
  }
}
