/** CIDR blocks as sets of addresses (section 3.1 of RFC 4632), and the pure walk
    through a block that the crawler performs. */
module Subnet {
  import opened Bytes
  import opened Prelude

  /** The netmask of `n` bytes with `ones` leading one bits. */
  function PrefixMask(ones: nat, n: nat): (m: bytes)
    requires ones <= 8 * n
    ensures |m| == n
  {
    if n == 0 then []
    else
      PrefixMask(Min(ones, 8 * (n - 1)), n - 1)
      + [if ones <= 8 * (n - 1) then 0 else LeadingOnes(ones - 8 * (n - 1))]
  }

  /** A byte with `k` leading one bits. */
  function LeadingOnes(k: nat): bv8
    requires k <= 8
  {
    match k
    case 0 => 0x00
    case 1 => 0x80
    case 2 => 0xC0
    case 3 => 0xE0
    case 4 => 0xF0
    case 5 => 0xF8
    case 6 => 0xFC
    case 7 => 0xFE
    case 8 => 0xFF
  }

  /** `net.IPNet.Contains` on addresses of the block's own width. */
  predicate InBlock(net: bytes, mask: bytes, a: bytes)
    requires |net| == |mask|
  {
    |a| == |net| && forall i :: 0 <= i < |a| ==> Agree(a[i], net[i], mask[i])
  }

  predicate Agree(x: bv8, y: bv8, m: bv8) {
    x & m == y & m
  }

  /** No bit of `a` is set outside `mask`. */
  predicate Within(a: bytes, mask: bytes) {
    |a| == |mask| && forall i :: 0 <= i < |a| ==> Covers(mask[i], a[i])
  }

  predicate Covers(m: bv8, x: bv8) {
    x & m == x
  }

  function Broadcast(net: bytes, mask: bytes): (b: bytes)
    requires |net| == |mask|
    ensures |b| == |net|
  {
    Or(net, Not(mask))
  }

  /** A block as `net.ParseCIDR` returns it: a contiguous mask, host bits clear. */
  ghost predicate ValidBlock(net: bytes, mask: bytes, ones: nat) {
    && 0 < |net| == |mask|
    && ones <= 8 * |net|
    && mask == PrefixMask(ones, |net|)
    && Within(net, mask)
  }

  // ---- A block is an interval of addresses ----

  /** One byte: agreeing with `v` on the leading `k` bits is lying between `v` and
      `v` with every other bit set. */
  lemma ByteRange(a: bv8, v: bv8, k: nat)
    requires k <= 8 && Covers(LeadingOnes(k), v)
    ensures Agree(a, v, LeadingOnes(k)) <==> Num(v) <= Num(a) <= Num(v | !LeadingOnes(k))
  {
    var m := LeadingOnes(k);
    assert m in {0x00, 0x80, 0xC0, 0xE0, 0xF0, 0xF8, 0xFC, 0xFE, 0xFF};
    MaskRange(a, v, m);
  }

  lemma MaskRange(a: bv8, v: bv8, m: bv8)
    requires m == 0x00 || m == 0x80 || m == 0xC0 || m == 0xE0 || m == 0xF0 || m == 0xF8 || m == 0xFC || m == 0xFE || m == 0xFF
    requires Covers(m, v)
    ensures Agree(a, v, m) <==> Num(v) <= Num(a) <= Num(v | !m)
  {
    assert Agree(a, v, m) <==> v <= a <= v | !m;
  }

  lemma {:induction false} FullMask(n: nat)
    ensures PrefixMask(8 * n, n) == seq(n, _ => 0xFF)
  {
    if n > 0 {
      FullMask(n - 1);
      assert LeadingOnes(8) == 0xFF;
    }
  }

  function Pow2(n: nat): (p: nat)
    ensures p > 0
  {
    if n == 0 then 1 else 2 * Pow2(n - 1)
  }

  lemma Pow2Byte(n: nat)
    ensures Pow2(n + 8) == 256 * Pow2(n)
  {
    assert Pow2(n + 8) == 2 * Pow2(n + 7);
    assert Pow2(n + 6) == 2 * Pow2(n + 5) && Pow2(n + 4) == 2 * Pow2(n + 3) && Pow2(n + 2) == 2 * Pow2(n + 1);
  }

  lemma PartialByte(v: bv8, k: nat)
    requires 1 <= k <= 8 && Covers(LeadingOnes(k), v)
    ensures Num(v | !LeadingOnes(k)) == Num(v) + Pow2(8 - k) - 1
  {
    assert Pow2(0) == 1 && Pow2(1) == 2 && Pow2(2) == 4 && Pow2(3) == 8;
    assert Pow2(4) == 16 && Pow2(5) == 32 && Pow2(6) == 64 && Pow2(7) == 128;
    SetLowBits(v, LeadingOnes(k));
  }

  lemma SetLowBits(v: bv8, m: bv8)
    requires m == 0x00 || m == 0x80 || m == 0xC0 || m == 0xE0 || m == 0xF0 || m == 0xF8 || m == 0xFC || m == 0xFE || m == 0xFF
    requires Covers(m, v)
    ensures Num(v | !m) == Num(v) + Num(!m)
  {
    assert v | !m == v + !m;
  }

  /** The block is exactly the interval from the network to the broadcast address;
      in particular the broadcast address is the numerically greatest one. */
  lemma {:induction false} BlockIsRange(net: bytes, mask: bytes, ones: nat, a: bytes)
    requires |net| == |mask| == |a| && ones <= 8 * |net|
    requires mask == PrefixMask(ones, |net|) && Within(net, mask)
    ensures InBlock(net, mask, a) <==> Val(net) <= Val(a) <= Val(Broadcast(net, mask))
  {
    hide *;
    if |net| > 0 {
      var n := |net| - 1;
      var ones', b := Min(ones, 8 * n), Broadcast(net, mask);
      LastByte(net, mask, ones, a);
      BlockIsRange(net[..n], mask[..n], ones', a[..n]);
      if ones <= 8 * n {
        FreeTail(Val(net[..n]), Val(a[..n]), Val(b[..n]), Num(a[n]));
      } else {
        FixedPrefix(Val(net[..n]), Val(a[..n]), Num(net[n]), Num(a[n]), Num(b[n]));
      }
    } else {
      EmptyRange(net, mask, a);
    }
  }

  lemma EmptyRange(net: bytes, mask: bytes, a: bytes)
    requires net == mask == a == []
    ensures InBlock(net, mask, a) && Val(net) == Val(a) == Val(Broadcast(net, mask)) == 0
  {}

  /** The last byte in numbers: either free, or below a fully fixed prefix. */
  lemma LastByte(net: bytes, mask: bytes, ones: nat, a: bytes)
    requires 0 < |net| == |mask| == |a| && ones <= 8 * |net|
    requires mask == PrefixMask(ones, |net|) && Within(net, mask)
    ensures var n, b := |net| - 1, Broadcast(net, mask);
            && 0 <= Min(ones, 8 * n) <= 8 * n
            && mask[..n] == PrefixMask(Min(ones, 8 * n), n) && Within(net[..n], mask[..n])
            && b[..n] == Broadcast(net[..n], mask[..n])
            && Val(net) == Val(net[..n]) * 256 + Num(net[n])
            && Val(a) == Val(a[..n]) * 256 + Num(a[n])
            && Val(b) == Val(b[..n]) * 256 + Num(b[n])
            && (ones <= 8 * n ==>
                  && Num(net[n]) == 0 && Num(b[n]) == 255
                  && (InBlock(net, mask, a) <==> InBlock(net[..n], mask[..n], a[..n])))
            && (ones > 8 * n ==>
                  && b[..n] == net[..n] && Num(b[n]) == Num(net[n]) + Pow2(8 * (n + 1) - ones) - 1
                  && (InBlock(net, mask, a) <==> InBlock(net[..n], mask[..n], a[..n]) && Num(net[n]) <= Num(a[n]) <= Num(b[n])))
  {
    hide Val, InBlock, Broadcast, Within, PrefixMask, LeadingOnes, Agree, Covers, Num, Pow2;
    var n := |net| - 1;
    SplitLast(net, mask, ones, a);
    if ones <= 8 * n {
      FreeByte(a[n], net[n], mask[n]);
    } else {
      FullMaskRange(net[..n], mask[..n]);
      ByteRange(a[n], net[n], ones - 8 * n);
      PartialByte(net[n], ones - 8 * n);
    }
  }

  /** What the last byte contributes to a block, its broadcast address and an address. */
  lemma {:induction false} SplitLast(net: bytes, mask: bytes, ones: nat, a: bytes)
    requires 0 < |net| == |mask| == |a| && ones <= 8 * |net|
    requires mask == PrefixMask(ones, |net|) && Within(net, mask)
    ensures var n, b := |net| - 1, Broadcast(net, mask);
            && mask[..n] == PrefixMask(Min(ones, 8 * n), n) && Within(net[..n], mask[..n])
            && mask[n] == (if ones <= 8 * n then 0 else LeadingOnes(ones - 8 * n)) && Covers(mask[n], net[n])
            && b[..n] == Broadcast(net[..n], mask[..n]) && b[n] == net[n] | !mask[n]
            && (InBlock(net, mask, a) <==> InBlock(net[..n], mask[..n], a[..n]) && Agree(a[n], net[n], mask[n]))
            && Val(net) == Val(net[..n]) * 256 + Num(net[n])
            && Val(a) == Val(a[..n]) * 256 + Num(a[n])
            && Val(b) == Val(b[..n]) * 256 + Num(b[n])
  {
    ValOfLast(net);
    ValOfLast(a);
    ValOfLast(Broadcast(net, mask));
    MaskOfLast(ones, |net|);
    BlockOfLast(net, mask, a);
    BroadcastOfLast(net, mask);
    hide Agree, Covers, LeadingOnes, Val, Num, InBlock, Broadcast, PrefixMask;
  }

  lemma MaskOfLast(ones: nat, n: nat)
    requires 0 < n && ones <= 8 * n
    ensures var m := PrefixMask(ones, n);
            && 0 <= Min(ones, 8 * (n - 1)) <= 8 * (n - 1) && m[..n - 1] == PrefixMask(Min(ones, 8 * (n - 1)), n - 1)
            && m[n - 1] == if ones <= 8 * (n - 1) then 0 else LeadingOnes(ones - 8 * (n - 1))
  {
    hide LeadingOnes;
  }

  lemma BroadcastOfLast(net: bytes, mask: bytes)
    requires 0 < |net| == |mask|
    ensures var n, b := |net| - 1, Broadcast(net, mask);
            b[..n] == Broadcast(net[..n], mask[..n]) && b[n] == net[n] | !mask[n]
  {}

  lemma ValOfLast(s: bytes)
    requires s != []
    ensures Val(s) == Val(s[..|s| - 1]) * 256 + Num(s[|s| - 1])
  {}

  lemma BlockOfLast(net: bytes, mask: bytes, a: bytes)
    requires 0 < |net| == |mask| == |a|
    ensures var n := |net| - 1;
            InBlock(net, mask, a) <==> InBlock(net[..n], mask[..n], a[..n]) && Agree(a[n], net[n], mask[n])
  {
    hide Agree;
  }

  lemma FullMaskRange(net: bytes, mask: bytes)
    requires mask == PrefixMask(8 * |net|, |net|)
    ensures Broadcast(net, mask) == net
  {
    FullMask(|net|);
    forall i | 0 <= i < |net|
      ensures net[i] | !mask[i] == net[i]
    {
      assert mask[i] == 0xFF;
    }
  }

  lemma FreeByte(a: bv8, v: bv8, m: bv8)
    requires m == 0 && Covers(m, v)
    ensures Agree(a, v, m) && Num(v) == 0 && Num(v | !m) == 255 && Num(a) < 256
  {}

  lemma FreeTail(p: nat, q: nat, r: nat, x: nat)
    requires x < 256
    ensures p <= q <= r <==> p * 256 + 0 <= q * 256 + x <= r * 256 + 255
  {}

  lemma FixedPrefix(p: nat, q: nat, lo: nat, x: nat, hi: nat)
    requires lo < 256 && x < 256 && hi < 256
    ensures (p == q && lo <= x <= hi) <==> (p * 256 + lo <= q * 256 + x <= p * 256 + hi)
  {}

  /** A block with `ones` network bits holds 2^h addresses, h the number of host bits. */
  lemma {:induction false} BlockSize(net: bytes, mask: bytes, ones: nat)
    requires |net| == |mask| && ones <= 8 * |net|
    requires mask == PrefixMask(ones, |net|) && Within(net, mask)
    ensures Val(Broadcast(net, mask)) + 1 == Val(net) + Pow2(8 * |net| - ones)
  {
    if net != [] {
      hide Val, InBlock, Broadcast, Within, PrefixMask, Num;
      var n := |net| - 1;
      LastByte(net, mask, ones, net);
      BlockSize(net[..n], mask[..n], Min(ones, 8 * n));
      if ones <= 8 * n {
        Pow2Byte(8 * n - ones);
      }
    }
  }

  // ---- Scrambling is a permutation of the block ----

  /** A mask that is zero on every network bit. */
  ghost predicate HostOnly(x: bytes, mask: bytes) {
    |x| == |mask| && forall i :: 0 <= i < |x| ==> Disjoint(x[i], mask[i])
  }

  predicate Disjoint(x: bv8, m: bv8) {
    x & m == 0
  }

  /** Scrambling is an involution that maps the block onto itself and keeps every
      outside address outside. */
  lemma XorPermutesBlock(net: bytes, mask: bytes, x: bytes, a: bytes)
    requires |net| == |mask| == |a| && HostOnly(x, mask)
    ensures Xor(Xor(a, x), x) == a
    ensures InBlock(net, mask, Xor(a, x)) <==> InBlock(net, mask, a)
  {
    forall i | 0 <= i < |a|
      ensures (a[i] ^ x[i]) ^ x[i] == a[i]
      ensures Agree(a[i] ^ x[i], net[i], mask[i]) <==> Agree(a[i], net[i], mask[i])
    {
      XorByte(a[i], x[i], net[i], mask[i]);
    }
  }

  /** From any address to any other one exactly one mask leads, and none but the zero mask
      leaves an address where it is. */
  lemma XorConnects(a: bytes, b: bytes, x: bytes)
    requires |a| == |b| == |x|
    ensures Xor(a, x) == b <==> x == Xor(a, b)
    ensures Xor(a, x) == a <==> forall i | 0 <= i < |x| :: x[i] == 0
  {
    hide Xor;
    forall i | 0 <= i < |a|
      ensures Xor(a, x)[i] == b[i] <==> x[i] == Xor(a, b)[i]
      ensures Xor(a, x)[i] == a[i] <==> x[i] == 0
    {
      XorConnectsAt(a, b, x, i);
    }
  }

  lemma XorConnectsAt(a: bytes, b: bytes, x: bytes, i: nat)
    requires |a| == |b| == |x| && i < |a|
    ensures Xor(a, x)[i] == b[i] <==> x[i] == Xor(a, b)[i]
    ensures Xor(a, x)[i] == a[i] <==> x[i] == 0
  {
    assert Xor(a, x)[i] == Flip(a[i], x[i]) && Xor(a, b)[i] == Flip(a[i], b[i]);
    hide Xor, Flip;
    FlipBack(a[i], x[i]);
    FlipBack(a[i], b[i]);
    FlipNone(a[i]);
  }

  function Flip(a: bv8, x: bv8): bv8 {
    a ^ x
  }

  lemma FlipBack(a: bv8, x: bv8)
    ensures Flip(a, Flip(a, x)) == x
  {}

  lemma FlipNone(a: bv8)
    ensures Flip(a, a) == 0 && Flip(a, 0) == a
  {}

  lemma XorByte(a: bv8, x: bv8, v: bv8, m: bv8)
    requires Disjoint(x, m)
    ensures (a ^ x) ^ x == a && (Agree(a ^ x, v, m) <==> Agree(a, v, m))
  {}

  // ---- The walk ----

  /** Whether the address that counter `k` scrambles to must be skipped. */
  predicate Skipped(net: bytes, mask: bytes, x: bytes, k: bytes)
    requires |net| == |mask| == |x| == |k|
  {
    Xor(k, x) == Broadcast(net, mask) || Xor(k, x) == net
  }

  /** The counter on which the skip loop stops when it starts from `k`. */
  function Land(net: bytes, mask: bytes, x: bytes, k: bytes): (r: bytes)
    requires |net| == |mask| == |x| == |k|
    ensures |r| == |k|
  {
    if !Skipped(net, mask, x, k) then k
    else if !Skipped(net, mask, x, Incr(k)) then Incr(k)
    else Incr(Incr(k))
  }

  lemma XorInjective(a: bytes, b: bytes, x: bytes)
    requires |a| == |b| == |x| && Xor(a, x) == Xor(b, x)
    ensures a == b
  {
    forall i | 0 <= i < |a|
      ensures a[i] == b[i]
    {
      assert Xor(a, x)[i] == Xor(b, x)[i];
      assert (a[i] ^ x[i]) ^ x[i] == a[i] && (b[i] ^ x[i]) ^ x[i] == b[i];
    }
  }

  /** Three consecutive counters are distinct, so the two skipped addresses cannot
      cover them: the skip loop runs at most twice, for every mask and position. */
  lemma SkipAtMostTwice(net: bytes, mask: bytes, x: bytes, k: bytes)
    requires 0 < |net| == |mask| == |x| == |k|
    ensures !Skipped(net, mask, x, Land(net, mask, x, k))
  {
    var k1, k2 := Incr(k), Incr(Incr(k));
    IncrCarries(k);
    IncrCarries(k1);
    assert Pow256(|k|) >= 256 by { assert Pow256(|k|) == 256 * Pow256(|k| - 1); }
    ValBound(k);
    assert Val(k) != Val(k1) && Val(k1) != Val(k2) && Val(k) != Val(k2);
    if Skipped(net, mask, x, k) && Skipped(net, mask, x, k1) && Skipped(net, mask, x, k2) {
      if Xor(k, x) == Xor(k1, x) {
        XorInjective(k, k1, x);
      } else if Xor(k, x) == Xor(k2, x) {
        XorInjective(k, k2, x);
      } else {
        XorInjective(k1, k2, x);
      }
    }
  }

  /** With at least one network bit the counter cannot wrap around inside the block. */
  lemma {:induction false} NoWrapInside(net: bytes, mask: bytes, ones: nat, k: bytes)
    requires ValidBlock(net, mask, ones) && 1 <= ones && InBlock(net, mask, k)
    ensures InBlock(net, mask, Incr(k)) ==> Val(Incr(k)) == Val(k) + 1
    ensures !InBlock(net, mask, Incr(k)) ==> Val(k) == Val(Broadcast(net, mask))
  {
    var b := Broadcast(net, mask);
    BlockIsRange(net, mask, ones, k);
    BlockIsRange(net, mask, ones, Incr(k));
    BlockSize(net, mask, ones);
    IncrCarries(k);
    ValBound(b);
    HalfSpace(|net|, ones);
  }

  lemma HalfSpace(n: nat, ones: nat)
    requires 1 <= ones <= 8 * n
    ensures Pow2(8 * n - ones) < Pow256(n)
  {
    Pow2Monotone(8 * n - ones, 8 * n - 1);
    Pow2IsPow256(n);
  }

  lemma {:induction false} Pow2Monotone(a: nat, b: nat)
    requires a <= b
    ensures Pow2(a) <= Pow2(b)
    decreases b
  {
    if a < b {
      Pow2Monotone(a, b - 1);
    }
  }

  lemma {:induction false} Pow2IsPow256(n: nat)
    ensures Pow2(8 * n) == Pow256(n)
  {
    if n > 0 {
      Pow2IsPow256(n - 1);
      Pow2Byte(8 * n - 8);
    }
  }

  /** The addresses yielded from counter `k` on, in order. */
  ghost function Walk(net: bytes, mask: bytes, ones: nat, x: bytes, k: bytes): seq<bytes>
    requires ValidBlock(net, mask, ones) && 1 <= ones && |x| == |k| == |net|
    decreases if InBlock(net, mask, k) then Val(Broadcast(net, mask)) + 1 - Val(k) else 0
  {
    if !InBlock(net, mask, k) then []
    else
      NoWrapInside(net, mask, ones, k);
      BlockIsRange(net, mask, ones, k);
      BlockIsRange(net, mask, ones, Incr(k));
      (if Skipped(net, mask, x, k) then [] else [Xor(k, x)]) + Walk(net, mask, ones, x, Incr(k))
  }

  ghost predicate Distinct<T>(s: seq<T>) {
    forall i, j :: 0 <= i < j < |s| ==> s[i] != s[j]
  }

  lemma DistinctCons<T>(x: T, s: seq<T>)
    requires Distinct(s) && x !in s
    ensures Distinct([x] + s)
  {}

  /** One step of the walk. */
  lemma WalkStep(net: bytes, mask: bytes, ones: nat, x: bytes, k: bytes)
    requires ValidBlock(net, mask, ones) && 1 <= ones && |x| == |net| && InBlock(net, mask, k)
    ensures var rest := Walk(net, mask, ones, x, Incr(k));
            && Walk(net, mask, ones, x, k) == (if Skipped(net, mask, x, k) then rest else [Xor(k, x)] + rest)
            && Val(k) <= Val(Broadcast(net, mask))
            && (InBlock(net, mask, Incr(k)) ==> Val(Incr(k)) == Val(k) + 1)
            && (!InBlock(net, mask, Incr(k)) ==> Val(k) == Val(Broadcast(net, mask)) && rest == [])
  {
    NoWrapInside(net, mask, ones, k);
    BlockIsRange(net, mask, ones, k);
    hide Xor, InBlock, Broadcast, Val, Incr, PrefixMask, Within, Num;
  }

  /** The one counter that scrambles to `a`. */
  lemma CounterOf(net: bytes, mask: bytes, ones: nat, x: bytes, k: bytes, a: bytes)
    requires ValidBlock(net, mask, ones) && HostOnly(x, mask) && InBlock(net, mask, k) && |a| == |net|
    ensures InBlock(net, mask, Xor(k, x))
    ensures Val(Xor(a, x)) == Val(k) <==> a == Xor(k, x)
    ensures InBlock(net, mask, a) ==> Val(net) <= Val(Xor(a, x)) <= Val(Broadcast(net, mask))
  {
    XorPermutesBlock(net, mask, x, a);
    XorPermutesBlock(net, mask, x, k);
    BlockIsRange(net, mask, ones, Xor(a, x));
    hide Xor, InBlock, Broadcast, Val, PrefixMask, Within, Num;
    if Val(Xor(a, x)) == Val(k) {
      ValInjective(Xor(a, x), k);
    }
  }

  /** `a` is a block address other than network and broadcast whose counter is `lo` or more. */
  ghost predicate Ahead(net: bytes, mask: bytes, x: bytes, lo: nat, a: bytes)
    requires |net| == |mask| == |x|
  {
    InBlock(net, mask, a) && a != net && a != Broadcast(net, mask) && Val(Xor(a, x)) >= lo
  }

  /** From counter `k` on, the walk yields the block addresses other than network and
      broadcast whose counter is still to come... */
  lemma {:induction false} WalkYields(net: bytes, mask: bytes, ones: nat, x: bytes, k: bytes, a: bytes)
    requires ValidBlock(net, mask, ones) && 1 <= ones && HostOnly(x, mask) && InBlock(net, mask, k) && |a| == |net|
    ensures a in Walk(net, mask, ones, x, k) <==> Ahead(net, mask, x, Val(k), a)
    decreases Val(Broadcast(net, mask)) + 1 - Val(k)
  {
    assert |x| == |net| == |mask|;
    hide *;
    WalkStep(net, mask, ones, x, k);
    AheadStep(net, mask, ones, x, k, a);
    var rest := Walk(net, mask, ones, x, Incr(k));
    InCons(Xor(k, x), rest, a);
    if InBlock(net, mask, Incr(k)) {
      WalkYields(net, mask, ones, x, Incr(k), a);
    } else {
      assert a !in rest;
    }
  }

  lemma InCons<T>(x: T, s: seq<T>, a: T)
    ensures a in [x] + s <==> a == x || a in s
  {}

  lemma {:induction false} AheadStep(net: bytes, mask: bytes, ones: nat, x: bytes, k: bytes, a: bytes)
    requires ValidBlock(net, mask, ones) && HostOnly(x, mask) && InBlock(net, mask, k) && |a| == |net|
    ensures |k| == |net|
    ensures Ahead(net, mask, x, Val(k), a) <==>
              Ahead(net, mask, x, Val(k) + 1, a) || (a == Xor(k, x) && !Skipped(net, mask, x, k))
    ensures !Ahead(net, mask, x, Val(Broadcast(net, mask)) + 1, a)
  {
    CounterOf(net, mask, ones, x, k, a);
    hide Xor, InBlock, Broadcast, Val, PrefixMask, Within, Num;
  }

  /** ... each of them once. */
  lemma {:induction false} WalkDistinct(net: bytes, mask: bytes, ones: nat, x: bytes, k: bytes)
    requires ValidBlock(net, mask, ones) && 1 <= ones && HostOnly(x, mask) && InBlock(net, mask, k)
    ensures Distinct(Walk(net, mask, ones, x, k))
    decreases Val(Broadcast(net, mask)) + 1 - Val(k)
  {
    WalkStep(net, mask, ones, x, k);
    CounterOf(net, mask, ones, x, k, Xor(k, x));
    hide Xor, InBlock, Broadcast, Val, Incr, PrefixMask, Within, Num, Walk, HostOnly;
    if InBlock(net, mask, Incr(k)) {
      WalkDistinct(net, mask, ones, x, Incr(k));
      WalkYields(net, mask, ones, x, Incr(k), Xor(k, x));
      if !Skipped(net, mask, x, k) {
        DistinctCons(Xor(k, x), Walk(net, mask, ones, x, Incr(k)));
      }
    }
  }

  /** How many of the two skipped addresses are still to come from counter `k` on. */
  ghost function SkipsAhead(net: bytes, mask: bytes, x: bytes, lo: nat): nat
    requires |net| == |mask| == |x|
  {
    var b := Broadcast(net, mask);
    (if Val(Xor(net, x)) >= lo then 1 else 0) + (if b != net && Val(Xor(b, x)) >= lo then 1 else 0)
  }

  lemma {:induction false} WalkLength(net: bytes, mask: bytes, ones: nat, x: bytes, k: bytes)
    requires ValidBlock(net, mask, ones) && 1 <= ones && HostOnly(x, mask) && InBlock(net, mask, k)
    ensures |Walk(net, mask, ones, x, k)| + SkipsAhead(net, mask, x, Val(k)) == Val(Broadcast(net, mask)) + 1 - Val(k)
    decreases Val(Broadcast(net, mask)) + 1 - Val(k)
  {
    hide Xor, InBlock, Broadcast, Val, Incr, PrefixMask, Within, Num, Walk;
    var b := Broadcast(net, mask);
    NetAndBroadcastInside(net, mask, ones);
    WalkStep(net, mask, ones, x, k);
    CounterOf(net, mask, ones, x, k, net);
    CounterOf(net, mask, ones, x, k, b);
    if InBlock(net, mask, Incr(k)) {
      WalkLength(net, mask, ones, x, Incr(k));
    }
  }

  lemma NetAndBroadcastInside(net: bytes, mask: bytes, ones: nat)
    requires ValidBlock(net, mask, ones)
    ensures InBlock(net, mask, net) && InBlock(net, mask, Broadcast(net, mask))
    ensures Val(net) <= Val(Broadcast(net, mask))
    ensures Broadcast(net, mask) == net <==> ones == 8 * |net|
  {
    var b := Broadcast(net, mask);
    BlockSize(net, mask, ones);
    BlockIsRange(net, mask, ones, net);
    BlockIsRange(net, mask, ones, b);
    if Val(b) == Val(net) {
      ValInjective(b, net);
    }
    if ones < 8 * |net| {
      Pow2Monotone(1, 8 * |net| - ones);
    }
  }

  /** Exact coverage: for every block with at least one network bit and every scrambling
      mask, the walk from the network address yields every address of the block except
      network and broadcast, each exactly once, and nothing else; that is 2^h - 2
      addresses for h >= 1 host bits and none for h = 0. */
  lemma CrawlCoversBlock(net: bytes, mask: bytes, ones: nat, x: bytes)
    requires ValidBlock(net, mask, ones) && 1 <= ones && HostOnly(x, mask)
    ensures var w := Walk(net, mask, ones, x, net);
            && Distinct(w)
            && (forall a: bytes | |a| == |net| :: a in w <==>
                 InBlock(net, mask, a) && a != net && a != Broadcast(net, mask))
            && |w| == if ones == 8 * |net| then 0 else Pow2(8 * |net| - ones) - 2
  {
    var b := Broadcast(net, mask);
    NetAndBroadcastInside(net, mask, ones);
    WalkDistinct(net, mask, ones, x, net);
    WalkLength(net, mask, ones, x, net);
    BlockSize(net, mask, ones);
    CounterOf(net, mask, ones, x, net, net);
    CounterOf(net, mask, ones, x, net, b);
    hide Xor, InBlock, Broadcast, Val, PrefixMask, Within, Num, Walk, HostOnly, Pow2;
    forall a: bytes | |a| == |net|
      ensures a in Walk(net, mask, ones, x, net) <==> InBlock(net, mask, a) && a != net && a != b
    {
      WalkYields(net, mask, ones, x, net, a);
      CounterOf(net, mask, ones, x, net, a);
    }
  }

  /** With no network bit, every address is inside the block. */
  lemma AllInside(net: bytes, mask: bytes, k: bytes)
    requires ValidBlock(net, mask, 0) && |k| == |net|
    ensures InBlock(net, mask, k)
  {
    var b := Broadcast(net, mask);
    BlockSize(net, mask, 0);
    Pow2IsPow256(|net|);
    BlockIsRange(net, mask, 0, k);
    ValBound(k);
    ValBound(b);
  }
}
