/** The CIDR crawl strategy: byte slices updated in place, one address per call. */
module Crawl {
  import opened Bytes
  import opened Subnet

  method Complement(m: array<bv8>)
    modifies m
    ensures m[..] == Not(old(m[..]))
  {
    for i := 0 to m.Length
      invariant forall j :: 0 <= j < i ==> m[j] == !old(m[j])
      invariant forall j :: i <= j < m.Length ==> m[j] == old(m[j])
    {
      m[i] := m[i] ^ 0xFF;
    }
  }

  method XorMask(dst: array<bv8>, src: array<bv8>)
    requires dst != src && dst.Length == src.Length
    modifies dst
    ensures dst[..] == Xor(old(dst[..]), src[..])
  {
    for i := 0 to dst.Length
      invariant forall j :: 0 <= j < i ==> dst[j] == old(dst[j]) ^ src[j]
      invariant forall j :: i <= j < dst.Length ==> dst[j] == old(dst[j])
    {
      dst[i] := dst[i] ^ src[i];
    }
  }

  method AndMask(dst: array<bv8>, src: array<bv8>)
    requires dst != src && dst.Length == src.Length
    modifies dst
    ensures dst[..] == And(old(dst[..]), src[..])
  {
    for i := 0 to dst.Length
      invariant forall j :: 0 <= j < i ==> dst[j] == old(dst[j]) & src[j]
      invariant forall j :: i <= j < dst.Length ==> dst[j] == old(dst[j])
    {
      dst[i] := dst[i] & src[i];
    }
  }

  method Copy(dst: array<bv8>, src: bytes)
    requires dst.Length == |src|
    modifies dst
    ensures dst[..] == src
  {
    for i := 0 to dst.Length
      invariant dst[..i] == src[..i]
    {
      dst[i] := src[i];
    }
  }

  /** The drawn mask is zero on the network bits and agrees with the random bytes on all host
      bits; so every host mask can be drawn. */
  lemma MaskedIsHostOnly(random: bytes, mask: bytes)
    requires |random| == |mask|
    ensures HostOnly(And(random, Not(mask)), mask) && Not(Not(mask)) == mask
    ensures InBlock(random, Not(mask), And(random, Not(mask)))
    ensures HostOnly(random, mask) ==> And(random, Not(mask)) == random
  {
    forall i | 0 <= i < |mask|
      ensures Disjoint(random[i] & !mask[i], mask[i]) && !!mask[i] == mask[i]
      ensures Agree(random[i] & !mask[i], random[i], !mask[i])
      ensures Disjoint(random[i], mask[i]) ==> random[i] & !mask[i] == random[i]
    {
      ClearedByte(random[i], mask[i]);
    }
  }

  lemma ClearedByte(r: bv8, m: bv8)
    ensures Disjoint(r & !m, m) && !!m == m && Agree(r & !m, r, !m)
    ensures Disjoint(r, m) ==> r & !m == r
  {}

  class CIDR {
    const port: int
    const netIP: array<bv8>
    const netMask: array<bv8>
    const ip: array<bv8>
    const bcst: array<bv8>
    const mask: array<bv8>
    /** Whether the slice `ip` has been given its length yet. */
    var started: bool
    ghost const ones: nat

    ghost predicate Shape()
      reads netIP, netMask
    {
      && netIP.Length == netMask.Length == ip.Length == bcst.Length == mask.Length
      && netIP != netMask && netIP != ip && netIP != bcst && netIP != mask
      && netMask != ip && netMask != bcst && netMask != mask
      && ip != bcst && ip != mask && bcst != mask
      && ValidBlock(netIP[..], netMask[..], ones)
    }

    ghost predicate Valid()
      reads this, netIP, netMask, bcst, mask
    {
      && Shape()
      && bcst[..] == Broadcast(netIP[..], netMask[..])
      && HostOnly(mask[..], netMask[..])
    }

    /** NewCIDR: the parsed subnet, already reset. `random` is what crypto/rand delivers. */
    constructor (net: bytes, netmask: bytes, port: int, random: bytes, ghost ones: nat)
      requires ValidBlock(net, netmask, ones) && |random| == |net|
      ensures Valid() && fresh(netIP) && fresh(netMask) && fresh(ip) && fresh(bcst) && fresh(mask)
      ensures netIP[..] == net && netMask[..] == netmask && this.port == port && this.ones == ones && !started
    {
      this.port := port;
      this.ones := ones;
      netIP := new bv8[|net|](i requires 0 <= i < |net| => net[i]);
      netMask := new bv8[|net|](i requires 0 <= i < |net| => netmask[i]);
      ip := new bv8[|net|];
      bcst := new bv8[|net|];
      mask := new bv8[|net|];
      started := false;
      new;
      assert netIP[..] == net && netMask[..] == netmask;
      Reset(random);
    }

    /** Restarts the crawl under a new scrambling mask. The netmask is complemented in
        place on the way and comes back unchanged. */
    method Reset(random: bytes)
      requires Shape() && |random| == mask.Length
      modifies this, netMask, bcst, mask
      ensures Valid() && !started
      ensures netMask[..] == old(netMask[..])
      ensures mask[..] == And(random, Not(netMask[..]))
    {
      started := false;
      SetBroadcast();
      SetRandomMask(random);
    }

    method SetBroadcast()
      requires Shape()
      modifies bcst
      ensures bcst[..] == Broadcast(netIP[..], netMask[..])
    {
      Copy(bcst, netIP[..]);
      for i := 0 to netMask.Length
        invariant forall j :: bcst.Length - i <= j < bcst.Length ==> bcst[j] == netIP[j] | !netMask[j]
      {
        var ipIdx := bcst.Length - i - 1;
        bcst[ipIdx] := netIP[ipIdx] | !netMask[netMask.Length - i - 1];
      }
    }

    method SetRandomMask(random: bytes)
      requires Shape() && |random| == mask.Length
      modifies netMask, mask
      ensures netMask[..] == old(netMask[..])
      ensures mask[..] == And(random, Not(netMask[..])) && HostOnly(mask[..], netMask[..])
      ensures InBlock(random, Not(netMask[..]), mask[..])
    {
      MaskedIsHostOnly(random, netMask[..]);
      Copy(mask, random);
      Complement(netMask);
      AndMask(mask, netMask);
      Complement(netMask);
    }

    method IncrIP()
      modifies ip
      ensures ip[..] == Incr(old(ip[..]))
    {
      ghost var start := ip[..];
      var i := ip.Length - 1;
      assert start[..i + 1] == start && ip[i + 1..] == [];
      while i >= 0
        invariant -1 <= i < ip.Length
        invariant ip[..i + 1] == start[..i + 1]
        invariant Incr(start) == Incr(start[..i + 1]) + ip[i + 1..]
      {
        var b := ip[i];
        ip[i] := b + 1;
        assert start[..i + 1][..i] == start[..i] && start[..i + 1][i] == b;
        assert ip[i..] == [b + 1] + ip[i + 1..];
        if ip[i] > 0 {
          assert ip[..] == start[..i] + [b + 1] + ip[i + 1..];
          return;
        }
        i := i - 1;
      }
    }

    /** Writes the scrambled counter to `dst` and reports whether it is to be skipped. */
    method Skip(dst: array<bv8>) returns (skip: bool)
      requires Valid() && dst.Length == ip.Length
      requires dst != ip && dst != mask && dst != bcst && dst != netIP && dst != netMask
      modifies dst
      ensures dst[..] == Xor(ip[..], mask[..])
      ensures skip == Skipped(netIP[..], netMask[..], mask[..], ip[..])
    {
      Copy(dst, ip[..]);
      XorMask(dst, mask);
      skip := dst[..] == bcst[..] || dst[..] == netIP[..];
    }

    /** Binds the next address. The returned flag says whether the crawl was still inside
        the block; when it is false the bound address is scratch. */
    method Next() returns (addr: bytes, more: bool)
      requires Valid()
      modifies this`started, ip
      ensures Valid() && started
      ensures ip[..] == Land(netIP[..], netMask[..], mask[..], if old(started) then Incr(old(ip[..])) else netIP[..])
      ensures addr == Xor(ip[..], mask[..]) && addr != netIP[..] && addr != bcst[..]
      ensures more == InBlock(netIP[..], netMask[..], ip[..])
    {
      var dst := new bv8[netIP.Length];
      if started {
        IncrIP();
      } else {
        started := true;
        Copy(ip, netIP[..]);
      }
      ghost var k0, net, nm, x := ip[..], netIP[..], netMask[..], mask[..];
      SkipAtMostTwice(net, nm, x, k0);
      hide Incr, Xor, Broadcast, InBlock, HostOnly, Within, PrefixMask;
      var again := Skip(dst);
      ghost var skips := 0;
      while again
        invariant started && 0 <= skips <= 2
        invariant ip[..] == (if skips == 0 then k0 else if skips == 1 then Incr(k0) else Incr(Incr(k0)))
        invariant skips >= 1 ==> Skipped(net, nm, x, k0)
        invariant skips >= 2 ==> Skipped(net, nm, x, Incr(k0))
        invariant again == Skipped(net, nm, x, ip[..])
        invariant dst[..] == Xor(ip[..], x)
        decreases 2 - skips
      {
        IncrIP();
        skips := skips + 1;
        again := Skip(dst);
      }
      addr := dst[..];
      more := InBlock(netIP[..], netMask[..], ip[..]);
    }
  }

  /** The crawl a client performs: call Next until it first reports false. For every block
      with a network bit and every mask it binds exactly the block addresses other than
      network and broadcast, each once. */
  method CrawlAll(c: CIDR) returns (seen: seq<bytes>)
    requires c.Valid() && !c.started && 1 <= c.ones
    modifies c, c.ip
    ensures seen == Walk(c.netIP[..], c.netMask[..], c.ones, c.mask[..], c.netIP[..])
    ensures Distinct(seen)
    ensures forall a: bytes | |a| == c.netIP.Length :: a in seen <==>
              InBlock(c.netIP[..], c.netMask[..], a) && a != c.netIP[..] && a != c.bcst[..]
    ensures |seen| == if c.ones == 8 * c.netIP.Length then 0 else Pow2(8 * c.netIP.Length - c.ones) - 2
  {
    ghost var net, nm, x := c.netIP[..], c.netMask[..], c.mask[..];
    CrawlCoversBlock(net, nm, c.ones, x);
    seen := Drain(c);
  }

  method Drain(c: CIDR) returns (seen: seq<bytes>)
    requires c.Valid() && !c.started && 1 <= c.ones
    modifies c, c.ip
    ensures c.Valid() && seen == Walk(c.netIP[..], c.netMask[..], c.ones, c.mask[..], c.netIP[..])
  {
    ghost var net, nm, x, ones := c.netIP[..], c.netMask[..], c.mask[..], c.ones;
    WalkFromLand(net, nm, ones, x, net);
    hide Incr, Xor, Broadcast, InBlock, HostOnly, Within, PrefixMask, Walk, Val, Land;
    seen := [];
    var addr, more := c.Next();
    while more
      invariant c.Valid() && c.started && c.netIP[..] == net && c.netMask[..] == nm && c.mask[..] == x
      invariant more == InBlock(net, nm, c.ip[..])
      invariant !Skipped(net, nm, x, c.ip[..]) && addr == Xor(c.ip[..], x)
      invariant seen + Walk(net, nm, ones, x, c.ip[..]) == Walk(net, nm, ones, x, net)
      decreases if more then Val(Broadcast(net, nm)) + 1 - Val(c.ip[..]) else 0
    {
      ghost var k := c.ip[..];
      WalkStep(net, nm, ones, x, k);
      WalkFromLand(net, nm, ones, x, Incr(k));
      MoveOver(seen, addr, Walk(net, nm, ones, x, Incr(k)));
      seen := seen + [addr];
      addr, more := c.Next();
    }
    WalkEnds(net, nm, ones, x, c.ip[..]);
  }

  lemma MoveOver<T>(s: seq<T>, x: T, t: seq<T>)
    ensures s + ([x] + t) == (s + [x]) + t
  {}

  lemma WalkEnds(net: bytes, mask: bytes, ones: nat, x: bytes, k: bytes)
    requires ValidBlock(net, mask, ones) && 1 <= ones && |x| == |k| == |net| && !InBlock(net, mask, k)
    ensures Walk(net, mask, ones, x, k) == []
  {}

  /** Skipping ahead does not change what remains of the walk, and never re-enters the
      block behind the counter. */
  lemma WalkFromLand(net: bytes, mask: bytes, ones: nat, x: bytes, k: bytes)
    requires ValidBlock(net, mask, ones) && 1 <= ones && |x| == |k| == |net|
    requires HostOnly(x, mask)
    ensures var l := Land(net, mask, x, k);
            && Walk(net, mask, ones, x, l) == Walk(net, mask, ones, x, k)
            && !Skipped(net, mask, x, l)
            && (!InBlock(net, mask, k) ==> l == k)
            && (InBlock(net, mask, l) ==> Val(l) >= Val(k))
  {
    SkipAtMostTwice(net, mask, x, k);
    if !InBlock(net, mask, k) {
      OutsideIsKept(net, mask, ones, x, k);
    } else {
      WalkStep(net, mask, ones, x, k);
      if !InBlock(net, mask, Incr(k)) {
        OutsideIsKept(net, mask, ones, x, Incr(k));
      } else {
        WalkStep(net, mask, ones, x, Incr(k));
      }
    }
    hide Incr, Xor, Broadcast, InBlock, HostOnly, Within, PrefixMask, Walk, Val, Skipped;
  }

  /** An outside counter never scrambles to one of the two skipped addresses. */
  lemma OutsideIsKept(net: bytes, mask: bytes, ones: nat, x: bytes, k: bytes)
    requires ValidBlock(net, mask, ones) && HostOnly(x, mask) && |k| == |net| && !InBlock(net, mask, k)
    ensures !Skipped(net, mask, x, k)
  {
    NetAndBroadcastInside(net, mask, ones);
    XorPermutesBlock(net, mask, x, k);
  }

  /** The counter at which call number `i` of Next stops, from 0. */
  function Counter(net: bytes, mask: bytes, x: bytes, i: nat): (k: bytes)
    requires |net| == |mask| == |x|
    ensures |k| == |net|
    decreases i
  {
    Land(net, mask, x, if i == 0 then net else Incr(Counter(net, mask, x, i - 1)))
  }

  /** From one counter to the next, the walk loses its first address. */
  lemma NextCounter(net: bytes, mask: bytes, ones: nat, x: bytes, k: bytes)
    requires ValidBlock(net, mask, ones) && 1 <= ones && HostOnly(x, mask) && |k| == |net|
    requires !Skipped(net, mask, x, k) && Walk(net, mask, ones, x, k) != []
    ensures var k' := Land(net, mask, x, Incr(k));
            !Skipped(net, mask, x, k') && Walk(net, mask, ones, x, k') == Walk(net, mask, ones, x, k)[1..]
  {
    assert |x| == |net|;
    hide Incr, Xor, Broadcast, InBlock, HostOnly, Within, PrefixMask, Walk, Val, Skipped, Land;
    if !InBlock(net, mask, k) {
      WalkEnds(net, mask, ones, x, k);
    }
    WalkStep(net, mask, ones, x, k);
    WalkFromLand(net, mask, ones, x, Incr(k));
  }

  /** At counter `k` the walk has `rest` left. */
  ghost predicate Left(net: bytes, mask: bytes, ones: nat, x: bytes, k: bytes, rest: seq<bytes>)
    requires ValidBlock(net, mask, ones) && 1 <= ones && |x| == |k| == |net|
  {
    !Skipped(net, mask, x, k) && Walk(net, mask, ones, x, k) == rest
  }

  lemma {:induction false} CounterAt(net: bytes, mask: bytes, ones: nat, x: bytes, w: seq<bytes>, i: nat)
    requires ValidBlock(net, mask, ones) && 1 <= ones && |x| == |net| && HostOnly(x, mask)
    requires w == Walk(net, mask, ones, x, net) && i <= |w|
    ensures Left(net, mask, ones, x, Counter(net, mask, x, i), w[i..])
    decreases i
  {
    hide Incr, Xor, Broadcast, InBlock, HostOnly, Within, PrefixMask, Walk, Val, Skipped, Land;
    if i == 0 {
      WalkFromLand(net, mask, ones, x, net);
    } else {
      CounterAt(net, mask, ones, x, w, i - 1);
      TailOfTail(w, i);
      NextCounter(net, mask, ones, x, Counter(net, mask, x, i - 1));
    }
  }

  lemma TailOfTail<T>(w: seq<T>, i: nat)
    requires 0 < i <= |w|
    ensures w[i - 1..] != [] && w[i - 1..][1..] == w[i..]
  {}

  /** As long as the crawl has addresses left, call number `i` binds the one due; the next
      one finds the counter outside the block. */
  lemma CounterFollowsWalk(net: bytes, mask: bytes, ones: nat, x: bytes, i: nat)
    requires ValidBlock(net, mask, ones) && 1 <= ones && HostOnly(x, mask)
    requires i <= |Walk(net, mask, ones, x, net)|
    ensures var k, w := Counter(net, mask, x, i), Walk(net, mask, ones, x, net);
            && (InBlock(net, mask, k) <==> i < |w|)
            && (i < |w| ==> Xor(k, x) == w[i])
  {
    var k := Counter(net, mask, x, i);
    CounterAt(net, mask, ones, x, Walk(net, mask, ones, x, net), i);
    if InBlock(net, mask, k) {
      WalkStep(net, mask, ones, x, k);
    } else {
      WalkEnds(net, mask, ones, x, k);
    }
    hide Incr, Xor, Broadcast, InBlock, HostOnly, Within, PrefixMask, Walk, Val, Skipped, Counter;
  }

  /** Some call of Next reports the end if and only if the block has a network bit; a /0
      crawl never ends. If it ends, it does so right after the last address of the block. */
  lemma EndsIffPrefixed(net: bytes, mask: bytes, ones: nat, x: bytes)
    requires ValidBlock(net, mask, ones) && HostOnly(x, mask)
    ensures 1 <= ones <==> exists i: nat :: !InBlock(net, mask, Counter(net, mask, x, i))
    ensures 1 <= ones ==>
              var w := Walk(net, mask, ones, x, net);
              && (forall i: nat | i < |w| :: InBlock(net, mask, Counter(net, mask, x, i)) && Xor(Counter(net, mask, x, i), x) == w[i])
              && !InBlock(net, mask, Counter(net, mask, x, |w|))
  {
    assert |x| == |net|;
    hide Incr, Xor, Broadcast, InBlock, HostOnly, Within, PrefixMask, Walk, Val, Counter;
    if 1 <= ones {
      var w := Walk(net, mask, ones, x, net);
      CounterFollowsWalk(net, mask, ones, x, |w|);
      forall i: nat | i < |w|
        ensures InBlock(net, mask, Counter(net, mask, x, i)) && Xor(Counter(net, mask, x, i), x) == w[i]
      {
        CounterFollowsWalk(net, mask, ones, x, i);
      }
    } else {
      forall i: nat
        ensures InBlock(net, mask, Counter(net, mask, x, i))
      {
        AllInside(net, mask, Counter(net, mask, x, i));
      }
    }
  }
}
