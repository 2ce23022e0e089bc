/** Fixed-width byte strings, their big-endian value and the bitwise operations
    that the CIDR crawler and the routing-table indexes perform on them. */
module Bytes {

  type bytes = seq<bv8>

  function Pow256(n: nat): (p: nat)
    ensures p > 0
  {
    if n == 0 then 1 else 256 * Pow256(n - 1)
  }

  function Num(b: bv8): (n: nat)
    ensures n < 256
  {
    b as nat
  }

  /** The number whose base-256 digits are `s`, most significant first. */
  function Val(s: bytes): nat {
    if s == [] then 0 else Val(s[..|s| - 1]) * 256 + Num(s[|s| - 1])
  }

  /** `s + 1` with the carry rippling up from the last byte, wrapping at the top. */
  function Incr(s: bytes): (r: bytes)
    ensures |r| == |s|
  {
    if s == [] then []
    else
      var n := |s| - 1;
      if s[n] == 0xFF then Incr(s[..n]) + [0] else s[..n] + [s[n] + 1]
  }

  function Xor(a: bytes, b: bytes): (r: bytes)
    requires |a| == |b|
    ensures |r| == |a|
  {
    seq(|a|, i requires 0 <= i < |a| => a[i] ^ b[i])
  }

  function And(a: bytes, b: bytes): (r: bytes)
    requires |a| == |b|
    ensures |r| == |a|
  {
    seq(|a|, i requires 0 <= i < |a| => a[i] & b[i])
  }

  function Or(a: bytes, b: bytes): (r: bytes)
    requires |a| == |b|
    ensures |r| == |a|
  {
    seq(|a|, i requires 0 <= i < |a| => a[i] | b[i])
  }

  function Not(a: bytes): (r: bytes)
    ensures |r| == |a|
  {
    seq(|a|, i requires 0 <= i < |a| => !a[i])
  }

  lemma {:induction false} ValBound(s: bytes)
    ensures Val(s) < Pow256(|s|)
  {
    if s != [] {
      ValBound(s[..|s| - 1]);
    }
  }

  lemma NumInjective(a: bv8, b: bv8)
    ensures a == b <==> Num(a) == Num(b)
    ensures a < b <==> Num(a) < Num(b)
  {}

  lemma {:induction false} ValInjective(a: bytes, b: bytes)
    requires |a| == |b| && Val(a) == Val(b)
    ensures a == b
  {
    if |a| > 0 {
      hide Num;
      var n := |a| - 1;
      assert Val(a[..n]) == Val(b[..n]) && Num(a[n]) == Num(b[n]);
      hide Val;
      ValInjective(a[..n], b[..n]);
      NumInjective(a[n], b[n]);
      assert a == a[..n] + [a[n]];
    }
  }

  /** Equal-length strings are ordered by their first differing byte. */
  lemma {:induction false} ValOrder(a: bytes, b: bytes)
    requires |a| == |b| > 0
    ensures Num(a[0]) < Num(b[0]) ==> Val(a) < Val(b)
    ensures Num(a[0]) == Num(b[0]) ==> (Val(a) < Val(b) <==> Val(a[1..]) < Val(b[1..]))
    decreases |a|
  {
    hide Num;
    var n := |a| - 1;
    if n > 0 {
      ValOrder(a[..n], b[..n]);
      ValOrder(b[..n], a[..n]);
      assert a[..n][1..] == a[1..][..n - 1] && b[..n][1..] == b[1..][..n - 1];
    }
  }

  lemma ByteIncr(b: bv8)
    ensures b != 0xFF ==> Num(b + 1) == Num(b) + 1 < 256
    ensures b == 0xFF ==> Num(b) == 255 && Num(b + 1) == 0
  {}

  lemma IncrLast(s: bytes)
    requires |s| > 0
    ensures var n := |s| - 1;
            if Num(s[n]) == 255 then Incr(s)[..n] == Incr(s[..n]) && Num(Incr(s)[n]) == 0
            else Incr(s)[..n] == s[..n] && Num(Incr(s)[n]) == Num(s[n]) + 1
  {
    var n := |s| - 1;
    ByteIncr(s[n]);
    hide Num;
    if s[n] == 0xFF {
      assert Incr(s) == Incr(s[..n]) + [0];
    } else {
      assert Incr(s) == s[..n] + [s[n] + 1];
    }
  }

  lemma {:induction false} IncrCarries(s: bytes)
    ensures Val(Incr(s)) == if Val(s) + 1 == Pow256(|s|) then 0 else Val(s) + 1
  {
    if |s| > 0 {
      IncrLast(s);
      hide Num, Incr;
      var n := |s| - 1;
      ValBound(s[..n]);
      IncrCarries(s[..n]);
    }
  }

  /** The rippling carry is addition of one modulo 256^n. */
  lemma {:induction false} IncrIsSuccessor(s: bytes)
    ensures Val(Incr(s)) == (Val(s) + 1) % Pow256(|s|)
  {
    IncrCarries(s);
    ValBound(s);
    WrapMod(Val(s), Pow256(|s|));
  }

  lemma WrapMod(x: nat, m: nat)
    requires x < m
    ensures (x + 1) % m == if x + 1 == m then 0 else x + 1
  {}

  /** Lexicographic order, a proper prefix coming first. */
  predicate LexLess(a: bytes, b: bytes) {
    if b == [] then false
    else if a == [] then true
    else Num(a[0]) < Num(b[0]) || (Num(a[0]) == Num(b[0]) && LexLess(a[1..], b[1..]))
  }

  /** On equal widths the lexicographic order is the numeric one, and appending to
      the left operand never moves it below something it was not below already. */
  lemma {:induction false} LexLessIsValLess(a: bytes, suffix: bytes, b: bytes)
    requires |a| == |b|
    ensures LexLess(a + suffix, b) <==> Val(a) < Val(b)
  {
    hide Num;
    if |a| > 0 {
      ValOrder(a, b);
      ValOrder(b, a);
      assert (a + suffix)[1..] == a[1..] + suffix;
      LexLessIsValLess(a[1..], suffix, b[1..]);
    }
  }
}
