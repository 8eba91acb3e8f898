/** Byte strings: big-endian integers, overwriting a stretch of a buffer, and bitwise operations on single bytes. */
module Octets {
  type byte = x: int | 0 <= x < 0x100
  type u16 = x: int | 0 <= x < 0x1_0000
  type u32 = x: int | 0 <= x < 0x1_0000_0000
  type u64 = x: int | 0 <= x < 0x1_0000_0000_0000_0000
  type Bytes = seq<byte>

  datatype Option<+T> = None | Some(value: T)

  function Min(a: int, b: int): (r: int) { if a <= b then a else b }

  // ---- big-endian integers ----

  function Pow256(n: nat): (r: nat)
    ensures r > 0
  {
    if n == 0 then 1 else 256 * Pow256(n - 1)
  }

  /** The n low-order base-256 digits of v, most significant first. */
  function BE(n: nat, v: nat): (r: Bytes)
    ensures |r| == n
  {
    if n == 0 then [] else BE(n - 1, v / 256) + [v % 256]
  }

  /** The number a big-endian byte string denotes. */
  function Nat(b: Bytes): (r: nat)
    ensures r < Pow256(|b|)
  {
    if b == [] then 0 else 256 * Nat(b[..|b| - 1]) + b[|b| - 1]
  }

  lemma {:induction false} NatOfBE(n: nat, v: nat)
    requires v < Pow256(n)
    ensures Nat(BE(n, v)) == v
  {
    if n == 0 {
    } else {
      NatOfBE(n - 1, v / 256);
      assert BE(n, v)[..n - 1] == BE(n - 1, v / 256);
    }
  }

  lemma {:induction false} BEOfNat(b: Bytes)
    ensures BE(|b|, Nat(b)) == b
  {
    if b == [] {
    } else {
      var p := b[..|b| - 1];
      BEOfNat(p);
      assert Nat(b) / 256 == Nat(p) && Nat(b) % 256 == b[|b| - 1];
    }
  }

  lemma Pow256Values()
    ensures Pow256(1) == 0x100 && Pow256(2) == 0x1_0000 && Pow256(4) == 0x1_0000_0000
    ensures Pow256(8) == 0x1_0000_0000_0000_0000
  {
    assert Pow256(2) == 256 * Pow256(1);
    assert Pow256(4) == 256 * Pow256(3) == 65536 * Pow256(2);
    assert Pow256(6) == 256 * Pow256(5) == 65536 * Pow256(4);
    assert Pow256(8) == 256 * Pow256(7) == 65536 * Pow256(6);
  }

  function U8(v: byte): (r: Bytes) ensures |r| == 1 { [v] }

  function U16(v: u16): (r: Bytes)
    ensures |r| == 2 && Nat(r) == v
  {
    Pow256Values();
    NatOfBE(2, v);
    BE(2, v)
  }

  function U32(v: u32): (r: Bytes)
    ensures |r| == 4 && Nat(r) == v
  {
    Pow256Values();
    NatOfBE(4, v);
    BE(4, v)
  }

  function U64(v: u64): (r: Bytes)
    ensures |r| == 8 && Nat(r) == v
  {
    Pow256Values();
    NatOfBE(8, v);
    BE(8, v)
  }

  // ---- buffers ----

  function Zeros(n: nat): (r: Bytes)
    ensures |r| == n && forall i :: 0 <= i < n ==> r[i] == 0
  {
    seq(n, i => 0)
  }

  /** buf with the stretch that starts at off overwritten by data. */
  function Splice(buf: Bytes, off: nat, data: Bytes): (r: Bytes)
    requires off + |data| <= |buf|
    ensures |r| == |buf|
    ensures r[off..off + |data|] == data
    ensures forall i :: 0 <= i < |buf| && !(off <= i < off + |data|) ==> r[i] == buf[i]
  {
    buf[..off] + data + buf[off + |data|..]
  }

  lemma SpliceSplice(buf: Bytes, off: nat, a: Bytes, b: Bytes)
    requires off + |a| + |b| <= |buf|
    ensures Splice(Splice(buf, off, a), off + |a|, b) == Splice(buf, off, a + b)
  {
    var l := Splice(Splice(buf, off, a), off + |a|, b);
    var r := Splice(buf, off, a + b);
    forall i | 0 <= i < |buf| ensures l[i] == r[i] {
    }
  }

  lemma SpliceSelf(buf: Bytes, off: nat, n: nat)
    requires off + n <= |buf|
    ensures Splice(buf, off, buf[off..off + n]) == buf
  {
  }

  lemma SpliceOver(buf: Bytes, off: nat, a: Bytes, b: Bytes)
    requires |a| == |b| && off + |a| <= |buf|
    ensures Splice(Splice(buf, off, a), off, b) == Splice(buf, off, b)
  {
  }

  /** Overwriting the head of what was just written. */
  lemma SplicePatch(buf: Bytes, off: nat, head: Bytes, patch: Bytes, body: Bytes)
    requires |head| == |patch| && off + |head| + |body| <= |buf|
    ensures Splice(Splice(buf, off, head + body), off, patch) == Splice(buf, off, patch + body)
  {
    var l := Splice(Splice(buf, off, head + body), off, patch);
    var r := Splice(buf, off, patch + body);
    forall i | 0 <= i < |l| ensures l[i] == r[i] {
      if off + |head| <= i < off + |head| + |body| {
        assert (head + body)[i - off] == (patch + body)[i - off];
      }
    }
  }

  /** A splice leaves a disjoint stretch alone. */
  lemma SpliceFrame(buf: Bytes, off: nat, data: Bytes, lo: nat, hi: nat)
    requires off + |data| <= |buf| && lo <= hi <= |buf|
    requires hi <= off || off + |data| <= lo
    ensures Splice(buf, off, data)[lo..hi] == buf[lo..hi]
  {
  }

  lemma SliceSlice(buf: Bytes, lo: nat, hi: nat, a: nat, b: nat)
    requires lo <= hi <= |buf| && a <= b <= hi - lo
    ensures buf[lo..hi][a..b] == buf[lo + a..lo + b]
  {
    var x, y := buf[lo..hi][a..b], buf[lo + a..lo + b];
    forall i | 0 <= i < |x| ensures x[i] == y[i] {
    }
  }

  // ---- single bytes, bit by bit ----

  function Pow2(n: nat): (r: nat)
    ensures r > 0
  {
    if n == 0 then 1 else 2 * Pow2(n - 1)
  }

  /** Exclusive or of the n low-order bits. */
  function XorBits(n: nat, a: nat, b: nat): (r: nat)
    ensures r < Pow2(n)
  {
    if n == 0 then 0
    else (if a % 2 == b % 2 then 0 else 1) + 2 * XorBits(n - 1, a / 2, b / 2)
  }

  /** Conjunction of the n low-order bits. */
  function AndBits(n: nat, a: nat, b: nat): (r: nat)
    ensures r < Pow2(n)
  {
    if n == 0 then 0
    else (if a % 2 == 1 && b % 2 == 1 then 1 else 0) + 2 * AndBits(n - 1, a / 2, b / 2)
  }

  lemma {:induction false} XorBitsCancels(n: nat, a: nat, b: nat)
    requires a < Pow2(n)
    ensures XorBits(n, XorBits(n, a, b), b) == a
    ensures XorBits(n, a, 0) == a
  {
    if n > 0 {
      XorBitsCancels(n - 1, a / 2, b / 2);
      assert XorBits(n, a, b) / 2 == XorBits(n - 1, a / 2, b / 2);
    }
  }

  lemma {:induction false} AndXorBits(n: nat, a: nat, b: nat, m: nat)
    ensures AndBits(n, XorBits(n, a, b), m) == XorBits(n, AndBits(n, a, m), AndBits(n, b, m))
    ensures AndBits(n, AndBits(n, a, m), m) == AndBits(n, a, m)
  {
    if n > 0 {
      AndXorBits(n - 1, a / 2, b / 2, m / 2);
      assert XorBits(n, a, b) / 2 == XorBits(n - 1, a / 2, b / 2);
      assert AndBits(n, a, m) / 2 == AndBits(n - 1, a / 2, m / 2);
      assert AndBits(n, b, m) / 2 == AndBits(n - 1, b / 2, m / 2);
    }
  }

  lemma Pow2Of8()
    ensures Pow2(8) == 256
  {
    assert Pow2(4) == 2 * Pow2(3) == 4 * Pow2(2) == 8 * Pow2(1);
    assert Pow2(8) == 2 * Pow2(7) == 4 * Pow2(6) == 8 * Pow2(5);
  }

  function Xor(a: byte, b: byte): (r: byte) { Pow2Of8(); XorBits(8, a, b) }

  function And(a: byte, b: byte): (r: byte) { Pow2Of8(); AndBits(8, a, b) }

  lemma XorCancels(a: byte, b: byte)
    ensures Xor(Xor(a, b), b) == a
    ensures Xor(a, 0) == a
  {
    Pow2Of8();
    XorBitsCancels(8, a, b);
  }

  lemma AndXor(a: byte, b: byte, m: byte)
    ensures And(Xor(a, b), m) == Xor(And(a, m), And(b, m))
    ensures And(And(a, m), m) == And(a, m)
  {
    AndXorBits(8, a, b, m);
  }

  lemma {:induction false} XorBitsCommutes(n: nat, a: nat, b: nat)
    ensures XorBits(n, a, b) == XorBits(n, b, a)
  {
    if n > 0 { XorBitsCommutes(n - 1, a / 2, b / 2); }
  }

  lemma XorCommutes(a: byte, b: byte)
    ensures Xor(a, b) == Xor(b, a)
  {
    XorBitsCommutes(8, a, b);
  }

  lemma {:induction false} AndBitsAll(n: nat, a: nat)
    requires a < Pow2(n)
    ensures AndBits(n, a, Pow2(n) - 1) == a
  {
    if n > 0 {
      assert (Pow2(n) - 1) / 2 == Pow2(n - 1) - 1;
      AndBitsAll(n - 1, a / 2);
    }
  }

  lemma AndAll(a: byte)
    ensures And(a, 0xFF) == a
  {
    Pow2Of8();
    AndBitsAll(8, a);
  }

  lemma {:induction false} AndBitsSelf(n: nat, a: nat)
    requires a < Pow2(n)
    ensures AndBits(n, a, a) == a
  {
    if n > 0 { AndBitsSelf(n - 1, a / 2); }
  }

  lemma {:induction false} AndBitsNone(n: nat, a: nat)
    ensures AndBits(n, a, 0) == 0
  {
    if n > 0 { AndBitsNone(n - 1, a / 2); }
  }

  /** A mask of k ones keeps the k low-order bits. */
  lemma {:induction false} AndBitsLow(n: nat, a: nat, k: nat)
    requires k <= n
    ensures AndBits(n, a, Pow2(k) - 1) == a % Pow2(k)
  {
    hide AndBits;
    if k == 0 {
      AndBitsNone(n, a);
    } else {
      var p := Pow2(k - 1);
      var m := Pow2(k) - 1;
      OnesHalf(p);
      AndBitsLow(n - 1, a / 2, k - 1);
      AndBitsStep(n, a, m);
      LowHalf(a, p);
    }
  }

  lemma OnesHalf(p: nat)
    requires p > 0
    ensures (2 * p - 1) / 2 == p - 1 && (2 * p - 1) % 2 == 1
  {
  }

  lemma AndBitsStep(n: nat, a: nat, m: nat)
    requires n > 0 && m % 2 == 1
    ensures AndBits(n, a, m) == a % 2 + 2 * AndBits(n - 1, a / 2, m / 2)
  {
  }

  lemma LowHalf(a: nat, p: nat)
    requires p > 0
    ensures a % (2 * p) == a % 2 + 2 * (a / 2 % p)
  {
    var q, r := a / 2 / p, a / 2 % p;
    assert a / 2 == p * q + r;
    assert a == (2 * p) * q + (2 * r + a % 2);
    DivisionIs(a, 2 * p, q, 2 * r + a % 2);
  }

  /** Bytewise exclusive or of two strings of one length. */
  function XorBytes(a: Bytes, b: Bytes): (r: Bytes)
    requires |a| == |b|
    ensures |r| == |a| && forall i :: 0 <= i < |a| ==> r[i] == Xor(a[i], b[i])
  {
    seq(|a|, i requires 0 <= i < |a| => Xor(a[i], b[i]))
  }

  lemma XorBytesCancels(a: Bytes, b: Bytes)
    requires |a| == |b|
    ensures XorBytes(XorBytes(a, b), b) == a
  {
    forall i | 0 <= i < |a| ensures XorBytes(XorBytes(a, b), b)[i] == a[i] {
      XorCancels(a[i], b[i]);
    }
  }

  /** Is the bit of weight m (a power of two) set in v? */
  predicate HasBit(v: nat, m: nat)
    requires m > 0
  {
    (v / m) % 2 == 1
  }

  function SetBit(v: nat, m: nat): (r: nat)
    requires m > 0
  {
    if HasBit(v, m) then v else v + m
  }

  function ClearBit(v: byte, m: byte): (r: int)
    requires m > 0
  {
    if HasBit(v, m) then v - m else v
  }

  lemma MultipleSize(d: int, k: int)
    requires d >= 0
    ensures k >= 1 ==> d * k >= d
    ensures k <= -1 ==> d * k <= -d
  {
    assert d * k == d * (k - 1) + d;
    assert d * k == d * (k + 1) - d;
  }

  lemma DivisionIs(v: nat, d: nat, q: nat, r: nat)
    requires v == d * q + r && r < d
    ensures v / d == q
  {
    var x := v / d;
    assert v == d * x + v % d;
    assert d * (x - q) == d * x - d * q;
    MultipleSize(d, x - q);
  }

  /** A bit of v other than the lowest is the next lower one of v / 2. */
  lemma HasBitHalf(v: nat, j: nat)
    requires j > 0
    ensures HasBit(v, Pow2(j)) <==> HasBit(v / 2, Pow2(j - 1))
  {
    var p := Pow2(j - 1);
    var q, r := v / 2 / p, v / 2 % p;
    assert v / 2 == p * q + r;
    assert v == (2 * p) * q + (2 * r + v % 2);
    DivisionIs(v, 2 * p, q, 2 * r + v % 2);
  }

  lemma {:induction false} SetBitHas(v: nat, k: nat, j: nat)
    ensures HasBit(SetBit(v, Pow2(k)), Pow2(j)) <==> HasBit(v, Pow2(j)) || j == k
  {
    hide HasBit;
    var w := SetBit(v, Pow2(k));
    if k > 0 { HasBitHalf(v, k); }
    if j > 0 { HasBitHalf(v, j); HasBitHalf(w, j); }
    if k > 0 && j > 0 {
      SetBitHas(v / 2, k - 1, j - 1);
      assert w / 2 == SetBit(v / 2, Pow2(k - 1));
    } else {
      LowestBit(v, k, j);
    }
  }

  lemma LowestBit(v: nat, k: nat, j: nat)
    requires k == 0 || j == 0
    ensures var w := SetBit(v, Pow2(k));
      if j == 0 then HasBit(w, 1) <==> HasBit(v, 1) || k == 0 else w / 2 == v / 2
  {
    hide HasBit;
    LowestIsParity(v);
    LowestIsParity(SetBit(v, Pow2(k)));
    if k > 0 { SameParity(v, Pow2(k - 1)); }
  }

  lemma SameParity(v: nat, p: nat)
    ensures (v + 2 * p) % 2 == v % 2
  {
  }

  lemma {:induction false} SetBitBound(v: nat, k: nat, n: nat)
    requires v < Pow2(n) && k < n
    ensures SetBit(v, Pow2(k)) < Pow2(n)
  {
    hide HasBit;
    var half := Pow2(n - 1);
    assert Pow2(n) == 2 * half;
    if k > 0 {
      HasBitHalf(v, k);
      SetBitBound(v / 2, k - 1, n - 1);
      assert SetBit(v, Pow2(k)) == 2 * SetBit(v / 2, Pow2(k - 1)) + v % 2;
    } else {
      assert HasBit(v, 1) <==> v % 2 == 1 by { LowestIsParity(v); }
    }
  }

  lemma LowestIsParity(v: nat)
    ensures HasBit(v, 1) <==> v % 2 == 1
  {
  }
}
