/** The command/response buffer of tpm2_packet.c: guarded appends, clamped parses, back-patched sizes. */
module Packets {
  import opened Octets

  /** What a packet holds: the buffer, the position, and the size that guards each access. */
  datatype PState = PState(buf: Bytes, pos: nat, size: nat) {
    predicate Valid() { size <= |buf| }

    function Skip(n: nat): (r: PState) { this.(pos := pos + n) }

    /** Is bs what the buffer holds at the position, all of it inside the packet? */
    predicate At(bs: Bytes) {
      pos + |bs| <= size <= |buf| && buf[pos..pos + |bs|] == bs
    }
  }

  // ---- appending ----

  /** A field is written whole or, when it does not fit, not at all. */
  function App(st: PState, bs: Bytes): (r: PState)
    requires st.Valid()
    ensures r.Valid() && r.size == st.size && |r.buf| == |st.buf|
    ensures st.pos <= r.pos <= st.pos + |bs|
    ensures r.pos == st.pos || r.pos <= st.size
    ensures r.buf[..Min(st.pos, |st.buf|)] == st.buf[..Min(st.pos, |st.buf|)]
    ensures r.pos <= |r.buf| ==> r.buf[r.pos..] == st.buf[r.pos..]
  {
    if st.pos + |bs| <= st.size then PState(Splice(st.buf, st.pos, bs), st.pos + |bs|, st.size) else st
  }

  lemma AppWhole(st: PState, bs: Bytes)
    requires st.Valid() && st.pos + |bs| <= st.size
    ensures App(st, bs) == PState(Splice(st.buf, st.pos, bs), st.pos + |bs|, st.size)
  {
  }

  lemma AppApp(st: PState, a: Bytes, b: Bytes)
    requires st.Valid() && st.pos + |a| + |b| <= st.size
    ensures App(App(st, a), b) == App(st, a + b)
  {
    SpliceSplice(st.buf, st.pos, a, b);
  }

  // ---- parsing ----

  /** A big-endian integer of n bytes; 0 and no advance when it does not fit. */
  function GetU(st: PState, n: nat): (r: (nat, PState))
    requires st.Valid()
    ensures r.0 < Pow256(n) && r.1.Valid() && r.1.buf == st.buf && r.1.size == st.size
    ensures r.1.pos == st.pos || r.1.pos == st.pos + n
  {
    if st.pos + n <= st.size then (Nat(st.buf[st.pos..st.pos + n]), st.Skip(n)) else (0, st)
  }

  /** n bytes; those beyond the packet are not copied (zero here) but the position advances over them. */
  function GetBytes(st: PState, n: nat): (r: (Bytes, PState))
    requires st.Valid()
    ensures |r.0| == n && r.1 == st.Skip(n)
  {
    var have := if st.pos >= st.size then 0 else Min(n, st.size - st.pos);
    (if have == 0 then Zeros(n) else st.buf[st.pos..st.pos + have] + Zeros(n - have), st.Skip(n))
  }

  /** A 16-bit size and that many bytes, of which at most cap are kept. */
  function GetSized(st: PState, cap: nat): (r: (Bytes, PState))
    requires st.Valid()
    ensures |r.0| <= cap && r.1.Valid() && r.1.buf == st.buf && r.1.size == st.size
  {
    var (w, s1) := GetU(st, 2);
    var n := Min(w, cap);
    var (b, s2) := GetBytes(s1, n);
    (b, s2.Skip(w - n))
  }

  function Take(b: Bytes, cap: nat): (r: Bytes) { b[..Min(|b|, cap)] }

  /** The wire form of a sized buffer, whatever its capacity in memory. */
  function Sized(b: Bytes): (r: Bytes)
    requires |b| < 0x1_0000
    ensures |r| == 2 + |b|
  {
    U16(|b|) + b
  }

  function AppSized(st: PState, b: Bytes): (r: PState)
    requires st.Valid() && |b| < 0x1_0000
    ensures r.Valid() && |r.buf| == |st.buf| && r.size == st.size
    ensures st.pos <= r.pos && (r.pos == st.pos || r.pos <= st.size)
  {
    App(App(st, U16(|b|)), b)
  }

  lemma AppSizedFits(st: PState, b: Bytes)
    requires st.Valid() && |b| < 0x1_0000 && st.pos + 2 + |b| <= st.size
    ensures AppSized(st, b) == App(st, Sized(b))
  {
    AppApp(st, U16(|b|), b);
  }

  lemma AtSplit(st: PState, a: Bytes, b: Bytes)
    requires st.At(a + b)
    ensures st.At(a) && st.Skip(|a|).At(b)
  {
    var w := st.buf[st.pos..st.pos + |a| + |b|];
    assert w == a + b;
    assert st.buf[st.pos..st.pos + |a|] == w[..|a|] == a;
    assert st.buf[st.pos + |a|..st.pos + |a| + |b|] == w[|a|..] == b;
  }

  lemma GetUAt(st: PState, bs: Bytes)
    requires st.At(bs)
    ensures GetU(st, |bs|) == (Nat(bs), st.Skip(|bs|))
  {
  }

  lemma GetBytesAt(st: PState, bs: Bytes)
    requires st.At(bs)
    ensures GetBytes(st, |bs|) == (bs, st.Skip(|bs|))
  {
    if bs == [] {
      assert Zeros(0) == bs;
    } else {
      assert st.buf[st.pos..st.pos + |bs|] + Zeros(0) == bs;
    }
  }

  /** The clamped read ends where the whole field ends and keeps as much of it as there is room for. */
  lemma GetSizedAt(st: PState, b: Bytes, cap: nat)
    requires |b| < 0x1_0000 && st.At(Sized(b))
    ensures GetSized(st, cap) == (Take(b, cap), st.Skip(|Sized(b)|))
  {
    AtSplit(st, U16(|b|), b);
    GetUAt(st, U16(|b|));
    var n := Min(|b|, cap);
    var s1 := st.Skip(2);
    assert b == b[..n] + b[n..];
    AtSplit(s1, b[..n], b[n..]);
    GetBytesAt(s1, b[..n]);
  }

  // ---- back-patched sizes ----

  /** Writes the number of bytes appended since the n-byte marker at mark into the marker; that number is also the
      result. */
  function Place(st: PState, mark: nat, n: nat): (r: (PState, nat))
    requires st.Valid() && (mark + n <= st.pos ==> mark + n <= |st.buf|)
    ensures r.0.Valid() && |r.0.buf| == |st.buf| && r.0.pos == st.pos && r.0.size == st.size
  {
    if mark + n <= st.pos
    then (st.(buf := Splice(st.buf, mark, BE(n, st.pos - mark - n))), st.pos - mark - n)
    else (st, 0)
  }

  /** Reserving a marker, appending a body and placing the size is appending the body behind its size. */
  lemma MarkedPlace(st: PState, n: nat, body: Bytes)
    requires st.Valid() && st.pos + n + |body| <= st.size
    ensures Place(App(App(st, Zeros(n)), body), st.pos, n) == (App(st, BE(n, |body|) + body), |body|)
  {
    hide BE, Pow256, Splice, Zeros, App;
    AppWhole(st, Zeros(n));
    AppWhole(App(st, Zeros(n)), body);
    AppWhole(st, BE(n, |body|) + body);
    SpliceSplice(st.buf, st.pos, Zeros(n), body);
    SplicePatch(st.buf, st.pos, Zeros(n), BE(n, |body|), body);
  }

  /** What an append puts into the buffer is there to be read. */
  lemma AppAt(st: PState, bs: Bytes)
    requires st.Valid() && st.pos + |bs| <= st.size
    ensures App(st, bs).(pos := st.pos).At(bs)
  {
  }

  // ---- the packet object ----

  class Packet {
    var buf: array<byte>
    var pos: nat
    var size: nat

    ghost predicate Valid() reads this { size <= buf.Length }

    function State(): (r: PState)
      reads this, buf
    {
      PState(buf[..], pos, size)
    }

    constructor (b: array<byte>, p: nat, n: nat)
      requires n <= b.Length
      ensures Valid() && buf == b && State() == PState(b[..], p, n)
    {
      buf, pos, size := b, p, n;
    }

    method AppendBytes(bs: Bytes)
      requires Valid()
      modifies this`pos, buf
      ensures Valid() && State() == App(old(State()), bs)
    {
      if pos + |bs| <= size {
        ghost var before := buf[..];
        forall i | 0 <= i < |bs| { buf[pos + i] := bs[i]; }
        assert buf[..] == Splice(before, pos, bs);
        pos := pos + |bs|;
      }
    }

    method AppendU8(v: byte)
      requires Valid()
      modifies this`pos, buf
      ensures Valid() && State() == App(old(State()), U8(v))
    {
      AppendBytes([v]);
    }

    method AppendU16(v: u16)
      requires Valid()
      modifies this`pos, buf
      ensures Valid() && State() == App(old(State()), U16(v))
    {
      AppendBytes(U16(v));
    }

    method AppendU32(v: u32)
      requires Valid()
      modifies this`pos, buf
      ensures Valid() && State() == App(old(State()), U32(v))
    {
      AppendBytes(U32(v));
    }

    method AppendSized(b: Bytes)
      requires Valid() && |b| < 0x1_0000
      modifies this`pos, buf
      ensures Valid() && State() == AppSized(old(State()), b)
    {
      AppendU16(|b|);
      AppendBytes(b);
    }

    method MarkU16() returns (mark: nat)
      requires Valid()
      modifies this`pos, buf
      ensures Valid() && mark == old(pos) && State() == App(old(State()), Zeros(2))
    {
      mark := pos;
      AppendBytes(Zeros(2));
    }

    method MarkU32() returns (mark: nat)
      requires Valid()
      modifies this`pos, buf
      ensures Valid() && mark == old(pos) && State() == App(old(State()), Zeros(4))
    {
      mark := pos;
      AppendBytes(Zeros(4));
    }

    method PlaceSize(mark: nat, n: nat) returns (rc: nat)
      requires Valid() && (mark + n <= pos ==> mark + n <= buf.Length)
      modifies buf
      ensures Valid() && (State(), rc) == Place(old(State()), mark, n)
    {
      rc := 0;
      if mark + n <= pos {
        rc := pos - (mark + n);
        var data := BE(n, rc);
        ghost var before := buf[..];
        forall i | 0 <= i < n { buf[mark + i] := data[i]; }
        assert buf[..] == Splice(before, mark, data);
      }
    }

    method ParseU(n: nat) returns (v: nat)
      requires Valid()
      modifies this`pos
      ensures Valid() && (v, State()) == GetU(old(State()), n)
    {
      v := 0;
      if pos + n <= size {
        var i := 0;
        while i < n
          invariant 0 <= i <= n && v == Nat(buf[pos..pos + i])
        {
          assert buf[pos..pos + i + 1][..i] == buf[pos..pos + i];
          v := 256 * v + buf[pos + i];
          i := i + 1;
        }
        assert buf[..][pos..pos + n] == buf[pos..pos + n];
        pos := pos + n;
      }
    }

    method ParseU8() returns (v: byte)
      requires Valid()
      modifies this`pos
      ensures Valid() && (v as nat, State()) == GetU(old(State()), 1)
    {
      Pow256Values();
      v := ParseU(1);
    }

    method ParseU16() returns (v: u16)
      requires Valid()
      modifies this`pos
      ensures Valid() && (v as nat, State()) == GetU(old(State()), 2)
    {
      Pow256Values();
      v := ParseU(2);
    }

    method ParseU32() returns (v: u32)
      requires Valid()
      modifies this`pos
      ensures Valid() && (v as nat, State()) == GetU(old(State()), 4)
    {
      Pow256Values();
      v := ParseU(4);
    }

    method ParseU64() returns (v: u64)
      requires Valid()
      modifies this`pos
      ensures Valid() && (v as nat, State()) == GetU(old(State()), 8)
    {
      Pow256Values();
      v := ParseU(8);
    }

    method ParseBytes(n: nat) returns (b: Bytes)
      requires Valid()
      modifies this`pos
      ensures Valid() && (b, State()) == GetBytes(old(State()), n)
    {
      var have := n;
      if pos + have > size {
        have := if pos >= size then 0 else size - pos;
      }
      b := if have == 0 then Zeros(n) else buf[pos..pos + have] + Zeros(n - have);
      pos := pos + n;
    }

    method ParseSized(cap: nat) returns (b: Bytes)
      requires Valid()
      modifies this`pos
      ensures Valid() && (b, State()) == GetSized(old(State()), cap)
    {
      var wireSize := ParseU16();
      var n := wireSize;
      if n > cap { n := cap; }
      b := ParseBytes(n);
      if wireSize > n {
        pos := pos + (wireSize - n);
      }
    }
  }
}
