/** The hash branch of the crypto callback (tpm2_cryptocb.c): updates of a hash that will be copied are cached on the
    host, in a context the copies share by pointer, and are sent to the TPM when one of them is finalised. */
module HashCache {
  import opened Octets
  import opened Tpm
  import opened ParamEnc

  const HASH_BLOCK_SZ := 256
  const MAX_DIGEST_BUFFER := 1024

  /** What fits into the 32-bit sizes of the cache, rounding included. */
  const CACHE_LIMIT := 0x1_0000_0000 - HASH_BLOCK_SZ

  // ---- the TPM's hash sequences ----

  datatype Sequence = Sequence(alg: u16, data: Bytes)

  class Device {
    var sequences: map<nat, Sequence>
    var last: nat

    ghost predicate Valid() reads this { forall h :: h in sequences ==> 0 < h <= last }

    constructor ()
      ensures Valid() && sequences == map[]
    {
      sequences, last := map[], 0;
    }

    method SequenceStart(alg: u16) returns (h: nat)
      requires Valid()
      modifies this
      ensures Valid() && h > 0 && h !in old(sequences) && sequences == old(sequences)[h := Sequence(alg, [])]
    {
      last := last + 1;
      h := last;
      sequences := sequences[h := Sequence(alg, [])];
    }

    method SequenceUpdate(h: nat, data: Bytes)
      requires Valid() && h in sequences && |data| <= MAX_DIGEST_BUFFER
      modifies this`sequences
      ensures Valid()
      ensures sequences == old(sequences)[h := Sequence(old(sequences)[h].alg, old(sequences)[h].data + data)]
    {
      sequences := sequences[h := Sequence(sequences[h].alg, sequences[h].data + data)];
    }

    method SequenceComplete(c: Suite, h: nat) returns (digest: Bytes)
      requires Valid() && h in sequences
      modifies this`sequences
      ensures Valid() && digest == c.hash(old(sequences)[h].alg, old(sequences)[h].data)
      ensures sequences == old(sequences) - {h}
    {
      digest := c.hash(sequences[h].alg, sequences[h].data);
      sequences := sequences - {h};
    }

    /** wolfTPM2_HashUpdate: in pieces the TPM's buffer can take. */
    method HashUpdate(h: nat, data: Bytes) returns (rc: int)
      requires Valid() && (h != 0 ==> h in sequences)
      modifies this`sequences
      ensures Valid()
      ensures h == 0 ==> rc == BAD_FUNC_ARG && sequences == old(sequences)
      ensures h != 0 ==> rc == RC_SUCCESS
      ensures h != 0 ==>
        sequences == old(sequences)[h := Sequence(old(sequences)[h].alg, old(sequences)[h].data + data)]
    {
      if h == 0 { return BAD_FUNC_ARG; }
      var pos := 0;
      ghost var was := sequences[h].data;
      assert was + data[..pos] == was;
      while pos < |data|
        invariant 0 <= pos <= |data| && Valid() && h in sequences
        invariant sequences ==
          old(sequences)[h := Sequence(old(sequences)[h].alg, old(sequences)[h].data + data[..pos])]
      {
        var hashSz := Min(|data| - pos, MAX_DIGEST_BUFFER);
        SequenceUpdate(h, data[pos..pos + hashSz]);
        assert was + data[..pos] + data[pos..pos + hashSz] == was + data[..pos + hashSz];
        pos := pos + hashSz;
      }
      assert data[..pos] == data;
      rc := RC_SUCCESS;
    }
  }

  // ---- the shared context ----

  function RoundUp(n: nat): (r: nat) { ((n + HASH_BLOCK_SZ - 1) % 0x1_0000_0000) / HASH_BLOCK_SZ * HASH_BLOCK_SZ }

  lemma RoundUpHolds(n: nat)
    requires n <= CACHE_LIMIT
    ensures n <= RoundUp(n) < 0x1_0000_0000
  {
  }

  class HashCtx {
    var handle: nat
    var cacheBuf: array?<byte>
    var cacheBufSz: nat
    var cacheSz: nat

    ghost predicate Valid() reads this {
      cacheBuf != null ==> cacheSz <= cacheBufSz == cacheBuf.Length && cacheSz <= CACHE_LIMIT
    }

    function Cached(): (r: Bytes)
      requires Valid()
      reads this, cacheBuf
    {
      if cacheBuf == null then [] else cacheBuf[..cacheSz]
    }

    constructor ()
      ensures Valid() && handle == 0 && cacheBuf == null
    {
      handle, cacheBuf, cacheBufSz, cacheSz := 0, null, 0, 0;
    }

    /** Room for inSz more bytes: a first buffer or a larger one that takes over what is cached. */
    method MakeRoom(inSz: nat, canAlloc: bool) returns (rc: int)
      requires Valid() && |Cached()| + inSz <= CACHE_LIMIT
      modifies this`cacheBuf, this`cacheBufSz, this`cacheSz
      ensures Valid() && (cacheBuf == old(cacheBuf) || (cacheBuf != null && fresh(cacheBuf)))
      ensures Cached() == old(Cached())
      ensures rc == RC_SUCCESS ==> cacheBuf != null && cacheSz + inSz <= cacheBufSz
      ensures rc != RC_SUCCESS ==> rc == MEMORY_E && !canAlloc
    {
      rc := RC_SUCCESS;
      if cacheBuf == null {
        cacheSz := 0;
        RoundUpHolds(inSz);
        cacheBufSz := RoundUp(inSz);
        if cacheBufSz == 0 { cacheBufSz := HASH_BLOCK_SZ; }
        if !canAlloc { return MEMORY_E; }
        cacheBuf := new byte[cacheBufSz](_ => 0);
        assert cacheBuf[..0] == [];
      } else if (cacheSz + inSz) % 0x1_0000_0000 > cacheBufSz {
        var oldIn := cacheBuf;
        if (cacheSz + inSz) % 0x1_0000_0000 < cacheSz { return BUFFER_E; }
        RoundUpHolds(cacheSz + inSz);
        if !canAlloc { return MEMORY_E; }
        cacheBufSz := RoundUp((cacheSz + inSz) % 0x1_0000_0000);
        cacheBuf := new byte[cacheBufSz](_ => 0);
        CopyInto(cacheBuf, 0, oldIn[..cacheSz]);
        assert cacheBuf[..cacheSz] == oldIn[..cacheSz];
      }
    }

    /** wolfTPM2_HashUpdateCache. Without room for the data nothing is lost. */
    method UpdateCache(data: Bytes, canAlloc: bool) returns (rc: int)
      requires Valid() && |Cached()| + |data| <= CACHE_LIMIT
      modifies this`cacheBuf, this`cacheBufSz, this`cacheSz, cacheBuf
      ensures Valid() && (cacheBuf == old(cacheBuf) || (cacheBuf != null && fresh(cacheBuf)))
      ensures rc == RC_SUCCESS ==> cacheBuf != null && Cached() == old(Cached()) + data
      ensures rc != RC_SUCCESS ==> rc == MEMORY_E && !canAlloc && Cached() == old(Cached())
      ensures canAlloc ==> rc == RC_SUCCESS
    {
      rc := MakeRoom(|data|, canAlloc);
      if rc != RC_SUCCESS { return; }
      ghost var had := cacheBuf[..cacheSz];
      CopyInto(cacheBuf, cacheSz, data);
      assert cacheBuf[..cacheSz + |data|] == had + data;
      cacheSz := cacheSz + |data|;
    }
  }

  // ---- the callback ----

  datatype Flags = Flags(willCopy: bool, isCopy: bool)

  /** What has been hashed so far: in the cache if the hash will be copied, else in the TPM's sequence. */
  function Pending(dev: Device, ctx: HashCtx?, willCopy: bool): (r: Bytes)
    requires ctx != null ==> ctx.Valid()
    reads dev, ctx, if ctx != null then {ctx.cacheBuf} else {}
  {
    if ctx == null then []
    else if willCopy then ctx.Cached()
    else if ctx.handle in dev.sequences then dev.sequences[ctx.handle].data
    else []
  }

  /** A context is in order: a cached one has no sequence open, a streamed one has no cache and its sequence runs. */
  ghost predicate InOrder(dev: Device, ctx: HashCtx?, willCopy: bool, alg: u16)
    reads dev, ctx
  {
    && dev.Valid()
    && (ctx != null ==>
          && ctx.Valid()
          && (willCopy ==> ctx.handle == 0)
          && (!willCopy ==> ctx.cacheBuf == null)
          && (!willCopy && ctx.handle != 0 ==> ctx.handle in dev.sequences && dev.sequences[ctx.handle].alg == alg))
  }

  /** An update: the data are added to what is pending. */
  method HashIn(dev: Device, ctx0: HashCtx?, f: Flags, alg: u16, data: Bytes, canAlloc: bool)
    returns (rc: int, ctx: HashCtx?)
    requires InOrder(dev, ctx0, f.willCopy, alg)
    requires f.willCopy ==> |Pending(dev, ctx0, f.willCopy)| + |data| <= CACHE_LIMIT
    modifies dev, ctx0, if ctx0 != null then {ctx0.cacheBuf} else {}
    ensures canAlloc ==> rc == RC_SUCCESS && ctx != null && InOrder(dev, ctx, f.willCopy, alg)
    ensures canAlloc ==> ctx == ctx0 || fresh(ctx)
    ensures canAlloc ==> Pending(dev, ctx, f.willCopy) == old(Pending(dev, ctx0, f.willCopy)) + data
    ensures f.willCopy ==> dev.sequences == old(dev.sequences)
    ensures canAlloc && !f.willCopy ==> ctx.handle != 0
    ensures canAlloc ==>
      ctx.cacheBuf == null || fresh(ctx.cacheBuf) || (ctx0 != null && ctx.cacheBuf == old(ctx0.cacheBuf))
    ensures !canAlloc && rc != RC_SUCCESS ==> rc == MEMORY_E && ctx == null
  {
    ctx := ctx0;
    rc := RC_SUCCESS;
    if ctx == null {
      if !canAlloc { return MEMORY_E, null; }
      ctx := new HashCtx();
    }
    if f.willCopy {
      rc := ctx.UpdateCache(data, canAlloc);
      if rc != RC_SUCCESS { ctx := null; }
    } else {
      if ctx.handle == 0 {
        var h := dev.SequenceStart(alg);
        ctx.handle := h;
      }
      rc := dev.HashUpdate(ctx.handle, data);
    }
  }

  /** A final: the digest of what is pending. A copy leaves the shared context as it was; the original gives it up. */
  method HashOut(c: Suite, dev: Device, ctx: HashCtx, f: Flags, alg: u16) returns (rc: int, digest: Bytes)
    requires InOrder(dev, ctx, f.willCopy, alg) && (f.willCopy || ctx.handle != 0)
    modifies dev, ctx`handle, ctx`cacheBuf
    ensures rc == RC_SUCCESS && digest == c.hash(alg, old(Pending(dev, ctx, f.willCopy))) && dev.Valid()
    ensures ctx.handle == 0
    ensures f.isCopy ==> ctx.cacheBuf == old(ctx.cacheBuf)
    ensures f.isCopy && f.willCopy ==> InOrder(dev, ctx, true, alg)
    ensures f.isCopy && f.willCopy ==> Pending(dev, ctx, true) == old(Pending(dev, ctx, true))
    ensures f.willCopy ==> dev.sequences == old(dev.sequences)
    ensures !f.willCopy ==> dev.sequences == old(dev.sequences) - {old(ctx.handle)}
  {
    var h := ctx.handle;
    if f.willCopy {
      if h == 0 {
        h := dev.SequenceStart(alg);
        ctx.handle := h;
      }
      var cached := if ctx.cacheBuf == null then [] else ctx.cacheBuf[..ctx.cacheSz];
      rc := dev.HashUpdate(h, cached);
      assert [] + cached == cached;
    }
    digest := dev.SequenceComplete(c, h);
    rc := RC_SUCCESS;
    ctx.handle := 0;
    if !f.isCopy { ctx.cacheBuf := null; }
  }

  // ---- whole lives of a hash ----

  datatype Event = Update(data: Bytes) | CopyFinal

  function Concat(events: seq<Event>): (r: Bytes) {
    if events == [] then []
    else Concat(events[..|events| - 1]) + match events[|events| - 1] case Update(d) => d case CopyFinal => []
  }

  lemma {:induction false} ConcatGrows(events: seq<Event>, i: nat)
    requires i <= |events|
    ensures |Concat(events[..i])| <= |Concat(events)|
    decreases |events|
  {
    if i < |events| {
      assert events[..|events| - 1][..i] == events[..i];
      ConcatGrows(events[..|events| - 1], i);
    } else {
      assert events[..i] == events;
    }
  }

  /** The digests a hash's life is to produce, one for each event; nothing for an update. */
  function Digests(c: Suite, alg: u16, events: seq<Event>): (r: seq<Option<Bytes>>)
    ensures |r| == |events|
    ensures forall i :: 0 <= i < |events| ==>
      r[i] == if events[i].CopyFinal? then Some(c.hash(alg, Concat(events[..i]))) else None
  {
    seq(|events|, i requires 0 <= i < |events| =>
      if events[i].CopyFinal? then Some(c.hash(alg, Concat(events[..i]))) else None)
  }

  /** One event in the life of a hash that will be copied. */
  method Live(c: Suite, dev: Device, ctx0: HashCtx?, alg: u16, e: Event) returns (ctx: HashCtx, digest: Option<Bytes>)
    requires InOrder(dev, ctx0, true, alg) && (e.CopyFinal? ==> ctx0 != null)
    requires e.Update? ==> |Pending(dev, ctx0, true)| + |e.data| <= CACHE_LIMIT
    modifies dev, ctx0, if ctx0 != null then {ctx0.cacheBuf} else {}
    ensures InOrder(dev, ctx, true, alg) && dev.sequences == old(dev.sequences) && (ctx == ctx0 || fresh(ctx))
    ensures ctx.cacheBuf == null || fresh(ctx.cacheBuf) || (ctx0 != null && ctx.cacheBuf == old(ctx0.cacheBuf))
    ensures e.Update? ==> digest == None && Pending(dev, ctx, true) == old(Pending(dev, ctx0, true)) + e.data
    ensures e.CopyFinal? ==> digest == Some(c.hash(alg, old(Pending(dev, ctx0, true))))
    ensures e.CopyFinal? ==> Pending(dev, ctx, true) == old(Pending(dev, ctx0, true))
  {
    match e {
      case Update(data) =>
        var rc, ctx' := HashIn(dev, ctx0, Flags(true, false), alg, data, true);
        ctx, digest := ctx', None;
      case CopyFinal =>
        var rc, d := HashOut(c, dev, ctx0, Flags(true, true), alg);
        ctx, digest := ctx0, Some(d);
    }
  }

  lemma ConcatOne(events: seq<Event>, i: nat)
    requires i < |events|
    ensures Concat(events[..i + 1]) == Concat(events[..i]) + match events[i] case Update(d) => d case CopyFinal => []
    ensures |Concat(events[..i + 1])| <= |Concat(events)|
  {
    assert events[..i + 1][..i] == events[..i];
    ConcatGrows(events, i + 1);
  }

  /** Any interleaving of updates of a hash that will be copied with finals of copies that share its context: each
      copy's digest is that of everything before it, and the last digest is that of all the data. */
  method CopiedLife(c: Suite, dev: Device, alg: u16, events: seq<Event>)
    returns (digests: seq<Option<Bytes>>, last: Bytes)
    requires dev.Valid() && |events| > 0 && events[0].Update? && |Concat(events)| <= CACHE_LIMIT
    modifies dev
    ensures dev.Valid() && dev.sequences == old(dev.sequences)
    ensures digests == Digests(c, alg, events) && last == c.hash(alg, Concat(events))
  {
    var ctx: HashCtx? := null;
    digests := [];
    var i := 0;
    assert InOrder(dev, ctx, true, alg) && Pending(dev, ctx, true) == Concat(events[..i]);
    hide InOrder, Pending, Digests, Concat;
    while i < |events|
      invariant 0 <= i <= |events| && dev.Valid() && InOrder(dev, ctx, true, alg) && (i > 0 <==> ctx != null)
      invariant ctx != null ==> fresh(ctx) && (ctx.cacheBuf == null || fresh(ctx.cacheBuf))
      invariant Pending(dev, ctx, true) == Concat(events[..i]) && dev.sequences == old(dev.sequences)
      invariant digests == Digests(c, alg, events)[..i]
    {
      ConcatOne(events, i);
      var ctx', digest := Live(c, dev, ctx, alg, events[i]);
      assert Concat(events[..i]) + [] == Concat(events[..i]);
      ctx := ctx';
      digests := digests + [digest];
      i := i + 1;
    }
    assert events[..i] == events;
    var rc;
    rc, last := HashOut(c, dev, ctx, Flags(true, false), alg);
  }

  /** The streaming path: the same data without a cache. */
  method StreamedLife(c: Suite, dev: Device, alg: u16, updates: seq<Bytes>) returns (last: Bytes)
    requires dev.Valid() && |updates| > 0
    modifies dev
    ensures dev.Valid() && last == c.hash(alg, Concat(AsEvents(updates)))
  {
    var f := Flags(false, false);
    var ctx: HashCtx? := null;
    var i := 0;
    ghost var events := AsEvents(updates);
    while i < |updates|
      invariant 0 <= i <= |updates| && InOrder(dev, ctx, f.willCopy, alg) && (i > 0 <==> ctx != null)
      invariant ctx != null ==> fresh(ctx) && ctx.handle != 0
      invariant Pending(dev, ctx, f.willCopy) == Concat(events[..i])
    {
      assert events[..i + 1][..i] == events[..i];
      var _, ctx' := HashIn(dev, ctx, f, alg, updates[i], true);
      ctx := ctx';
      i := i + 1;
    }
    assert events[..i] == events;
    var rc;
    rc, last := HashOut(c, dev, ctx, f, alg);
  }

  function AsEvents(updates: seq<Bytes>): (r: seq<Event>)
    ensures |r| == |updates|
  {
    seq(|updates|, i requires 0 <= i < |updates| => Update(updates[i]))
  }

  /** The finals of copies leave no trace in the data: with or without them the last digest is the streaming path's. */
  lemma {:induction false} CopiesLeaveNoTrace(events: seq<Event>, updates: seq<Bytes>)
    requires updates == Updates(events)
    ensures Concat(events) == Concat(AsEvents(updates))
    decreases |events|
  {
    if events != [] {
      var n := |events| - 1;
      CopiesLeaveNoTrace(events[..n], Updates(events[..n]));
      var before := Updates(events[..n]);
      if events[n].Update? {
        assert updates[..|updates| - 1] == before;
        assert AsEvents(updates)[..|updates| - 1] == AsEvents(before);
      } else {
        assert updates == before;
      }
    }
  }

  function Updates(events: seq<Event>): (r: seq<Bytes>) {
    if events == [] then []
    else Updates(events[..|events| - 1]) + match events[|events| - 1] case Update(d) => [d] case CopyFinal => []
  }

  /** The cached path with copies and the streaming path without them end in one digest. */
  method BothPaths(c: Suite, dev: Device, alg: u16, events: seq<Event>) returns (copied: Bytes, streamed: Bytes)
    requires dev.Valid() && |events| > 0 && events[0].Update? && |Concat(events)| <= CACHE_LIMIT
    modifies dev
    ensures dev.Valid() && copied == streamed == c.hash(alg, Concat(events))
  {
    var updates := Updates(events);
    UpdatesThere(events);
    CopiesLeaveNoTrace(events, updates);
    var digests;
    digests, copied := CopiedLife(c, dev, alg, events);
    streamed := StreamedLife(c, dev, alg, updates);
  }

  lemma {:induction false} UpdatesThere(events: seq<Event>)
    requires |events| > 0 && events[0].Update?
    ensures |Updates(events)| > 0
    decreases |events|
  {
    if |events| > 1 { UpdatesThere(events[..|events| - 1]); }
  }
}
