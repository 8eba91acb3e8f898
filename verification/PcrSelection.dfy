/** PCR selections: built up call by call (TPM2_SetupPCRSel and TPM2_SetupPCRSelArray of tpm2.c), sent and read back
    (TPM2_Packet_AppendPCR and TPM2_Packet_ParsePCR), they denote a set of pairs of an algorithm and a PCR index. */
module PcrSelection {
  import opened Octets
  import opened Packets
  import opened Structures

  const IMPLEMENTATION_PCR := 24
  const PCR_SELECT_MAX := 3

  // ---- selections ----

  /** One entry: its three select bytes are there whatever sizeofSelect says. */
  datatype Bank = Bank(hash: u16, size: nat, select: Bytes) {
    predicate Selects(p: nat) { SelectsBit(select, p) }

    function OnWire(): (r: PcrBank) { PcrBank(hash, Take(select, Min(size, PCR_SELECT_MIN))) }
  }

  predicate AllWide(banks: seq<Bank>) { forall i :: 0 <= i < |banks| ==> |banks[i].select| == PCR_SELECT_MAX }

  const EMPTY: Bank := Bank(0, 0, Zeros(PCR_SELECT_MAX))

  predicate Selected(banks: seq<Bank>, alg: u16, p: nat) {
    exists i :: 0 <= i < |banks| && banks[i].hash == alg && banks[i].Selects(p)
  }

  predicate Distinct(banks: seq<Bank>) { forall i, j :: 0 <= i < j < |banks| ==> banks[i].hash != banks[j].hash }

  predicate InRange(index: int) { 0 <= index < IMPLEMENTATION_PCR }

  function Find(banks: seq<Bank>, alg: u16): (r: nat)
    ensures r <= |banks| && (r < |banks| ==> banks[r].hash == alg) && forall i :: 0 <= i < r ==> banks[i].hash != alg
  {
    if banks == [] || banks[0].hash == alg then 0 else 1 + Find(banks[1..], alg)
  }

  function Mark(b: Bank, alg: u16, index: nat): (r: Bank)
    requires |b.select| == PCR_SELECT_MAX && InRange(index)
    ensures |r.select| == PCR_SELECT_MAX
  {
    Pow2Of8();
    SetBitBound(b.select[index / 8], index % 8, 8);
    Bank(alg, PCR_SELECT_MAX, b.select[index / 8 := SetBit(b.select[index / 8], Pow2(index % 8))])
  }

  function Select(banks: seq<Bank>, alg: u16, index: int): (r: seq<Bank>)
    requires AllWide(banks)
    ensures AllWide(r) && (|banks| <= HASH_COUNT ==> |r| <= HASH_COUNT)
  {
    if !InRange(index) then banks
    else
      var i := Find(banks, alg);
      if i < |banks| then banks[i := Mark(banks[i], alg, index)]
      else if |banks| + 1 > HASH_COUNT then banks
      else banks + [Mark(EMPTY, alg, index)]
  }

  class Selection {
    var count: nat
    var banks: array<Bank>

    /** Entries behind the count are as the caller zeroed them. */
    ghost predicate Valid()
      reads this, banks
    {
      && banks.Length == HASH_COUNT && count <= HASH_COUNT && AllWide(banks[..])
      && forall i :: count <= i < HASH_COUNT ==> banks[i] == EMPTY
    }

    ghost function InUse(): (r: seq<Bank>)
      requires Valid()
      reads this, banks
    {
      banks[..count]
    }

    constructor ()
      ensures Valid() && fresh(banks) && InUse() == []
    {
      count := 0;
      banks := new Bank[HASH_COUNT](_ => EMPTY);
    }

    method SetupPCRSel(alg: u16, pcrIndex: int)
      requires Valid()
      modifies this`count, banks
      ensures Valid() && InUse() == Select(old(InUse()), alg, pcrIndex)
    {
      hide SetBit, Mark;
      if InRange(pcrIndex) {
        ghost var before := banks[..count];
        var i := 0;
        if count == 0 {
          count := 1;
        } else {
          while i < count
            invariant 0 <= i <= count && forall j :: 0 <= j < i ==> banks[j].hash != alg
          {
            if banks[i].hash == alg { break; }
            i := i + 1;
          }
          if i >= count {
            if count + 1 > HASH_COUNT { return; }
            count := count + 1;
          }
        }
        assert i == Find(before, alg);
        var b := banks[i];
        banks[i] := Mark(b, alg, pcrIndex);
        assert banks[..count] == Select(before, alg, pcrIndex);
      }
    }

    method SetupPCRSelArray(alg: u16, pcrArray: Bytes)
      requires Valid()
      modifies this`count, banks
      ensures Valid() && InUse() == SelectAll(old(InUse()), [(alg, pcrArray)])
    {
      var i := 0;
      assert pcrArray[..0] == [];
      while i < |pcrArray|
        invariant 0 <= i <= |pcrArray| && Valid() && banks == old(banks)
        invariant InUse() == SelectEach(old(InUse()), alg, pcrArray[..i])
      {
        assert pcrArray[..i + 1][..i] == pcrArray[..i];
        SetupPCRSel(alg, pcrArray[i]);
        i := i + 1;
      }
      assert pcrArray[..i] == pcrArray;
    }

    method AppendPCR(p: Packet)
      requires Valid() && p.Valid()
      requires p.pos + |EncPcr(WireBanks(InUse()))| <= p.size
      modifies p`pos, p.buf
      ensures p.Valid() && p.State() == App(old(p.State()), EncPcr(WireBanks(InUse())))
    {
      hide App, U32, EncBank, EncBanks, Bank.OnWire;
      ghost var before := p.State();
      ghost var wire := WireBanks(InUse());
      p.AppendU32(count);
      ghost var done := U32(count);
      NothingAppended(wire, done);
      var i := 0;
      while i < count
        invariant 0 <= i <= count && p.Valid() && p.buf == old(p.buf) && p.size == old(p.size)
        invariant done == U32(count) + EncBanks(wire[..i]) && p.State() == App(before, done)
      {
        PrefixFits(wire, i);
        AppWhole(before, done);
        AppendBank(p, WireBank(banks[i]));
        AppApp(before, done, EncBank(wire[i]));
        done := done + EncBank(wire[i]);
        i := i + 1;
      }
      assert wire[..i] == wire;
    }
  }

  lemma NothingAppended(wire: seq<PcrBank>, head: Bytes)
    requires BanksOnWire(wire)
    ensures head == head + EncBanks(wire[..0])
  {
  }

  /** An entry as it is sent; a size beyond the minimum is cut to it. */
  function WireBank(b: Bank): (r: PcrBank)
    ensures r == b.OnWire() && r.OnWire()
  {
    var selectSz := if b.size > PCR_SELECT_MIN then PCR_SELECT_MIN else b.size;
    PcrBank(b.hash, Take(b.select, selectSz))
  }

  function SelectEach(banks: seq<Bank>, alg: u16, indices: Bytes): (r: seq<Bank>)
    requires AllWide(banks)
    ensures AllWide(r) && (|banks| <= HASH_COUNT ==> |r| <= HASH_COUNT)
  {
    if indices == [] then banks
    else Select(SelectEach(banks, alg, indices[..|indices| - 1]), alg, indices[|indices| - 1])
  }

  /** Any number of calls, one after the other; a single index is an array of one. */
  function SelectAll(banks: seq<Bank>, calls: seq<(u16, Bytes)>): (r: seq<Bank>)
    requires AllWide(banks)
    ensures AllWide(r) && (|banks| <= HASH_COUNT ==> |r| <= HASH_COUNT)
  {
    if calls == [] then banks
    else
      var (alg, indices) := calls[|calls| - 1];
      SelectEach(SelectAll(banks, calls[..|calls| - 1]), alg, indices)
  }

  function WireBanks(banks: seq<Bank>): (r: seq<PcrBank>)
    ensures |r| == |banks| && BanksOnWire(r)
    ensures forall i :: 0 <= i < |banks| ==> r[i] == banks[i].OnWire()
  {
    seq(|banks|, i requires 0 <= i < |banks| => banks[i].OnWire())
  }

  lemma {:induction false} EncBanksSnoc(banks: seq<PcrBank>, b: PcrBank)
    requires BanksOnWire(banks) && b.OnWire()
    ensures EncBanks(banks + [b]) == EncBanks(banks) + EncBank(b)
  {
    hide EncBank;
    if banks == [] {
      assert [b][1..] == [] && banks + [b] == [b];
    } else {
      EncBanksSnoc(banks[1..], b);
      assert (banks + [b])[1..] == banks[1..] + [b];
    }
  }

  lemma {:induction false} PrefixFits(wire: seq<PcrBank>, i: nat)
    requires BanksOnWire(wire) && i < |wire|
    ensures EncBanks(wire[..i + 1]) == EncBanks(wire[..i]) + EncBank(wire[i])
    ensures |EncBanks(wire[..i + 1])| <= |EncBanks(wire)|
    decreases |wire| - i
  {
    assert wire[..i + 1] == wire[..i] + [wire[i]];
    EncBanksSnoc(wire[..i], wire[i]);
    if i + 1 < |wire| { PrefixFits(wire, i + 1); } else { assert wire[..i + 1] == wire; }
  }

  method AppendBank(p: Packet, b: PcrBank)
    requires p.Valid() && b.OnWire() && p.pos + |EncBank(b)| <= p.size
    modifies p`pos, p.buf
    ensures p.Valid() && p.State() == App(old(p.State()), EncBank(b))
  {
    hide App, U16;
    ghost var before := p.State();
    AppApp(before, U16(b.hash), U8(|b.select|));
    AppApp(before, U16(b.hash) + U8(|b.select|), b.select);
    p.AppendU16(b.hash);
    p.AppendU8(|b.select|);
    p.AppendBytes(b.select);
  }

  // ---- the set a selection denotes ----

  lemma MarkSelects(b: Bank, alg: u16, index: nat, p: nat)
    requires |b.select| == PCR_SELECT_MAX && InRange(index)
    ensures Mark(b, alg, index).Selects(p) <==> b.Selects(p) || p == index
  {
    hide HasBit, SetBit, Pow2;
    SetBitHas(b.select[index / 8], index % 8, p % 8);
    assert p == 8 * (p / 8) + p % 8 && index == 8 * (index / 8) + index % 8;
  }

  lemma EmptySelects(p: nat)
    ensures !EMPTY.Selects(p)
  {
    assert 0 / Pow2(p % 8) == 0;
  }

  /** One call adds exactly its pair, if the index is in range and its algorithm has a bank or can get one. */
  lemma SelectAdds(banks: seq<Bank>, alg: u16, index: int, a: u16, p: nat)
    requires AllWide(banks) && Distinct(banks)
    ensures var r := Select(banks, alg, index);
      && Distinct(r) && (|banks| <= HASH_COUNT ==> |r| <= HASH_COUNT)
      && (Selected(r, a, p) <==>
            Selected(banks, a, p)
            || (a == alg && p == index && InRange(index) && (Find(banks, alg) < |banks| || |banks| < HASH_COUNT)))
  {
    hide Mark, Bank.Selects;
    var r := Select(banks, alg, index);
    if InRange(index) {
      var i := Find(banks, alg);
      if i < |banks| {
        MarkSelects(banks[i], alg, index, p);
        assert r[i] == Mark(banks[i], alg, index) && r[i].hash == alg by { MarkHash(banks[i], alg, index); }
        UpdateSelects(banks, i, r[i], a, p);
      } else if |banks| < HASH_COUNT {
        EmptySelects(p);
        MarkSelects(EMPTY, alg, index, p);
        var b := Mark(EMPTY, alg, index);
        assert b.hash == alg by { MarkHash(EMPTY, alg, index); }
        SnocSelects(banks, b, a, p);
      }
    }
  }

  lemma MarkHash(b: Bank, alg: u16, index: nat)
    requires |b.select| == PCR_SELECT_MAX && InRange(index)
    ensures Mark(b, alg, index).hash == alg
  {
  }

  lemma UpdateSelects(banks: seq<Bank>, i: nat, b: Bank, a: u16, p: nat)
    requires i < |banks| && b.hash == banks[i].hash && (banks[i].Selects(p) ==> b.Selects(p))
    ensures Selected(banks[i := b], a, p) <==> Selected(banks, a, p) || (b.hash == a && b.Selects(p))
    ensures Distinct(banks) ==> Distinct(banks[i := b])
  {
    hide Bank.Selects;
    var r := banks[i := b];
    if Selected(banks, a, p) {
      var j :| 0 <= j < |banks| && banks[j].hash == a && banks[j].Selects(p);
      assert r[j].hash == a && r[j].Selects(p);
    }
    if b.hash == a && b.Selects(p) { assert r[i].Selects(p); }
    if Selected(r, a, p) {
      var j :| 0 <= j < |r| && r[j].hash == a && r[j].Selects(p);
      assert j != i ==> banks[j].Selects(p);
    }
  }

  lemma SnocSelects(banks: seq<Bank>, b: Bank, a: u16, p: nat)
    ensures Selected(banks + [b], a, p) <==> Selected(banks, a, p) || (b.hash == a && b.Selects(p))
  {
    hide Bank.Selects;
    var r := banks + [b];
    if Selected(banks, a, p) {
      var j :| 0 <= j < |banks| && banks[j].hash == a && banks[j].Selects(p);
      assert r[j].hash == a && r[j].Selects(p);
    }
    if b.hash == a && b.Selects(p) { assert r[|banks|].Selects(p); }
    if Selected(r, a, p) {
      var j :| 0 <= j < |r| && r[j].hash == a && r[j].Selects(p);
      assert j < |banks| ==> banks[j].Selects(p);
    }
  }

  // ---- any number of calls ----

  function Hashes(banks: seq<Bank>): (r: set<u16>) { set i | 0 <= i < |banks| :: banks[i].hash }

  lemma {:induction false} HashesCount(banks: seq<Bank>)
    requires Distinct(banks)
    ensures |Hashes(banks)| == |banks|
  {
    if banks != [] {
      var n := |banks| - 1;
      HashesCount(banks[..n]);
      assert banks[n].hash !in Hashes(banks[..n]);
      assert Hashes(banks) == Hashes(banks[..n]) + {banks[n].hash};
    }
  }

  lemma SubsetSmaller<T>(a: set<T>, b: set<T>)
    requires a <= b
    ensures |a| <= |b|
    decreases a
  {
    if a != {} {
      var x :| x in a;
      SubsetSmaller(a - {x}, b - {x});
    }
  }

  /** Banks of algorithms among at most HASH_COUNT leave room for each of these. */
  predicate Within(banks: seq<Bank>, algs: set<u16>) {
    Distinct(banks) && Hashes(banks) <= algs && |algs| <= HASH_COUNT
  }

  lemma RoomFor(banks: seq<Bank>, algs: set<u16>, alg: u16)
    requires Within(banks, algs) && alg in algs
    ensures Find(banks, alg) < |banks| || |banks| < HASH_COUNT
  {
    HashesCount(banks);
    if Find(banks, alg) == |banks| {
      SubsetSmaller(Hashes(banks) + {alg}, algs);
    }
  }

  lemma SelectWithin(banks: seq<Bank>, algs: set<u16>, alg: u16, index: int)
    requires AllWide(banks) && Within(banks, algs) && alg in algs
    ensures Within(Select(banks, alg, index), algs)
  {
    hide Mark;
    SelectAdds(banks, alg, index, alg, 0);
    var r := Select(banks, alg, index);
    if InRange(index) {
      var i := Find(banks, alg);
      if i < |banks| { MarkHash(banks[i], alg, index); } else { MarkHash(EMPTY, alg, index); }
      forall j | 0 <= j < |r| ensures r[j].hash in algs {
        if j < |banks| { assert banks[j].hash in Hashes(banks); }
      }
    }
  }

  lemma {:induction false} EachAdds(banks: seq<Bank>, algs: set<u16>, alg: u16, indices: Bytes, a: u16, p: nat)
    requires AllWide(banks) && Within(banks, algs) && alg in algs
    ensures var r := SelectEach(banks, alg, indices);
      && Within(r, algs)
      && (Selected(r, a, p) <==>
            Selected(banks, a, p) || (a == alg && InRange(p) && exists i :: 0 <= i < |indices| && indices[i] == p))
    decreases |indices|
  {
    hide Selected, Select, Within;
    if indices != [] {
      var n := |indices| - 1;
      var before := SelectEach(banks, alg, indices[..n]);
      EachAdds(banks, algs, alg, indices[..n], a, p);
      RoomFor(before, algs, alg);
      SelectWithin(before, algs, alg, indices[n]);
      assert Distinct(before) by { WithinDistinct(before, algs); }
      SelectAdds(before, alg, indices[n], a, p);
      if i :| 0 <= i < |indices| && indices[i] == p { assert i < n ==> indices[..n][i] == p; }
    }
  }

  lemma WithinDistinct(banks: seq<Bank>, algs: set<u16>)
    requires Within(banks, algs)
    ensures Distinct(banks)
  {
  }

  predicate Asked(calls: seq<(u16, Bytes)>, a: u16, p: nat) {
    InRange(p) && exists i, j :: 0 <= i < |calls| && calls[i].0 == a && 0 <= j < |calls[i].1| && calls[i].1[j] == p
  }

  /** Starting from a zeroed selection, after any calls that name at most HASH_COUNT algorithms, banks have distinct
      algorithms and the selected pairs are exactly those that were asked for with an index in range. */
  lemma {:induction false} SelectsWhatIsAsked(calls: seq<(u16, Bytes)>, algs: set<u16>, a: u16, p: nat)
    requires |algs| <= HASH_COUNT && forall i :: 0 <= i < |calls| ==> calls[i].0 in algs
    ensures var r := SelectAll([], calls);
      && Within(r, algs) && Distinct(r) && |r| <= HASH_COUNT
      && (Selected(r, a, p) <==> Asked(calls, a, p))
    decreases |calls|
  {
    hide SelectEach, InRange;
    if calls != [] {
      var n := |calls| - 1;
      var (alg, indices) := calls[n];
      var before := SelectAll([], calls[..n]);
      SelectsWhatIsAsked(calls[..n], algs, a, p);
      EachAdds(before, algs, alg, indices, a, p);
      AskedOne(calls, a, p);
    }
    HashesCount(SelectAll([], calls));
    SubsetSmaller(Hashes(SelectAll([], calls)), algs);
  }

  lemma AskedOne(calls: seq<(u16, Bytes)>, a: u16, p: nat)
    requires calls != []
    ensures var n := |calls| - 1;
      Asked(calls, a, p) <==>
      Asked(calls[..n], a, p)
      || (a == calls[n].0 && InRange(p) && exists j :: 0 <= j < |calls[n].1| && calls[n].1[j] == p)
  {
    var n := |calls| - 1;
    if Asked(calls, a, p) {
      var i, j :| 0 <= i < |calls| && calls[i].0 == a && 0 <= j < |calls[i].1| && calls[i].1[j] == p;
      if i < n { assert calls[..n][i].1[j] == p; }
    }
    if Asked(calls[..n], a, p) {
      var i, j :| 0 <= i < n && calls[..n][i].0 == a && 0 <= j < |calls[..n][i].1| && calls[..n][i].1[j] == p;
      assert calls[i].1[j] == p;
    }
    if a == calls[n].0 && InRange(p) && exists j :: 0 <= j < |calls[n].1| && calls[n].1[j] == p {
      var j :| 0 <= j < |calls[n].1| && calls[n].1[j] == p;
      assert calls[n].1[j] == p;
    }
  }

  // ---- on the wire and back ----

  predicate Full(banks: seq<Bank>) {
    forall i :: 0 <= i < |banks| ==> banks[i].size == PCR_SELECT_MAX == |banks[i].select|
  }

  lemma SelectFull(banks: seq<Bank>, alg: u16, index: int)
    requires AllWide(banks) && Full(banks)
    ensures Full(Select(banks, alg, index))
  {
    hide SetBit;
  }

  lemma {:induction false} EachFull(banks: seq<Bank>, alg: u16, indices: Bytes)
    requires AllWide(banks) && Full(banks)
    ensures Full(SelectEach(banks, alg, indices))
    decreases |indices|
  {
    hide Select, Full;
    if indices != [] {
      EachFull(banks, alg, indices[..|indices| - 1]);
      SelectFull(SelectEach(banks, alg, indices[..|indices| - 1]), alg, indices[|indices| - 1]);
    }
  }

  lemma {:induction false} AllFull(calls: seq<(u16, Bytes)>)
    ensures Full(SelectAll([], calls))
    decreases |calls|
  {
    hide SelectEach;
    if calls != [] {
      AllFull(calls[..|calls| - 1]);
      EachFull(SelectAll([], calls[..|calls| - 1]), calls[|calls| - 1].0, calls[|calls| - 1].1);
    }
  }

  predicate SelectsBit(select: Bytes, p: nat) { p < 8 * |select| && HasBit(select[p / 8], Pow2(p % 8)) }

  predicate WireSelected(banks: seq<PcrBank>, alg: u16, p: nat) {
    exists i :: 0 <= i < |banks| && banks[i].hash == alg && SelectsBit(banks[i].select, p)
  }

  /** Read back from the wire, a selection has as many banks as before and denotes the same set. */
  lemma SurvivesTheWire(st: PState, calls: seq<(u16, Bytes)>, algs: set<u16>, a: u16, p: nat)
    requires |algs| <= HASH_COUNT && forall i :: 0 <= i < |calls| ==> calls[i].0 in algs
    requires st.At(EncPcr(WireBanks(SelectAll([], calls))))
    ensures var banks := SelectAll([], calls);
      var (n, back, end) := GetPcr(st);
      && n == |back| == |banks| && end == st.Skip(|EncPcr(WireBanks(banks))|)
      && (WireSelected(back, a, p) <==> Asked(calls, a, p))
  {
    hide GetPcr, EncPcr, PState.At, Within, Asked, HasBit, SelectAll;
    var banks := SelectAll([], calls);
    var wire := WireBanks(banks);
    SelectsWhatIsAsked(calls, algs, a, p);
    AllFull(calls);
    GetPcrAt(st, wire);
    forall i | 0 <= i < |wire| ensures wire[i].Clamp() == wire[i] && wire[i].select == banks[i].select {
      assert Take(banks[i].select, PCR_SELECT_MIN) == banks[i].select;
    }
    assert ClampBanks(wire, HASH_COUNT) == wire;
    assert WireSelected(wire, a, p) <==> Selected(banks, a, p) by { SameBits(banks, wire, a, p); }
  }

  lemma SameBits(banks: seq<Bank>, wire: seq<PcrBank>, a: u16, p: nat)
    requires |banks| == |wire|
    requires forall i :: 0 <= i < |banks| ==> wire[i].hash == banks[i].hash && wire[i].select == banks[i].select
    ensures WireSelected(wire, a, p) <==> Selected(banks, a, p)
  {
    hide HasBit, Pow2;
    if Selected(banks, a, p) {
      var i :| 0 <= i < |banks| && banks[i].hash == a && banks[i].Selects(p);
      assert wire[i].hash == a;
    }
    if WireSelected(wire, a, p) {
      var i :| 0 <= i < |wire| && wire[i].hash == a && SelectsBit(wire[i].select, p);
      assert banks[i].hash == a && banks[i].Selects(p);
    }
  }
}
