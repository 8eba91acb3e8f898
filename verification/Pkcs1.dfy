/** PKCS#1 v1.5 block type 1 (section 9.2 of RFC 8017): RsaPadPkcsv15Type1 of tpm2_cryptocb.c and
    TPM2_ASN_RsaUnpadPkcsv15 of tpm2_asn.c. */
module Pkcs1 {
  import opened Octets
  import opened Tpm

  const RSA_MIN_PAD_SZ := 11
  const RSA_MAX_BLOCK := 512

  function Ones(n: nat): (r: Bytes)
    ensures |r| == n && forall i :: 0 <= i < n ==> r[i] == 0xFF
  {
    seq(n, i => 0xFF)
  }

  /** 00 01 FF ... FF 00 data. */
  function Block(ffs: nat, data: Bytes): (r: Bytes)
    ensures |r| == 3 + ffs + |data|
  {
    [0, 1] + Ones(ffs) + [0] + data
  }

  function PadError(inputLen: nat, blockLen: nat): (r: Option<int>) {
    if inputLen == 0 || blockLen == 0 then Some(BAD_FUNC_ARG)
    else if blockLen > RSA_MAX_BLOCK then Some(RSA_BUFFER_E)
    else if (blockLen - RSA_MIN_PAD_SZ) % 0x1_0000_0000 < inputLen then Some(RSA_PAD_E)
    else None
  }

  /** A block shorter than the minimum padding would make the length test wrap round; callers pass a modulus size. */
  method RsaPadPkcsv15Type1(input: Bytes, block: array<byte>, blockLen: nat) returns (rc: int)
    requires blockLen <= block.Length && (blockLen == 0 || blockLen >= RSA_MIN_PAD_SZ) && |input| < 0x1_0000_0000
    modifies block
    ensures rc == 0 <==> 0 < |input| <= blockLen - 11 && blockLen <= 512
    ensures PadError(|input|, blockLen).Some? ==> rc == PadError(|input|, blockLen).value && block[..] == old(block[..])
    ensures PadError(|input|, blockLen) == None ==>
      && rc == 0 && |input| + RSA_MIN_PAD_SZ <= blockLen
      && block[..] == Block(blockLen - |input| - 3, input) + old(block[blockLen..])
  {
    if |input| == 0 || blockLen == 0 { return BAD_FUNC_ARG; }
    if blockLen > RSA_MAX_BLOCK { return RSA_BUFFER_E; }
    if (blockLen - RSA_MIN_PAD_SZ) % 0x1_0000_0000 < |input| { return RSA_PAD_E; }
    ghost var tail := block[blockLen..];
    block[0] := 0;
    var len := blockLen - 1;
    block[1] := 1;
    forall i | 2 <= i < 2 + (len - |input| - 2) { block[i] := 0xFF; }
    block[1 + (len - |input| - 1)] := 0;
    forall i | 0 <= i < |input| { block[1 + (len - |input|) + i] := input[i]; }
    rc := 0;
    assert block[blockLen..] == tail;
    assert block[..blockLen] == Block(blockLen - |input| - 3, input);
  }

  // ---- unpadding ----

  /** The first position from i on, before n, that does not hold FF; n if there is none. */
  function SkipOnes(mem: Bytes, i: nat, n: nat): (r: nat)
    requires i <= n <= |mem|
    ensures i <= r <= n && (forall j :: i <= j < r ==> mem[j] == 0xFF) && (r < n ==> mem[r] != 0xFF)
    decreases n - i
  {
    if i < n && mem[i] == 0xFF then SkipOnes(mem, i + 1, n) else i
  }

  datatype Slice = Slice(rc: int, off: nat, size: int)

  /** mem holds the block and the byte behind it, which is read when nothing but FF follows the block type. */
  function Unpad(mem: Bytes, size: nat): (r: Slice)
    requires size < |mem|
  {
    if size < 3 || mem[0] != 0 || mem[1] != 1 then Slice(-1, 0, size)
    else
      var i := SkipOnes(mem, 2, size);
      if mem[i] == 0 then Slice(0, i + 1, size - (i + 1)) else Slice(-1, 0, size)
  }

  method RsaUnpadPkcsv15(mem: array<byte>, sigSz: nat) returns (rc: int, off: nat, size: int)
    requires sigSz < mem.Length
    ensures Slice(rc, off, size) == Unpad(mem[..], sigSz)
  {
    rc, off, size := -1, 0, sigSz;
    var idx := 0;
    if sigSz < 3 { return; }
    if mem[0] == 0 && mem[1] == 1 {
      idx := 2;
      while idx < sigSz
        invariant 2 <= idx <= sigSz && SkipOnes(mem[..], 2, sigSz) == SkipOnes(mem[..], idx, sigSz)
      {
        if mem[idx] != 0xFF { break; }
        idx := idx + 1;
      }
      idx := idx + 1;
      if mem[idx - 1] == 0 {
        rc, off, size := 0, idx, sigSz - idx;
      }
    }
  }

  lemma {:induction false} OnesUntil(mem: Bytes, i: nat, n: nat, k: nat)
    requires i <= k < n <= |mem| && (forall j :: i <= j < k ==> mem[j] == 0xFF) && mem[k] != 0xFF
    ensures SkipOnes(mem, i, n) == k
    decreases k - i
  {
    if i < k { OnesUntil(mem, i + 1, n, k); }
  }

  /** Any block of the proper form gives back its data, whatever lies behind it. */
  lemma UnpadBlock(ffs: nat, data: Bytes, beyond: Bytes)
    requires |beyond| > 0
    ensures var n := 3 + ffs + |data|;
      Unpad(Block(ffs, data) + beyond, n) == Slice(0, 3 + ffs, |data|)
    ensures (Block(ffs, data) + beyond)[3 + ffs..3 + ffs + |data|] == data
  {
    var mem := Block(ffs, data) + beyond;
    assert mem[2 + ffs] == 0 && forall j :: 2 <= j < 2 + ffs ==> mem[j] == Ones(ffs)[j - 2];
    OnesUntil(mem, 2, 3 + ffs + |data|, 2 + ffs);
  }

  /** What is accepted with a size that makes sense has the proper form, and the slice is its data. */
  lemma AcceptedForm(mem: Bytes, size: nat)
    requires size < |mem| && Unpad(mem, size).rc == 0 && Unpad(mem, size).size >= 0
    ensures var r := Unpad(mem, size);
      && 3 <= r.off <= size && r.size == size - r.off
      && mem[..size] == Block(r.off - 3, mem[r.off..size])
  {
    var r := Unpad(mem, size);
    var b := Block(r.off - 3, mem[r.off..size]);
    forall i | 0 <= i < size ensures mem[i] == b[i] {
      if 2 <= i < r.off - 1 { assert b[i] == Ones(r.off - 3)[i - 2]; }
    }
  }

  /** Acceptance is exact but for one family: a block of FF alone behind the type, followed by a zero byte, is
      accepted with size -1. */
  lemma AcceptedIff(mem: Bytes, size: nat)
    requires size < |mem|
    ensures Unpad(mem, size).rc == 0 <==>
      || (exists ffs: nat, data: Bytes :: mem[..size] == Block(ffs, data))
      || (size >= 3 && mem[..size] == [0, 1] + Ones(size - 2) && mem[size] == 0)
    ensures Unpad(mem, size).rc == 0 ==>
      (Unpad(mem, size).size == -1 <==> size >= 3 && mem[..size] == [0, 1] + Ones(size - 2))
  {
    var r := Unpad(mem, size);
    if r.rc == 0 && r.size >= 0 {
      AcceptedForm(mem, size);
      assert mem[2 + (r.off - 3)] == 0;
      assert mem[..size] != [0, 1] + Ones(size - 2) by { assert mem[..size][r.off - 1] == 0; }
    }
    if r.rc == 0 && r.size < 0 {
      assert mem[..size] == [0, 1] + Ones(size - 2);
    }
    forall ffs: nat, data: Bytes | mem[..size] == Block(ffs, data) ensures r.rc == 0 {
      assert mem == Block(ffs, data) + mem[size..];
      UnpadBlock(ffs, data, mem[size..]);
    }
    if size >= 3 && mem[..size] == [0, 1] + Ones(size - 2) && mem[size] == 0 {
      var i := SkipOnes(mem, 2, size);
      assert forall j :: 2 <= j < size ==> mem[..size][j] == 0xFF;
    }
  }

  /** Padding and unpadding again gives back exactly the bytes that were padded. */
  lemma RoundTrip(input: Bytes, blockLen: nat, beyond: Bytes)
    requires blockLen >= RSA_MIN_PAD_SZ && PadError(|input|, blockLen) == None && |beyond| > 0
    ensures |input| + RSA_MIN_PAD_SZ <= blockLen
    ensures var mem := Block(blockLen - |input| - 3, input) + beyond;
      var r := Unpad(mem, blockLen);
      r.rc == 0 && 0 <= r.size && r.off + r.size <= |mem| && mem[r.off..r.off + r.size] == input
  {
    UnpadBlock(blockLen - |input| - 3, input, beyond);
  }
}
