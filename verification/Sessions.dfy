/** The host's view of an authorisation session and of a command's shape (tpm2.h, tpm2_packet.h). */
module Sessions {
  import opened Octets
  import opened Tpm
  import opened PublicArea

  const MAX_SESSION_NUM := 3

  /** bind points to another object's authorisation value in the source; here it is that value. */
  datatype AuthSession = AuthSession(
    handle: u32, nonceCaller: Bytes, attrs: byte, hmac: Bytes, nonceTPM: Bytes,
    symmetric: SymDef, authHash: u16, name: Bytes, auth: Bytes, bind: Option<Bytes>, policyAuth: bool)
  {
    predicate IsPassword() { handle == RS_PW }

    /** The handle of an HMAC or a policy session, the two kinds that are authorised with an HMAC. */
    predicate IsKeyed() { IsHmacSession(handle) || IsPolicySession(handle) }

    /** Sized buffers stay within their memory and their 16-bit size. */
    predicate Fits() {
      |nonceCaller| <= MAX_DIGEST && |nonceTPM| <= MAX_DIGEST && |auth| <= MAX_DIGEST && |name| <= MAX_NAME
    }
  }

  datatype Flags = Flags(enc2: bool, enc4: bool, dec2: bool, dec4: bool, user1: bool, user2: bool, admin: bool,
      dup: bool) {
    /** Width of the size field of the first command parameter when it may be encrypted, else 0. */
    function EncWidth(): (r: nat) { if enc2 then 2 else if enc4 then 4 else 0 }

    function DecWidth(): (r: nat) { if dec2 then 2 else if dec4 then 4 else 0 }
  }

  datatype CmdInfo = CmdInfo(authCnt: nat, inHandleCnt: nat, outHandleCnt: nat, flags: Flags)
}
