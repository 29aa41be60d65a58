/**
 * The derivations of the GrandSlam handshake that sit around the
 * cryptographic library calls: the password pre-processing chosen by the
 * server's `sp` mode (`encrypt_password`), the session sub-keys
 * (`create_session_key`) and the decryption of the `spd` payload
 * (`decrypt_cbc`). SHA-256, HMAC-SHA256 (RFC 2104), PBKDF2-HMAC-SHA256
 * (section 5.2 of RFC 8018) and AES-CBC decryption are not modelled inside;
 * they are a record of functions that the caller supplies, and `Conforming`
 * says what their output lengths are.
 */
module GsaCrypto {
  import opened Wrappers
  import opened Encoding
  import Pkcs7

  /** The library primitives, uninterpreted. */
  datatype Primitives = Primitives(
    sha256: seq<Byte> -> seq<Byte>,
    /** key, message */
    hmacSha256: (seq<Byte>, seq<Byte>) -> seq<Byte>,
    /** password, salt, iteration count, number of bytes read from the key stream */
    pbkdf2Sha256: (seq<Byte>, seq<Byte>, int, nat) -> seq<Byte>,
    /** key, IV, ciphertext; the raw CBC decryption, padding left in place */
    aesCbcDecrypt: (seq<Byte>, seq<Byte>, seq<Byte>) -> seq<Byte>)

  /** The output lengths the real algorithms have. */
  ghost predicate Conforming(p: Primitives)
  {
    && (forall m :: |p.sha256(m)| == 32)
    && (forall k, m :: |p.hmacSha256(k, m)| == 32)
    && (forall pw, s, i, n :: |p.pbkdf2Sha256(pw, s, i, n)| == n)
    && (forall k, iv, c :: |c| % Pkcs7.BlockSize == 0 ==> |p.aesCbcDecrypt(k, iv, c)| == |c|)
  }

  /** The failures of one login attempt. */
  datatype GsaError =
    | UnsupportedProtocol(sp: string)  // the mode check in `gsa_authenticate`
    | ProtocolAssertion                // the `assert` in `encrypt_password`
    | ChallengeFailed                  // `process_challenge` returned None
    | SessionNotVerified               // the server's proof M2 did not match
    | NoSessionKey
    | CipherError                      // AES key or IV of the wrong size, or ciphertext not whole blocks
    | PaddingError
    | PlistError                       // the decrypted payload did not parse
    | MalformedPayload(field: string)  // a field the 2FA step reads is missing or not text
    | CodeRejected                     // the 2FA validation endpoint did not answer ok

  /** The password derivation modes the client offers in `ps`. */
  const SupportedProtocols: seq<string> := ["s2k", "s2k_fo"]

  datatype Protocol = S2k | S2kFo

  function ParseProtocol(sp: string): (r: Option<Protocol>)
    ensures r.Some? <==> sp in SupportedProtocols
    ensures r == Some(S2k) <==> sp == "s2k"
    ensures r == Some(S2kFo) <==> sp == "s2k_fo"
  {
    if sp == "s2k" then Some(S2k) else if sp == "s2k_fo" then Some(S2kFo) else None
  }

  /** What PBKDF2 stretches: the SHA-256 digest of the UTF-8 password, as is or as lowercase hex text. */
  function StretchInput(prims: Primitives, password: string, protocol: Protocol): seq<Byte>
  {
    var digest := prims.sha256(Utf8(password));
    match protocol
    case S2k => digest
    case S2kFo => Utf8(Hex(digest))
  }

  /**
   * The two modes always feed PBKDF2 different inputs: 32 raw bytes under
   * `s2k`, the 64 hex digits of the same digest under `s2k_fo`, which decode
   * back to it.
   */
  lemma StretchInputByMode(prims: Primitives, password: string)
    requires Conforming(prims)
    ensures |StretchInput(prims, password, S2k)| == 32
    ensures |StretchInput(prims, password, S2kFo)| == 64
    ensures StretchInput(prims, password, S2k) != StretchInput(prims, password, S2kFo)
    ensures Utf8Decode(StretchInput(prims, password, S2kFo)) == Some(Hex(StretchInput(prims, password, S2k)))
    ensures HexDecode(Hex(StretchInput(prims, password, S2k))) == Some(StretchInput(prims, password, S2k))
  {
    var digest := prims.sha256(Utf8(password));
    HexIsAscii(digest);
    Utf8Ascii(Hex(digest));
    Utf8RoundTrip(Hex(digest));
    HexRoundTrip(digest);
  }

  /** `encrypt_password`: the bytes installed as the SRP password. */
  function EncryptPassword(prims: Primitives, password: string, salt: seq<Byte>, iterations: int, protocol: string)
    : (r: Result<seq<Byte>, GsaError>)
    ensures r.Failure? <==> protocol !in SupportedProtocols
    ensures r.Failure? ==> r.error == ProtocolAssertion
    ensures r.Success? ==>
      r.value == prims.pbkdf2Sha256(StretchInput(prims, password, ParseProtocol(protocol).value), salt, iterations, 32)
    ensures Conforming(prims) && r.Success? ==> |r.value| == 32
  {
    match ParseProtocol(protocol)
    case None => Failure(ProtocolAssertion)
    case Some(mode) => Success(prims.pbkdf2Sha256(StretchInput(prims, password, mode), salt, iterations, 32))
  }

  /** The HMAC labels of the two sub-keys. */
  const ExtraDataKeyLabel: string := "extra data key:"
  const ExtraDataIvLabel: string := "extra data iv:"

  /** `create_session_key`: HMAC-SHA256 keyed with the SRP session key over the UTF-8 label. */
  function CreateSessionKey(prims: Primitives, sessionKey: Option<seq<Byte>>, name: string)
    : (r: Result<seq<Byte>, GsaError>)
    ensures r.Failure? <==> sessionKey.None?
    ensures r.Failure? ==> r.error == NoSessionKey
    ensures r.Success? ==> r.value == prims.hmacSha256(sessionKey.value, Utf8(name))
    ensures Conforming(prims) && r.Success? ==> |r.value| == 32
  {
    match sessionKey
    case None => Failure(NoSessionKey)
    case Some(k) => Success(prims.hmacSha256(k, Utf8(name)))
  }

  /** Python's `s[:n]`: at most the first `n` elements. */
  function Take<T>(s: seq<T>, n: nat): (r: seq<T>)
    ensures |r| == if |s| <= n then |s| else n
    ensures r == s[..|r|]
  {
    if |s| <= n then s else s[..n]
  }

  /** The AES encryption key of the payload. */
  function PayloadKey(prims: Primitives, k: seq<Byte>): seq<Byte>
  {
    prims.hmacSha256(k, Utf8(ExtraDataKeyLabel))
  }

  /** The CBC IV of the payload: the first 16 bytes of the second HMAC. */
  function PayloadIv(prims: Primitives, k: seq<Byte>): seq<Byte>
  {
    Take(prims.hmacSha256(k, Utf8(ExtraDataIvLabel)), 16)
  }

  /** The two labels differ, so the key and the IV are HMACs of different messages. */
  lemma SubKeyShapes(prims: Primitives, k: seq<Byte>)
    requires Conforming(prims)
    ensures |PayloadKey(prims, k)| == 32 && |PayloadIv(prims, k)| == 16
    ensures PayloadIv(prims, k) == prims.hmacSha256(k, Utf8(ExtraDataIvLabel))[..16]
    ensures Utf8(ExtraDataKeyLabel) != Utf8(ExtraDataIvLabel)
  {
    if Utf8(ExtraDataKeyLabel) == Utf8(ExtraDataIvLabel) {
      Utf8Injective(ExtraDataKeyLabel, ExtraDataIvLabel);
    }
  }

  /** AES accepts 128-, 192- and 256-bit keys; CBC needs a one-block IV. */
  predicate CipherAccepts(key: seq<Byte>, iv: seq<Byte>)
  {
    |key| in {16, 24, 32} && |iv| == Pkcs7.BlockSize
  }

  /** `decrypt_cbc`: derive key and IV, decrypt in CBC mode, strip the PKCS#7 padding. */
  function DecryptCbc(prims: Primitives, sessionKey: Option<seq<Byte>>, data: seq<Byte>)
    : (r: Result<seq<Byte>, GsaError>)
    ensures sessionKey.None? ==> r == Failure(NoSessionKey)
    ensures r.Success? ==>
      && sessionKey.Some?
      && Pkcs7.Pad(r.value) == prims.aesCbcDecrypt(PayloadKey(prims, sessionKey.value), PayloadIv(prims, sessionKey.value), data)
    ensures Conforming(prims) && sessionKey.Some? ==>
      && (r == Failure(CipherError) <==> |data| % Pkcs7.BlockSize != 0)
      && (r.Failure? ==> r.error in {CipherError, PaddingError})
      && (r.Success? ==> |data| - Pkcs7.BlockSize <= |r.value| < |data|)
    ensures Conforming(prims) && sessionKey.Some? && |data| % Pkcs7.BlockSize == 0 ==>
      (r.Success? <==> Pkcs7.WellPadded(prims.aesCbcDecrypt(PayloadKey(prims, sessionKey.value), PayloadIv(prims, sessionKey.value), data)))
  {
    match sessionKey
    case None => Failure(NoSessionKey)
    case Some(k) =>
    var key := CreateSessionKey(prims, sessionKey, ExtraDataKeyLabel).value;
    var iv := Take(CreateSessionKey(prims, sessionKey, ExtraDataIvLabel).value, 16);
    if !CipherAccepts(key, iv) || |data| % Pkcs7.BlockSize != 0 then Failure(CipherError)
    else
      var plain := prims.aesCbcDecrypt(key, iv, data);
      match Pkcs7.Unpad(plain)
      case Failure(_) => Failure(PaddingError)
      case Success(m) =>
        Pkcs7.PadUnpad(plain);
        Success(m)
  }
}
