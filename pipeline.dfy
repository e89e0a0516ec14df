/**
 * The two ends of the envelope: the encrypting tail of `pathPayloadCreate`
 * (plugin/path_payload.go:152-192) and the decrypting body of the test
 * tool (test/decrypt.go:40-113). AES-GCM, RSA-OAEP and base64 are
 * capabilities given as functions; the fresh key and nonce are inputs.
 */
module Pipeline {
  import opened Common
  import opened Strings
  import opened Framing
  import opened Armor

  /**
   * The library calls the two ends make: `encode`/`decode` are standard
   * base64, `seal`/`open` AES-256-GCM under (key, nonce) with no associated
   * data, and `wrap`/`unwrap` RSA-OAEP (SHA-256, label "Vault E2E Payload")
   * under the recipient's public and private key. None is an error.
   */
  datatype Crypto = Crypto(
    encode: seq<Byte> -> string,
    decode: string -> Option<seq<Byte>>,
    seal: (seq<Byte>, seq<Byte>, seq<Byte>) -> seq<Byte>,
    open: (seq<Byte>, seq<Byte>, seq<Byte>) -> Option<seq<Byte>>,
    wrap: seq<Byte> -> Option<seq<Byte>>,
    unwrap: seq<Byte> -> Option<seq<Byte>>)

  /**
   * The armor text the encrypting end produces for `plaintext` under `key`
   * and `nonce`: it fails only when wrapping `key || nonce` fails, and then
   * with that error; otherwise the body lines between the three header
   * lines and the END line spell out the encoded frame of both ciphertexts.
   */
  function Sealed(c: Crypto, plaintext: seq<Byte>, key: seq<Byte>, nonce: seq<Byte>): (r: Outcome<seq<string>>)
    ensures r.Err? <==> c.wrap(KeyNonce(key, nonce)).None?
    ensures r.Err? ==> r.reason == "rsa encryption failed"
    ensures r.Ok? ==>
              var lines := r.value;
              && |lines| >= 4 && lines[..3] == [BeginLine, VersionLine, ""] && lines[|lines| - 1] == EndLine
              && Flatten(lines[3..|lines| - 1])
                 == c.encode(Frame(c.wrap(KeyNonce(key, nonce)).value, c.seal(key, nonce, plaintext)))
  {
    match c.wrap(KeyNonce(key, nonce))
    case None => Err("rsa encryption failed")
    case Some(rsa) => Ok(ArmorLines(c.encode(Frame(rsa, c.seal(key, nonce, plaintext)))))
  }

  /**
   * The plaintext the decrypting end recovers from armor lines. Text that
   * does not decode is reported as such; a success means the decoded buffer
   * is a prefix, an RSA ciphertext and an AES ciphertext, the RSA part
   * unwraps to a 32-byte key followed by the nonce, and these open the AES
   * part to the plaintext returned.
   */
  function Opened(c: Crypto, lines: seq<string>): (r: Outcome<seq<Byte>>)
    ensures c.decode(ScanFrom(Looking, lines)).None? ==> r == Err("illegal base64 data")
    ensures r.Ok? ==>
              && c.decode(ScanFrom(Looking, lines)).Some?
              && var buffer := c.decode(ScanFrom(Looking, lines)).value;
                 && Unframe(buffer).Ok?
                 && var e := Unframe(buffer).value;
                    && buffer == buffer[..2] + e.rsa + e.aes
                    && c.unwrap(e.rsa).Some?
                    && var secret := c.unwrap(e.rsa).value;
                       && |secret| >= KeySize
                       && c.open(secret[..KeySize], secret[KeySize..], e.aes) == Some(r.value)
  {
    match c.decode(ScanFrom(Looking, lines))
    case None => Err("illegal base64 data")
    case Some(payload) =>
      match Unframe(payload)
      case Err(e) => Err(e)
      case Ok(envelope) =>
        match c.unwrap(envelope.rsa)
        case None => Err("rsa decryption failed")
        case Some(secret) =>
          match SplitKeyNonce(secret)
          case Err(e) => Err(e)
          case Ok(keyNonce) =>
            match c.open(keyNonce.0, keyNonce.1, envelope.aes)
            case None => Err("message authentication failed")
            case Some(plaintext) => Ok(plaintext)
  }

  /**
   * `EncodeArmor`: the buffer `len(rsa) || rsa || aes` (path_payload.go:170-173)
   * base64-encoded and wrapped into the armor lines (path_payload.go:176-192).
   * Scanning those lines gives back the encoded buffer.
   */
  method EncodeArmor(rsa: seq<Byte>, aes: seq<Byte>, encode: seq<Byte> -> string) returns (lines: seq<string>)
    ensures lines == ArmorLines(encode(Frame(rsa, aes)))
    ensures IsBase64Text(encode(Frame(rsa, aes))) ==> ScanFrom(Looking, lines) == encode(Frame(rsa, aes))
  {
    var combined := PutUint16(|rsa|);
    combined := combined + rsa;
    combined := combined + aes;
    var b64 := encode(combined);
    lines := [BeginLine, VersionLine, ""];
    var body := SplitB64(b64, LineWidth);
    lines := lines + body;
    lines := lines + [EndLine];
    if IsBase64Text(b64) {
      ScanArmorRoundTrip(b64);
    }
  }

  /** The encrypting tail of `pathPayloadCreate`: seal, wrap `key || nonce`, armor. */
  method EncryptPayload(c: Crypto, plaintext: seq<Byte>, key: seq<Byte>, nonce: seq<Byte>)
    returns (r: Outcome<seq<string>>)
    ensures r == Sealed(c, plaintext, key, nonce)
  {
    var ciphertext := c.seal(key, nonce, plaintext);
    var keyNonce := key;
    keyNonce := keyNonce + nonce;
    var wrapped := c.wrap(keyNonce);
    if wrapped.None? {
      return Err("rsa encryption failed");
    }
    var lines := EncodeArmor(wrapped.value, ciphertext, c.encode);
    r := Ok(lines);
  }

  /** The decrypting tool: scan, decode, split, unwrap the key and nonce, open. */
  method DecryptArmored(c: Crypto, lines: seq<string>) returns (r: Outcome<seq<Byte>>)
    ensures r == Opened(c, lines)
  {
    var payloadB64 := ScanArmor(lines);
    var payload := c.decode(payloadB64);
    if payload.None? {
      return Err("illegal base64 data");
    }
    var envelope := Unframe(payload.value);
    if envelope.Err? {
      return Err(envelope.reason);
    }
    var rsaPlaintext := c.unwrap(envelope.value.rsa);
    if rsaPlaintext.None? {
      return Err("rsa decryption failed");
    }
    var keyNonce := SplitKeyNonce(rsaPlaintext.value);
    if keyNonce.Err? {
      return Err(keyNonce.reason);
    }
    var plaintext := c.open(keyNonce.value.0, keyNonce.value.1, envelope.value.aes);
    if plaintext.None? {
      return Err("message authentication failed");
    }
    r := Ok(plaintext.value);
  }

  /**
   * The decrypting end recovers the plaintext the encrypting end sealed,
   * given that each library pair inverts itself on the values at hand and
   * that the RSA ciphertext is shorter than 65534 bytes.
   */
  lemma RoundTrip(c: Crypto, plaintext: seq<Byte>, key: seq<Byte>, nonce: seq<Byte>)
    requires |key| == KeySize
    requires c.wrap(KeyNonce(key, nonce)).Some?
    requires var rsa := c.wrap(KeyNonce(key, nonce)).value;
             var buffer := Frame(rsa, c.seal(key, nonce, plaintext));
             && |rsa| < 65534
             && c.unwrap(rsa) == Some(KeyNonce(key, nonce))
             && IsBase64Text(c.encode(buffer))
             && c.decode(c.encode(buffer)) == Some(buffer)
    requires c.open(key, nonce, c.seal(key, nonce, plaintext)) == Some(plaintext)
    ensures Sealed(c, plaintext, key, nonce).Ok?
    ensures Opened(c, Sealed(c, plaintext, key, nonce).value) == Ok(plaintext)
  {
    var rsa := c.wrap(KeyNonce(key, nonce)).value;
    var aes := c.seal(key, nonce, plaintext);
    ScanArmorRoundTrip(c.encode(Frame(rsa, aes)));
    UnframeAfterFrame(rsa, aes);
    SplitKeyNonceAfterKeyNonce(key, nonce);
  }

  /**
   * The decrypting end with both of its slips corrected: the scan stops at
   * the END line and the frame bound is computed without 16-bit wrap-around.
   */
  function OpenedIntended(c: Crypto, lines: seq<string>): Outcome<seq<Byte>>
  {
    match c.decode(ScanUntilEnd(Looking, lines))
    case None => Err("illegal base64 data")
    case Some(payload) =>
      match UnframeWide(payload)
      case Err(e) => Err(e)
      case Ok(envelope) =>
        match c.unwrap(envelope.rsa)
        case None => Err("rsa decryption failed")
        case Some(secret) =>
          match SplitKeyNonce(secret)
          case Err(e) => Err(e)
          case Ok(keyNonce) =>
            match c.open(keyNonce.0, keyNonce.1, envelope.aes)
            case None => Err("message authentication failed")
            case Some(plaintext) => Ok(plaintext)
  }

  /**
   * The corrected decrypting end recovers the sealed plaintext for every RSA
   * ciphertext the length prefix can carry, whatever lines follow the armor.
   */
  lemma IntendedRoundTrip(c: Crypto, plaintext: seq<Byte>, key: seq<Byte>, nonce: seq<Byte>, trailing: seq<string>)
    requires |key| == KeySize
    requires c.wrap(KeyNonce(key, nonce)).Some?
    requires var rsa := c.wrap(KeyNonce(key, nonce)).value;
             var buffer := Frame(rsa, c.seal(key, nonce, plaintext));
             && |rsa| < 65536
             && c.unwrap(rsa) == Some(KeyNonce(key, nonce))
             && IsBase64Text(c.encode(buffer))
             && c.decode(c.encode(buffer)) == Some(buffer)
    requires c.open(key, nonce, c.seal(key, nonce, plaintext)) == Some(plaintext)
    ensures Sealed(c, plaintext, key, nonce).Ok?
    ensures OpenedIntended(c, Sealed(c, plaintext, key, nonce).value + trailing) == Ok(plaintext)
  {
    var rsa := c.wrap(KeyNonce(key, nonce)).value;
    var aes := c.seal(key, nonce, plaintext);
    ScanUntilEndRoundTrip(c.encode(Frame(rsa, aes)), trailing);
    UnframeWideAfterFrame(rsa, aes);
    SplitKeyNonceAfterKeyNonce(key, nonce);
  }
}
