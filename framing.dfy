/**
 * The binary envelope layout: the encoder's `len(rsa) || rsa || aes` buffer
 * and `key || nonce` secret (plugin/path_payload.go), and the decoder's
 * splitting of both (test/decrypt.go).
 */
module Framing {
  import opened Common

  /** Size of the AES-256 key and of the GCM nonce the encoder generates. */
  const KeySize: nat := 32
  const NonceSize: nat := 12

  /** The two ciphertexts an armored payload carries. */
  datatype Envelope = Envelope(rsa: seq<Byte>, aes: seq<Byte>)

  /** `binary.LittleEndian.PutUint16(b, uint16(n))`: the low 16 bits of `n`, low byte first. */
  function PutUint16(n: nat): (r: seq<Byte>)
    ensures |r| == 2 && Uint16(r[0], r[1]) == n % 65536
  {
    [n % 256, (n / 256) % 256]
  }

  /** `binary.LittleEndian.Uint16`: the number two bytes denote, low byte first. */
  function Uint16(lo: Byte, hi: Byte): (n: nat)
    ensures n < 65536 && n % 256 == lo && n / 256 == hi
  {
    lo + 256 * hi
  }

  /** The encoder's buffer (path_payload.go:170-173): a 2-byte length prefix, then both ciphertexts. */
  function Frame(rsa: seq<Byte>, aes: seq<Byte>): (r: seq<Byte>)
    ensures |r| == 2 + |rsa| + |aes|
    ensures Uint16(r[0], r[1]) == |rsa| % 65536
    ensures r[2..2 + |rsa|] == rsa && r[2 + |rsa|..] == aes
  {
    PutUint16(|rsa|) + rsa + aes
  }

  /**
   * The decoder's split (decrypt.go:78-80). `2+rsaLen` is computed in
   * `uint16`, so it wraps for lengths 65534 and 65535; a slice whose bounds
   * are out of range panics.
   */
  function Unframe(b: seq<Byte>): (r: Outcome<Envelope>)
    ensures r.Ok? <==> |b| >= 2 && 2 + Uint16(b[0], b[1]) < 65536 && 2 + Uint16(b[0], b[1]) <= |b|
    ensures r.Ok? ==> |r.value.rsa| == Uint16(b[0], b[1]) && b == b[..2] + r.value.rsa + r.value.aes
  {
    if |b| < 2 then Err("index out of range")
    else
      var rsaLen := Uint16(b[0], b[1]);
      var end := (2 + rsaLen) % 65536;
      if end < 2 || end > |b| then Err("slice bounds out of range")
      else Ok(Envelope(b[2..end], b[end..]))
  }

  /**
   * As written, the split inverts the encoder's buffer exactly when the RSA
   * ciphertext is shorter than 65534 bytes: at 65534 and 65535 the wrapped
   * bound panics, and from 65536 on the truncated prefix splits at the
   * wrong place.
   */
  lemma UnframeAfterFrame(rsa: seq<Byte>, aes: seq<Byte>)
    ensures Unframe(Frame(rsa, aes)).Ok? <==> |rsa| % 65536 < 65534
    ensures Unframe(Frame(rsa, aes)) == Ok(Envelope(rsa, aes)) <==> |rsa| < 65534
  {
    var b := Frame(rsa, aes);
    if |rsa| < 65534 {
      assert b[2..2 + |rsa|] == rsa;
    }
  }

  /** A 65534-byte RSA ciphertext framed by the encoder makes the decoder panic. */
  lemma UnframeWrapExample()
    ensures Unframe(Frame(seq(65534, _ => 0), [])).Err?
  {
    UnframeAfterFrame(seq(65534, _ => 0), []);
  }

  /** The split with the bound computed without 16-bit wrap-around. */
  function UnframeWide(b: seq<Byte>): (r: Outcome<Envelope>)
    ensures r.Ok? <==> |b| >= 2 && 2 + Uint16(b[0], b[1]) <= |b|
    ensures r.Ok? ==> |r.value.rsa| == Uint16(b[0], b[1]) && b == b[..2] + r.value.rsa + r.value.aes
  {
    if |b| < 2 then Err("index out of range")
    else
      var end := 2 + Uint16(b[0], b[1]);
      if end > |b| then Err("slice bounds out of range")
      else Ok(Envelope(b[2..end], b[end..]))
  }

  /** Without the wrap-around, the split inverts the buffer for every length the prefix can carry. */
  lemma UnframeWideAfterFrame(rsa: seq<Byte>, aes: seq<Byte>)
    ensures UnframeWide(Frame(rsa, aes)) == Ok(Envelope(rsa, aes)) <==> |rsa| < 65536
  {
    var b := Frame(rsa, aes);
    if |rsa| < 65536 {
      assert b[2..2 + |rsa|] == rsa;
    }
  }

  /** The RSA plaintext the encoder builds (path_payload.go:158-159): the AES key, then the nonce. */
  function KeyNonce(key: seq<Byte>, nonce: seq<Byte>): (r: seq<Byte>)
    ensures |r| == |key| + |nonce|
    ensures |key| == KeySize && |nonce| == NonceSize ==> |r| == 44
    ensures r[..|key|] == key && r[|key|..] == nonce
  {
    key + nonce
  }

  /** The decoder's split of the RSA plaintext (decrypt.go:95-97): the first 32 bytes, then the rest. */
  function SplitKeyNonce(p: seq<Byte>): (r: Outcome<(seq<Byte>, seq<Byte>)>)
    ensures r.Ok? <==> |p| >= KeySize
    ensures r.Ok? ==> |r.value.0| == KeySize && r.value.0 + r.value.1 == p
  {
    if |p| < KeySize then Err("slice bounds out of range") else Ok((p[..KeySize], p[KeySize..]))
  }

  /** Splitting undoes the concatenation whenever the key has 32 bytes. */
  lemma SplitKeyNonceAfterKeyNonce(key: seq<Byte>, nonce: seq<Byte>)
    requires |key| == KeySize
    ensures SplitKeyNonce(KeyNonce(key, nonce)) == Ok((key, nonce))
  {
  }
}
