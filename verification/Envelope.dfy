/** The message envelope: HMAC, initialisation vector, and the AES-CBC encryption of the
    PKCS#7 padded message (section 6.3 of RFC 5652), the HMAC covering topic, vector and
    ciphertext. */
module Envelope {
  import Bits
  import Cbc
  import Sha256
  import opened Aes
  import opened Hmac

  const DIGEST_LENGTH: nat := 32
  const HEADER: nat := 48
  const AES_HMAC_OVERHEAD: nat := 64
  const MAX_LENGTH: nat := 0x1_0000_0000

  // ---------------------------------------------------------------------------
  // The envelope as a value

  function PadLength(n: nat): (k: nat)
    ensures 1 <= k <= BLOCK && (n + k) % BLOCK == 0
  {
    BLOCK - n % BLOCK
  }

  function PadByte(k: nat): bv8
    requires k <= BLOCK
  {
    k as bv8
  }

  function PadOf(b: bv8): nat {
    b as nat
  }

  lemma PadReadBack(k: nat)
    requires k <= BLOCK
    ensures PadOf(PadByte(k)) == k
  {
  }

  function Repeated(b: bv8, n: nat): (s: seq<bv8>)
    ensures |s| == n
  {
    seq(n, _ => b)
  }

  function Padded(message: seq<bv8>): (s: seq<bv8>)
    ensures |s| == |message| + PadLength(|message|) && Cbc.Whole(s)
  {
    message + Repeated(PadByte(PadLength(|message|)), PadLength(|message|))
  }

  /** Whether p ends in padding, of k bytes of value k. */
  predicate EndsInPadding(p: seq<bv8>) {
    && p != []
    && var k := PadOf(p[|p| - 1]);
       1 <= k <= BLOCK && k <= |p| && p[|p| - k..] == Repeated(p[|p| - 1], k)
  }

  function Unpadded(p: seq<bv8>): (s: seq<bv8>)
    requires EndsInPadding(p)
    ensures |s| < |p|
  {
    p[..|p| - PadOf(p[|p| - 1])]
  }

  lemma UnpadPadded(message: seq<bv8>)
    ensures EndsInPadding(Padded(message)) && Unpadded(Padded(message)) == message
  {
    hide PadByte; hide PadOf;
    var k := PadLength(|message|);
    PadReadBack(k);
    var p := Padded(message);
    assert p[|p| - k..] == Repeated(PadByte(k), k);
    assert p[|p| - 1] == p[|p| - k..][k - 1];
  }

  function Sealed(aesKey: Block, hmacKey: seq<bv8>, topic: seq<bv8>, iv: Block, message: seq<bv8>): (s: seq<bv8>)
    ensures |s| == HEADER + |message| + PadLength(|message|)
  {
    hide Mac; hide Expanded; hide Padded; hide PadLength; hide Cbc.Encrypt;
    var body: seq<bv8> := iv + Cbc.Encrypt(Padded(message), Expanded(aesKey), iv);
    Mac(hmacKey, topic + body) + body
  }

  datatype Option<T> = None | Some(value: T)

  predicate Authentic(hmacKey: seq<bv8>, topic: seq<bv8>, s: seq<bv8>) {
    hide Mac;
    |s| >= HEADER && s[..DIGEST_LENGTH] == Mac(hmacKey, topic + s[DIGEST_LENGTH..])
  }

  function PlainText(aesKey: Block, iv: Block, c: seq<bv8>): (r: Option<seq<bv8>>)
    requires |c| % BLOCK == 0
    ensures r.Some? ==> |r.value| < |c|
  {
    hide Expanded; hide Unpadded; hide EndsInPadding; hide Cbc.Decrypt;
    var p := Cbc.Decrypt(c, Expanded(aesKey), iv);
    if EndsInPadding(p) then Some(Unpadded(p)) else None
  }

  predicate WholeEnvelope(s: seq<bv8>) {
    |s| >= HEADER ==> (|s| - HEADER) % BLOCK == 0
  }

  function OpenedWhen(authentic: bool, aesKey: Block, s: seq<bv8>): Option<seq<bv8>>
    requires authentic ==> WholeEnvelope(s)
  {
    if |s| < HEADER || !authentic then None
    else PlainText(aesKey, s[DIGEST_LENGTH..HEADER], s[HEADER..])
  }

  /** What an envelope opens to; nothing when it is forged, whatever its length. */
  function Opened(aesKey: Block, hmacKey: seq<bv8>, topic: seq<bv8>, s: seq<bv8>): Option<seq<bv8>>
    requires Authentic(hmacKey, topic, s) ==> WholeEnvelope(s)
  {
    OpenedWhen(Authentic(hmacKey, topic, s), aesKey, s)
  }

  /** What an envelope is made of: a tag over topic and everything behind the tag, the
      vector, and the encrypted message, which is filled up to whole blocks by as many
      bytes as their value says. */
  lemma SealedParts(aesKey: Block, hmacKey: seq<bv8>, topic: seq<bv8>, iv: Block, message: seq<bv8>) returns (padded: seq<bv8>)
    ensures var s := Sealed(aesKey, hmacKey, topic, iv, message);
            && s[..32] == Mac(hmacKey, topic + s[32..]) && s[32..48] == iv
            && |padded| % 16 == 0 && |message| < |padded| <= |message| + 16 && padded[..|message|] == message
            && s[48..] == Cbc.Encrypt(padded, Expanded(aesKey), iv)
    ensures forall k | |message| <= k < |padded| :: padded[k] == (|padded| - |message|) as bv8
  {
    hide Mac; hide Expanded; hide Cbc.Encrypt;
    padded := Padded(message);
    var s := Sealed(aesKey, hmacKey, topic, iv, message);
    var body: seq<bv8> := iv + Cbc.Encrypt(padded, Expanded(aesKey), iv);
    assert s[32..] == body && s[32..48] == iv && s[48..] == body[16..];
  }

  /** A message, and 1 to 16 bytes that say how many they are. */
  ghost predicate IsPadded(p: seq<bv8>, message: seq<bv8>) {
    exists k | 1 <= k <= 16 :: p == message + Repeated(PadByte(k), k)
  }

  /** What an envelope with a right tag decrypts to. */
  function Decrypted(aesKey: Block, s: seq<bv8>): seq<bv8>
    requires WholeEnvelope(s) && |s| >= HEADER
  {
    hide Expanded; hide Cbc.Decrypt;
    Cbc.Decrypt(s[48..], Expanded(aesKey), s[32..48])
  }

  /** An envelope opens to a message if and only if its tag is right and it decrypts to the
      message and its padding. */
  lemma OpenExactly(aesKey: Block, hmacKey: seq<bv8>, topic: seq<bv8>, s: seq<bv8>, message: seq<bv8>)
    requires WholeEnvelope(s)
    ensures Opened(aesKey, hmacKey, topic, s) == Some(message) <==>
              |s| >= 48 && s[..32] == Mac(hmacKey, topic + s[32..]) && IsPadded(Decrypted(aesKey, s), message)
  {
    hide Mac; hide Expanded; hide Cbc.Decrypt; hide IsPadded; hide EndsInPadding; hide Unpadded;
    if |s| >= 48 {
      PaddingExactly(Decrypted(aesKey, s), message);
    }
  }

  lemma PaddingExactly(p: seq<bv8>, message: seq<bv8>)
    ensures EndsInPadding(p) && Unpadded(p) == message <==> IsPadded(p, message)
  {
    hide PadByte; hide PadOf;
    if EndsInPadding(p) && Unpadded(p) == message {
      var k := PadOf(p[|p| - 1]);
      PadWrittenBack(p[|p| - 1]);
      assert p == p[..|p| - k] + p[|p| - k..];
      assert p == message + Repeated(PadByte(k), k);
    }
    forall k | 1 <= k <= 16 && p == message + Repeated(PadByte(k), k)
      ensures EndsInPadding(p) && Unpadded(p) == message
    {
      PadReadBack(k);
      assert p[|p| - k..] == Repeated(PadByte(k), k);
    }
  }

  lemma PadWrittenBack(b: bv8)
    requires PadOf(b) <= BLOCK
    ensures PadByte(PadOf(b)) == b
  {
  }

  /** Opening undoes sealing, for every key, vector, topic and message. */
  lemma OpenSealed(aesKey: Block, hmacKey: seq<bv8>, topic: seq<bv8>, iv: Block, message: seq<bv8>)
    ensures var s := Sealed(aesKey, hmacKey, topic, iv, message);
            && |s| <= |message| + AES_HMAC_OVERHEAD && WholeEnvelope(s)
            && Opened(aesKey, hmacKey, topic, s) == Some(message)
  {
    hide Mac; hide Expanded; hide Padded; hide Unpadded; hide EndsInPadding; hide PadLength;
    hide Cbc.Encrypt; hide Cbc.Decrypt;
    var s := Sealed(aesKey, hmacKey, topic, iv, message);
    var p, w := Padded(message), Expanded(aesKey);
    var c := Cbc.Encrypt(p, w, iv);
    var body: seq<bv8> := iv + c;
    assert s[..DIGEST_LENGTH] == Mac(hmacKey, topic + body) && s[DIGEST_LENGTH..] == body;
    assert s[DIGEST_LENGTH..HEADER] == iv && s[HEADER..] == c;
    Cbc.DecryptEncrypt(p, w, iv);
    UnpadPadded(message);
  }

  // ---------------------------------------------------------------------------
  // The two functions in place

  class Crypto {
    var aesKey: Block
    const hmacKey: array<bv8>

    ghost predicate Valid()
      reads this
    {
      hmacKey.Length == BLOCK
    }

    /** init_aes_hmac_combined: the two halves of the master key's digest. */
    constructor (masterKey: array<bv8>)
      requires masterKey.Length == BLOCK
      ensures Valid() && fresh(hmacKey)
      ensures aesKey + hmacKey[..] == Sha256.Digest(masterKey[..])
    {
      hide Sha256.Digest;
      var hash := Raw(masterKey);
      aesKey := hash[..BLOCK];
      hmacKey := new bv8[BLOCK](i requires 0 <= i < BLOCK && |hash| == 2 * BLOCK => hash[BLOCK + i]);
      new;
      assert hmacKey[..] == hash[BLOCK..];
      assert hash == hash[..BLOCK] + hash[BLOCK..];
    }

    /** The HMAC of a topic and of a part of a buffer. */
    method MacOf(topic: array<bv8>, data: array<bv8>, from: nat, length: nat) returns (mac: seq<bv8>)
      requires Valid() && from + length <= data.Length && topic.Length + length < MAX_LENGTH
      ensures mac == Mac(hmacKey[..], topic[..] + data[from..from + length])
    {
      hide Mac; hide Inner; hide Outer; hide Sha256.Absorbed;
      var hctx := new HmacContext(hmacKey);
      hctx.Update(topic, 0, topic.Length);
      assert [] + topic[0..topic.Length] == topic[..];
      hctx.Update(data, from, length);
      mac := hctx.Final();
    }

    /** encrypt_aes_hmac_combined; the random vector is a parameter. */
    method Encrypt(dst: array<bv8>, topic: array<bv8>, message: array<bv8>, iv: Block) returns (n: nat)
      requires Valid() && dst != topic && dst != message && dst != hmacKey
      requires message.Length + AES_HMAC_OVERHEAD <= dst.Length
      requires topic.Length + message.Length + AES_HMAC_OVERHEAD < MAX_LENGTH
      modifies dst
      ensures n <= message.Length + AES_HMAC_OVERHEAD
      ensures n == |Sealed(aesKey, hmacKey[..], topic[..], iv, message[..])|
      ensures dst[..n] == Sealed(aesKey, hmacKey[..], topic[..], iv, message[..])
    {
      hide Mac; hide Padded; hide Cbc.Encrypt; hide Expanded;
      var paddedLen := Fill(dst, message, iv);
      n := EncryptText(dst, paddedLen, iv, message[..]);
      var mac := MacOf(topic, dst, DIGEST_LENGTH, n - DIGEST_LENGTH);
      PutMac(dst, n, mac);
    }

    /** Vector, message and padding into the buffer. */
    method Fill(dst: array<bv8>, message: array<bv8>, iv: Block) returns (paddedLen: nat)
      requires dst != message && message.Length + AES_HMAC_OVERHEAD <= dst.Length
      modifies dst
      ensures paddedLen == message.Length + PadLength(message.Length) <= dst.Length - HEADER
      ensures dst[DIGEST_LENGTH..HEADER] == iv && dst[HEADER..HEADER + paddedLen] == Padded(message[..])
    {
      hide PadByte;
      PutIv(dst, iv);
      var pad := BLOCK - message.Length % BLOCK;
      paddedLen := message.Length + pad;
      PutMessage(dst, message);
      ghost var filled := dst[..HEADER + message.Length];
      assert filled[DIGEST_LENGTH..HEADER] == dst[DIGEST_LENGTH..HEADER];
      assert filled[HEADER..] == dst[HEADER..HEADER + message.Length];
      PutPadding(dst, HEADER + message.Length, pad);
      ghost var now := dst[..HEADER + paddedLen];
      FilledParts(now, filled, message[..], iv, Repeated(PadByte(pad), pad));
      assert dst[DIGEST_LENGTH..HEADER] == now[DIGEST_LENGTH..HEADER];
      assert dst[HEADER..HEADER + paddedLen] == now[HEADER..];
    }

    method PutIv(dst: array<bv8>, iv: Block)
      requires HEADER <= dst.Length
      modifies dst
      ensures dst[DIGEST_LENGTH..HEADER] == iv
    {
      forall k | 0 <= k < BLOCK {
        dst[DIGEST_LENGTH + k] := iv[k];
      }
    }

    method PutMessage(dst: array<bv8>, message: array<bv8>)
      requires dst != message && HEADER + message.Length <= dst.Length
      modifies dst
      ensures dst[HEADER..HEADER + message.Length] == message[..]
      ensures dst[DIGEST_LENGTH..HEADER] == old(dst[DIGEST_LENGTH..HEADER])
    {
      forall k | 0 <= k < message.Length {
        dst[HEADER + k] := message[k];
      }
    }

    method PutPadding(dst: array<bv8>, at: nat, pad: nat)
      requires 1 <= pad <= BLOCK && at + pad <= dst.Length
      modifies dst
      ensures dst[..at + pad] == old(dst[..at]) + Repeated(PadByte(pad), pad)
    {
      hide PadByte;
      for i := 0 to pad
        invariant dst[..at + i] == old(dst[..at]) + Repeated(PadByte(pad), i)
      {
        dst[at + i] := PadByte(pad);
      }
    }

    method EncryptText(dst: array<bv8>, paddedLen: nat, iv: Block, ghost message: seq<bv8>) returns (n: nat)
      requires paddedLen == |Padded(message)| && HEADER + paddedLen <= dst.Length
      requires dst[DIGEST_LENGTH..HEADER] == iv && dst[HEADER..HEADER + paddedLen] == Padded(message)
      modifies dst
      ensures n == HEADER + paddedLen
      ensures dst[DIGEST_LENGTH..n] == iv + Cbc.Encrypt(Padded(message), Expanded(aesKey), iv)
    {
      hide Padded; hide Cbc.Encrypt; hide Expanded;
      ghost var was := dst[..];
      Cbc.EncryptBuffer(dst, HEADER, paddedLen, aesKey, DIGEST_LENGTH);
      n := HEADER + paddedLen;
      Bits.SubSlice(was, 0, HEADER, DIGEST_LENGTH, HEADER);
      Bits.SubSlice(dst[..], 0, HEADER, DIGEST_LENGTH, HEADER);
      assert was[0..HEADER] == was[..HEADER] && dst[..][0..HEADER] == dst[..HEADER];
      assert dst[DIGEST_LENGTH..n] == dst[DIGEST_LENGTH..HEADER] + dst[HEADER..n];
    }

    method PutMac(dst: array<bv8>, n: nat, mac: seq<bv8>)
      requires |mac| == DIGEST_LENGTH <= n <= dst.Length
      modifies dst
      ensures dst[..n] == mac + old(dst[DIGEST_LENGTH..n])
    {
      forall k | 0 <= k < DIGEST_LENGTH {
        dst[k] := mac[k];
      }
    }

    /** decrypt_aes_hmac_combined: 0 when the envelope is not authentic or its padding is
        malformed. */
    method Decrypt(dst: array<bv8>, topic: array<bv8>, message: array<bv8>) returns (n: nat)
      requires Valid() && dst != topic && dst != message && dst != hmacKey
      requires Authentic(hmacKey[..], topic[..], message[..]) ==> WholeEnvelope(message[..])
      requires message.Length <= dst.Length + HEADER && topic.Length + message.Length < MAX_LENGTH
      modifies dst
      ensures var plain := Opened(aesKey, hmacKey[..], topic[..], message[..]);
              match plain
              case None => n == 0
              case Some(p) => n == |p| <= dst.Length && dst[..n] == p
    {
      hide Mac; hide Cbc.Decrypt; hide Expanded; hide EndsInPadding; hide Unpadded;
      if message.Length < HEADER {
        return 0;
      }
      var mac := MacOf(topic, message, DIGEST_LENGTH, message.Length - DIGEST_LENGTH);
      assert message[DIGEST_LENGTH..DIGEST_LENGTH + (message.Length - DIGEST_LENGTH)] == message[..][DIGEST_LENGTH..];
      assert message[..][..DIGEST_LENGTH] == message[..DIGEST_LENGTH];
      if mac != message[..DIGEST_LENGTH] {
        return 0;
      }
      var encryptedLen := message.Length - HEADER;
      Cbc.DecryptBuffer(dst, message, HEADER, encryptedLen, aesKey, DIGEST_LENGTH);
      ghost var all := message[..];
      assert all[HEADER..HEADER + encryptedLen] == all[HEADER..];
      assert message[HEADER..HEADER + encryptedLen] == all[HEADER..HEADER + encryptedLen];
      n := Unpad(dst, encryptedLen);
    }

    /** Checks the padding byte by byte, from the end. */
    method Unpad(dst: array<bv8>, encryptedLen: nat) returns (n: nat)
      requires encryptedLen <= dst.Length && encryptedLen % BLOCK == 0
      ensures var p := dst[..encryptedLen];
              if EndsInPadding(p) then n == |Unpadded(p)| && dst[..n] == Unpadded(p) else n == 0
    {
      hide PadOf;
      if encryptedLen == 0 {
        return 0;
      }
      var last := dst[encryptedLen - 1];
      var pad := PadOf(last);
      if pad == 0 || pad > BLOCK {
        return 0;
      }
      for i := 0 to pad
        invariant forall k | encryptedLen - i <= k < encryptedLen :: dst[k] == last
      {
        if dst[encryptedLen - 1 - i] != last {
          NotPadding(dst[..encryptedLen], pad, encryptedLen - 1 - i);
          return 0;
        }
      }
      assert dst[..encryptedLen][encryptedLen - pad..] == Repeated(last, pad);
      return encryptedLen - pad;
    }
  }

  lemma NotPadding(p: seq<bv8>, pad: nat, k: nat)
    requires 1 <= pad <= BLOCK && pad <= |p| && pad == PadOf(p[|p| - 1])
    requires |p| - pad <= k < |p| && p[k] != p[|p| - 1]
    ensures !EndsInPadding(p)
  {
    hide PadOf;
    assert p[|p| - pad..][k - (|p| - pad)] == p[k];
  }

  lemma FilledParts(now: seq<bv8>, filled: seq<bv8>, message: seq<bv8>, iv: Block, padding: seq<bv8>)
    requires |filled| == HEADER + |message| && filled[DIGEST_LENGTH..HEADER] == iv && filled[HEADER..] == message
    requires now == filled + padding
    ensures now[DIGEST_LENGTH..HEADER] == iv && now[HEADER..] == message + padding
  {
    assert now[DIGEST_LENGTH..HEADER] == filled[DIGEST_LENGTH..HEADER];
    assert now[HEADER..] == filled[HEADER..] + padding;
  }
}
