/** HMAC over SHA-256 (section 2 of RFC 2104), in streaming form. */
module Hmac {
  import Bits
  import opened Sha256

  function XorAll(s: seq<bv8>, b: bv8): (t: seq<bv8>)
    ensures |t| == |s|
  {
    seq(|s|, i requires 0 <= i < |s| => s[i] ^ b)
  }

  /** The key as a whole block; a longer key is hashed first. */
  function KeyBlock(key: seq<bv8>): (s: seq<bv8>)
    ensures |s| == BLOCK_LENGTH
  {
    if |key| > BLOCK_LENGTH then Digest(key) + Zeros(BLOCK_LENGTH - DIGEST_LENGTH)
    else key + Zeros(BLOCK_LENGTH - |key|)
  }

  function Inner(key: seq<bv8>): seq<bv8> {
    XorAll(KeyBlock(key), 0x36)
  }

  function Outer(key: seq<bv8>): seq<bv8> {
    XorAll(KeyBlock(key), 0x5c)
  }

  function Mac(key: seq<bv8>, message: seq<bv8>): (s: seq<bv8>)
    ensures |s| == DIGEST_LENGTH
  {
    Digest(Outer(key) + Digest(Inner(key) + message))
  }

  /** Section 2 of RFC 2104: a key of at most a block, filled up with zeros, goes into the
      inner hash with every byte changed by 0x36, and into the outer one by 0x5c. */
  lemma MacOfKey(key: seq<bv8>, inner: seq<bv8>, outer: seq<bv8>, message: seq<bv8>)
    requires |key| <= |inner| == |outer| == 64
    requires forall k | 0 <= k < 64 :: inner[k] == (if k < |key| then key[k] ^ 0x36 else 0x36)
    requires forall k | 0 <= k < 64 :: outer[k] == (if k < |key| then key[k] ^ 0x5c else 0x5c)
    ensures Mac(key, message) == Digest(outer + Digest(inner + message))
  {
    hide Digest;
    assert inner == Inner(key);
    assert outer == Outer(key);
  }

  /** A longer key stands for its digest. */
  lemma MacOfLongKey(key: seq<bv8>, message: seq<bv8>)
    requires |key| > 64
    ensures Mac(key, message) == Mac(Digest(key), message)
  {
    hide Digest; hide XorAll; hide Zeros;
    assert KeyBlock(key) == KeyBlock(Digest(key));
  }

  /** sha256_raw */
  method Raw(data: array<bv8>) returns (digest: seq<bv8>)
    requires data.Length < MAX_MESSAGE
    ensures digest == Digest(data[..])
  {
    hide Digest; hide Absorbed;
    var ctx := new Context();
    ctx.Update(data, 0, data.Length);
    assert [] + data[0..data.Length] == data[..];
    digest := ctx.Final();
  }

  class HmacContext {
    const ctx: Context
    const oKeyPad: array<bv8>
    ghost var key: seq<bv8>
    ghost var message: seq<bv8>

    ghost predicate Valid()
      reads this, ctx, ctx.buffer, oKeyPad
    {
      && ctx.Valid() && ctx.buffer != oKeyPad
      && ctx.fed == Inner(key) + message && oKeyPad[..] == Outer(key)
    }

    /** hmac_sha256_init */
    constructor (key: array<bv8>)
      requires key.Length < MAX_MESSAGE
      ensures Valid() && this.key == key[..] && message == []
      ensures fresh(ctx) && fresh(ctx.buffer) && fresh(oKeyPad)
    {
      ctx := new Context();
      oKeyPad := new bv8[BLOCK_LENGTH];
      this.key, message := key[..], [];
      new;
      Begin(key);
    }

    /** Derives both pads from the key, and feeds the inner one. */
    method Begin(key: array<bv8>)
      requires ctx.Valid() && ctx.fed == [] && key.Length < MAX_MESSAGE && key != oKeyPad && key != ctx.buffer
      requires oKeyPad.Length == BLOCK_LENGTH && oKeyPad != ctx.buffer && this.key == key[..] && message == []
      modifies ctx, ctx.buffer, oKeyPad
      ensures Valid()
    {
      hide Digest; hide Absorbed; hide XorAll; hide KeyBlock;
      var iKeyPad := PaddedKey(key);
      SplitPads(iKeyPad, oKeyPad);
      ctx.Update(iKeyPad, 0, BLOCK_LENGTH);
      assert [] + iKeyPad[0..BLOCK_LENGTH] == iKeyPad[..] == Inner(key[..]) + [];
    }

    method Update(data: array<bv8>, from: nat, length: nat)
      requires Valid() && data != ctx.buffer && from + length <= data.Length
      requires BLOCK_LENGTH + |message| + length < MAX_MESSAGE
      modifies `message, ctx, ctx.buffer
      ensures Valid() && message == old(message) + data[from..from + length]
    {
      hide Digest; hide KeyBlock; hide Absorbed;
      ghost var inner := Inner(key);
      ctx.Update(data, from, length);
      Bits.Reassociate(inner, message, data[from..from + length]);
      message := message + data[from..from + length];
    }

    method Final() returns (mac: seq<bv8>)
      requires Valid()
      modifies ctx, ctx.buffer
      ensures mac == Mac(key, message)
    {
      hide Digest; hide KeyBlock; hide Absorbed;
      var hash := ctx.Final();
      var hashBuffer := new bv8[DIGEST_LENGTH](i requires 0 <= i < |hash| => hash[i]);
      assert hashBuffer[..] == hash;
      FinishOuter(hashBuffer);
      mac := ctx.Final();
    }

    method FinishOuter(hash: array<bv8>)
      requires hash.Length == DIGEST_LENGTH && hash != ctx.buffer && ctx.buffer != oKeyPad
      requires ctx.buffer.Length == BLOCK_LENGTH && oKeyPad[..] == Outer(key)
      modifies ctx, ctx.buffer
      ensures ctx.Valid() && ctx.fed == Outer(key) + hash[..]
    {
      hide Digest; hide KeyBlock; hide Absorbed;
      ctx.Init();
      ctx.Update(oKeyPad, 0, BLOCK_LENGTH);
      assert [] + oKeyPad[0..BLOCK_LENGTH] == Outer(key);
      ctx.Update(hash, 0, DIGEST_LENGTH);
      assert hash[0..DIGEST_LENGTH] == hash[..];
    }
  }

  method PaddedKey(key: array<bv8>) returns (pad: array<bv8>)
    requires key.Length < MAX_MESSAGE
    ensures fresh(pad) && pad.Length == BLOCK_LENGTH && pad[..] == KeyBlock(key[..])
  {
    hide Digest;
    pad := new bv8[BLOCK_LENGTH](_ => 0);
    if key.Length > BLOCK_LENGTH {
      var hash := Raw(key);
      PutKey(pad, hash);
    } else {
      PutKey(pad, key[..]);
    }
  }

  method PutKey(pad: array<bv8>, key: seq<bv8>)
    requires pad.Length == BLOCK_LENGTH && pad[..] == Zeros(BLOCK_LENGTH) && |key| <= BLOCK_LENGTH
    modifies pad
    ensures pad[..] == key + Zeros(BLOCK_LENGTH - |key|)
  {
    forall i | 0 <= i < |key| {
      pad[i] := key[i];
    }
  }

  /** Both pads at once: the outer one apart, the inner one in place. */
  method SplitPads(iKeyPad: array<bv8>, oKeyPad: array<bv8>)
    requires iKeyPad != oKeyPad && iKeyPad.Length == oKeyPad.Length == BLOCK_LENGTH
    modifies iKeyPad, oKeyPad
    ensures iKeyPad[..] == XorAll(old(iKeyPad[..]), 0x36)
    ensures oKeyPad[..] == XorAll(old(iKeyPad[..]), 0x5c)
  {
    for i := 0 to BLOCK_LENGTH
      invariant forall k | 0 <= k < i :: iKeyPad[k] == old(iKeyPad[k]) ^ 0x36 && oKeyPad[k] == old(iKeyPad[k]) ^ 0x5c
      invariant forall k | i <= k < BLOCK_LENGTH :: iKeyPad[k] == old(iKeyPad[k])
    {
      oKeyPad[i] := iKeyPad[i] ^ 0x5c;
      iKeyPad[i] := iKeyPad[i] ^ 0x36;
    }
  }
}
