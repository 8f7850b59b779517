/** Cipher block chaining (section 6.2 of NIST SP 800-38A): encryption in place, with the
    initialisation vector in the same buffer, and decryption into another one. */
module Cbc {
  import Bits
  import opened AesField
  import opened Aes

  predicate Whole(s: seq<bv8>) {
    |s| % BLOCK == 0
  }

  function Encrypt(p: seq<bv8>, w: RoundKey, iv: Block): (c: seq<bv8>)
    requires Whole(p)
    ensures |c| == |p|
    decreases |p|
  {
    hide Cipher; hide XorBlock;
    if p == [] then [] else var c := Cipher(XorBlock(p[..BLOCK], iv), w); c + Encrypt(p[BLOCK..], w, c)
  }

  function Decrypt(c: seq<bv8>, w: RoundKey, iv: Block): (p: seq<bv8>)
    requires Whole(c)
    ensures |p| == |c|
    decreases |c|
  {
    hide InvCipher; hide XorBlock;
    if c == [] then [] else XorBlock(InvCipher(c[..BLOCK], w), iv) + Decrypt(c[BLOCK..], w, c[..BLOCK])
  }

  /** Decryption undoes encryption for every key, initialisation vector and text. */
  lemma {:induction false} DecryptEncrypt(p: seq<bv8>, w: RoundKey, iv: Block)
    requires Whole(p)
    ensures Decrypt(Encrypt(p, w, iv), w, iv) == p
    decreases |p|
  {
    hide Cipher; hide InvCipher; hide XorBlock;
    if p != [] {
      var first := XorBlock(p[..BLOCK], iv);
      var c := Cipher(first, w);
      var rest: seq<bv8> := Encrypt(p[BLOCK..], w, c);
      DecryptEncrypt(p[BLOCK..], w, c);
      var all: seq<bv8> := Encrypt(p, w, iv);
      assert all[..BLOCK] == c && all[BLOCK..] == rest;
      CipherInverse(first, w);
      XorBlockInverse(p[..BLOCK], iv);
    }
  }

  /** Block k of a text. */
  function BlockAt(s: seq<bv8>, k: nat): Block
    requires BLOCK * k + BLOCK <= |s|
  {
    s[BLOCK * k..BLOCK * k + BLOCK]
  }

  /** The chain: every block is added to the ciphertext before it, the first one to the
      vector, and the sum is encrypted. */
  lemma {:induction false} EncryptBlocks(p: seq<bv8>, w: RoundKey, iv: Block, k: nat)
    requires Whole(p) && BLOCK * k + BLOCK <= |p|
    ensures var c := Encrypt(p, w, iv);
            BlockAt(c, k) == Cipher(XorBlock(BlockAt(p, k), if k == 0 then iv else BlockAt(c, k - 1)), w)
    decreases k
  {
    hide Cipher; hide XorBlock;
    var first := Cipher(XorBlock(p[..BLOCK], iv), w);
    var c, rest := Encrypt(p, w, iv), Encrypt(p[BLOCK..], w, first);
    assert c == first + rest;
    if k == 0 {
      assert BlockAt(p, 0) == p[..BLOCK] && BlockAt(c, 0) == first;
    } else {
      EncryptBlocks(p[BLOCK..], w, first, k - 1);
      NextBlock(p, p[BLOCK..], k);
      NextBlock(c, rest, k);
      if k == 1 {
        assert BlockAt(c, 0) == first;
      } else {
        NextBlock(c, rest, k - 1);
      }
    }
  }

  lemma NextBlock(s: seq<bv8>, rest: seq<bv8>, k: nat)
    requires 1 <= k && BLOCK * k + BLOCK <= |s| && rest == s[BLOCK..]
    ensures BLOCK * (k - 1) + BLOCK <= |rest| && BlockAt(s, k) == BlockAt(rest, k - 1)
  {
    var i := 16 * (k - 1);
    assert rest == s[16..|s|];
    Bits.SubSlice(s, 16, |s|, i, i + 16);
    assert BlockAt(rest, k - 1) == rest[i..i + 16] && BlockAt(s, k) == s[i + 16..i + 32];
  }

  /** XorWithIv: adds the block at q of b to the block at o of a; b may be a itself. */
  method XorWith(a: array<bv8>, o: nat, b: array<bv8>, q: nat)
    requires o + BLOCK <= a.Length && q + BLOCK <= b.Length && (a == b ==> q + BLOCK <= o)
    modifies a
    ensures At(a[..], o) == XorBlock(At(old(a[..]), o), At(old(b[..]), q)) && OnlyBlock(a[..], old(a[..]), o)
  {
    hide Xor; hide At;
    ghost var was, iv := At(a[..], o), At(b[..], q);
    for k := 0 to BLOCK
      invariant OnlyBlock(a[..], old(a[..]), o) && At(b[..], q) == iv
      invariant forall m | 0 <= m < BLOCK :: At(a[..], o)[m] == if m < k then Xor(was[m], iv[m]) else was[m]
    {
      var v := ByteOf(a, o, k);
      var u := ByteOf(b, q, k);
      ghost var before := a[..];
      SetByte(a, o, k, Xor(v, u));
      if a == b {
        ElsewhereSame(a[..], before, o, q);
      }
    }
  }

  lemma ElsewhereSame(now: seq<bv8>, was: seq<bv8>, o: nat, q: nat)
    requires OnlyBlock(now, was, o) && q + BLOCK <= o
    ensures At(now, q) == At(was, q)
  {
    Bits.SubSlice(now, 0, o, q, q + BLOCK);
    Bits.SubSlice(was, 0, o, q, q + BLOCK);
    assert now[0..o] == now[..o] && was[0..o] == was[..o];
  }

  method BlockCopy(a: array<bv8>, o: nat, b: array<bv8>, q: nat)
    requires o + BLOCK <= a.Length && q + BLOCK <= b.Length && a != b
    modifies a
    ensures At(a[..], o) == At(b[..], q) && OnlyBlock(a[..], old(a[..]), o)
  {
    forall k | 0 <= k < BLOCK {
      a[o + k] := b[q + k];
    }
  }

  /** One block of a chain. */
  lemma EncryptStep(p: seq<bv8>, i: nat, w: RoundKey, iv: Block)
    requires Whole(p) && i % BLOCK == 0 && i < |p|
    ensures i + BLOCK <= |p| && Whole(p[i..]) && Whole(p[i + BLOCK..])
    ensures var c := Cipher(XorBlock(p[i..i + BLOCK], iv), w);
            Encrypt(p[i..], w, iv) == c + Encrypt(p[i + BLOCK..], w, c)
  {
    hide Cipher; hide XorBlock;
    assert p[i..][..BLOCK] == p[i..i + BLOCK] && p[i..][BLOCK..] == p[i + BLOCK..];
  }

  lemma DecryptStep(c: seq<bv8>, i: nat, w: RoundKey, iv: Block)
    requires Whole(c) && i % BLOCK == 0 && i < |c|
    ensures i + BLOCK <= |c| && Whole(c[i..]) && Whole(c[i + BLOCK..])
    ensures Decrypt(c[i..], w, iv) == XorBlock(InvCipher(c[i..i + BLOCK], w), iv) + Decrypt(c[i + BLOCK..], w, c[i..i + BLOCK])
  {
    hide InvCipher; hide XorBlock;
    assert c[i..][..BLOCK] == c[i..i + BLOCK] && c[i..][BLOCK..] == c[i + BLOCK..];
  }

  lemma NothingMore(p: seq<bv8>, w: RoundKey, iv: Block)
    requires Whole(p)
    ensures Encrypt(p[|p|..], w, iv) == [] && Decrypt(p[|p|..], w, iv) == []
  {
  }

  /** What writing the block behind i bytes of a text at o leaves. */
  lemma BlockWritten(now: seq<bv8>, was: seq<bv8>, o: nat, i: nat, length: nat)
    requires i + BLOCK <= length && o + length <= |was| && OnlyBlock(now, was, o + i)
    ensures now[o..o + i + BLOCK] == was[o..o + i] + At(now, o + i)
    ensures now[o + i + BLOCK..o + length] == was[o + i + BLOCK..o + length]
    ensures now[..o] == was[..o] && now[o + length..] == was[o + length..]
  {
    var n := o + i;
    assert now[o..n] == now[..n][o..] == was[..n][o..] == was[o..n];
    assert now[..o] == now[..n][..o] == was[..n][..o] == was[..o];
    assert now[n + BLOCK..][..length - i - BLOCK] == now[n + BLOCK..o + length];
    assert was[n + BLOCK..][..length - i - BLOCK] == was[n + BLOCK..o + length];
    assert now[n + BLOCK..][length - i - BLOCK..] == now[o + length..];
    assert was[n + BLOCK..][length - i - BLOCK..] == was[o + length..];
  }

  lemma TextBlock(buf: seq<bv8>, o: nat, i: nat, length: nat, p: seq<bv8>)
    requires i + BLOCK <= length == |p| && o + length <= |buf| && buf[o + i..o + length] == p[i..]
    ensures At(buf, o + i) == p[i..i + BLOCK]
    ensures buf[o + i + BLOCK..o + length] == p[i + BLOCK..]
  {
    assert buf[o + i..o + length][..BLOCK] == buf[o + i..o + i + BLOCK];
    assert p[i..][..BLOCK] == p[i..i + BLOCK];
    assert buf[o + i..o + length][BLOCK..] == buf[o + i + BLOCK..o + length];
    assert p[i..][BLOCK..] == p[i + BLOCK..];
  }

  ghost predicate OnlyText(now: seq<bv8>, was: seq<bv8>, o: nat, length: nat) {
    && |now| == |was| && o + length <= |was|
    && now[..o] == was[..o] && now[o + length..] == was[o + length..]
  }

  lemma WholeText(p: seq<bv8>, length: nat)
    requires |p| == length && length % BLOCK == 0
    ensures Whole(p)
  {
  }

  lemma Untouched(was: seq<bv8>, o: nat, length: nat)
    requires o + length <= |was|
    ensures OnlyText(was, was, o, length)
  {
  }

  lemma OnlyTextTwice(now: seq<bv8>, mid: seq<bv8>, was: seq<bv8>, o: nat, length: nat)
    requires OnlyText(now, mid, o, length) && OnlyText(mid, was, o, length)
    ensures OnlyText(now, was, o, length)
  {
  }

  /** Encrypts the next block; `all` is the whole ciphertext. */
  method EncryptOne(buf: array<bv8>, o: nat, i: nat, length: nat, w: RoundKey, previous: nat,
                    ghost p: seq<bv8>, ghost all: seq<bv8>)
    requires Whole(p) && i < length == |p| && i % BLOCK == 0 && o + length <= buf.Length && previous + BLOCK <= o + i
    requires buf[o + i..o + length] == p[i..] && Whole(p[i..])
    requires buf[o..o + i] + Encrypt(p[i..], w, At(buf[..], previous)) == all
    modifies buf
    ensures OnlyText(buf[..], old(buf[..]), o, length)
    ensures i + BLOCK <= length && Whole(p[i + BLOCK..]) && buf[o + i + BLOCK..o + length] == p[i + BLOCK..]
    ensures buf[o..o + i + BLOCK] + Encrypt(p[i + BLOCK..], w, At(buf[..], o + i)) == all
  {
    hide Cipher; hide XorBlock; hide At; hide Encrypt; hide OnlyBlock; hide Whole;
    ghost var was, iv := buf[..], At(buf[..], previous);
    EncryptStep(p, i, w, iv);
    TextBlock(was, o, i, length, p);
    XorWith(buf, o + i, buf, previous);
    ghost var mid := buf[..];
    CipherInPlace(buf, o + i, w);
    OnlyBlockTwice(buf[..], mid, was, o + i);
    BlockWritten(buf[..], was, o, i, length);
    Bits.Reassociate(was[o..o + i], At(buf[..], o + i), Encrypt(p[i + BLOCK..], w, At(buf[..], o + i)));
  }

  /** AES128_CBC_encrypt_buffer, in place: text at o, initialisation vector at ivAt. */
  method EncryptBuffer(buf: array<bv8>, o: nat, length: nat, key: Block, ivAt: nat)
    requires length % BLOCK == 0 && ivAt + BLOCK <= o && o + length <= buf.Length
    modifies buf
    ensures buf[o..o + length] == Encrypt(old(buf[o..o + length]), Expanded(key), At(old(buf[..]), ivAt))
    ensures OnlyText(buf[..], old(buf[..]), o, length)
  {
    hide Cipher; hide XorBlock; hide Expanded; hide At; hide Encrypt; hide OnlyText; hide Whole; hide OnlyBlock;
    WholeText(buf[o..o + length], length);
    ghost var p, iv := buf[o..o + length], At(buf[..], ivAt);
    var roundKey := new bv8[ROUND_KEY_SIZE];
    KeyExpansion(roundKey, key);
    var w := roundKey[..];
    var i: nat, previous: nat := 0, ivAt;
    assert p[0..] == p && OnlyText(buf[..], old(buf[..]), o, length) by { Untouched(buf[..], o, length); }
    while i < length
      modifies buf
      invariant i <= length && i % BLOCK == 0 && previous + BLOCK <= o + i && Whole(p[i..])
      invariant OnlyText(buf[..], old(buf[..]), o, length)
      invariant buf[o + i..o + length] == p[i..]
      invariant buf[o..o + i] + Encrypt(p[i..], w, At(buf[..], previous)) == Encrypt(p, w, iv)
    {
      ghost var mid := buf[..];
      EncryptOne(buf, o, i, length, w, previous, p, Encrypt(p, w, iv));
      OnlyTextTwice(buf[..], mid, old(buf[..]), o, length);
      previous, i := o + i, i + BLOCK;
    }
    NothingMore(p, w, At(buf[..], previous));
  }

  method DecryptOne(output: array<bv8>, input: array<bv8>, io: nat, i: nat, length: nat, w: RoundKey, previous: nat,
                    ghost c: seq<bv8>, ghost all: seq<bv8>)
    requires output != input && Whole(c) && i < length == |c| && i % BLOCK == 0
    requires io + length <= input.Length && length <= output.Length && previous + BLOCK <= input.Length
    requires input[io..io + length] == c && Whole(c[i..])
    requires output[..i] + Decrypt(c[i..], w, At(input[..], previous)) == all
    modifies output
    ensures output[length..] == old(output[length..])
    ensures i + BLOCK <= length && Whole(c[i + BLOCK..])
    ensures output[..i + BLOCK] + Decrypt(c[i + BLOCK..], w, At(input[..], io + i)) == all
  {
    hide InvCipher; hide XorBlock; hide At; hide Decrypt; hide OnlyBlock; hide Whole;
    ghost var was, iv := output[..], At(input[..], previous);
    DecryptStep(c, i, w, iv);
    InputBlock(input[..], io, i, length, c);
    BlockCopy(output, i, input, io + i);
    ghost var mid := output[..];
    InvCipherInPlace(output, i, w);
    OnlyBlockTwice(output[..], mid, was, i);
    mid := output[..];
    XorWith(output, i, input, previous);
    OnlyBlockTwice(output[..], mid, was, i);
    BlockWritten(output[..], was, 0, i, length);
    assert output[0..i + BLOCK] == output[..i + BLOCK] && was[0..i] == was[..i];
    Bits.Reassociate(was[..i], At(output[..], i), Decrypt(c[i + BLOCK..], w, At(input[..], io + i)));
  }

  lemma InputBlock(input: seq<bv8>, io: nat, i: nat, length: nat, c: seq<bv8>)
    requires i + BLOCK <= length == |c| && io + length <= |input| && input[io..io + length] == c
    ensures At(input, io + i) == c[i..i + BLOCK]
  {
    Bits.SubSlice(input, io, io + length, i, i + BLOCK);
  }

  /** AES128_CBC_decrypt_buffer: from io of the input to the start of the output. */
  method DecryptBuffer(output: array<bv8>, input: array<bv8>, io: nat, length: nat, key: Block, ivAt: nat)
    requires output != input && length % BLOCK == 0 && ivAt + BLOCK <= input.Length
    requires io + length <= input.Length && length <= output.Length
    modifies output
    ensures output[..length] == Decrypt(input[io..io + length], Expanded(key), At(input[..], ivAt))
    ensures output[length..] == old(output[length..])
  {
    hide InvCipher; hide XorBlock; hide Expanded; hide At; hide Decrypt;
    ghost var c, iv := input[io..io + length], At(input[..], ivAt);
    var roundKey := new bv8[ROUND_KEY_SIZE];
    KeyExpansion(roundKey, key);
    var w := roundKey[..];
    var i: nat, previous: nat := 0, ivAt;
    assert c[0..] == c;
    while i < length
      modifies output
      invariant i <= length && i % BLOCK == 0 && previous + BLOCK <= input.Length
      invariant output[length..] == old(output[length..]) && Whole(c[i..])
      invariant output[..i] + Decrypt(c[i..], w, At(input[..], previous)) == Decrypt(c, w, iv)
    {
      DecryptOne(output, input, io, i, length, w, previous, c, Decrypt(c, w, iv));
      previous, i := io + i, i + BLOCK;
    }
    NothingMore(c, w, At(input[..], previous));
  }
}
