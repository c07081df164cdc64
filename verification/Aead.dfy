/** tl_encrypt, tl_decrypt and tl_make_nonce of crypto_pipe.h. */
module Aead {
  import opened Options
  import opened Bytes
  import opened ChaCha20
  import opened Poly1305

  const TAG_SIZE := 16

  function PolyKey(key: Bytes, nonce: Bytes): (k: Bytes)
    requires |key| == 32 && |nonce| == 12
    ensures |k| == 64
  {
    XorStream(Zeros(64), key, nonce, 0)
  }

  function Encrypt(pt: Bytes, key: Bytes, nonce: Bytes): (ct: Bytes)
    requires |key| == 32 && |nonce| == 12
    ensures |ct| == |pt| + TAG_SIZE
  {
    var body := XorStream(pt, key, nonce, 1);
    body + Tag(body, PolyKey(key, nonce))
  }

  /** None is the source's -1. */
  function Decrypt(ct: Bytes, key: Bytes, nonce: Bytes): Option<Bytes>
    requires |key| == 32 && |nonce| == 12
  {
    if |ct| < TAG_SIZE then None
    else
      var body := ct[..|ct| - TAG_SIZE];
      if Tag(body, PolyKey(key, nonce)) != ct[|body|..] then None
      else Some(XorStream(body, key, nonce, 1))
  }

  /** Decryption accepts exactly the encryptions, and returns what was encrypted. */
  lemma DecryptExact(ct: Bytes, pt: Bytes, key: Bytes, nonce: Bytes)
    requires |key| == 32 && |nonce| == 12
    ensures Decrypt(ct, key, nonce) == Some(pt) <==> ct == Encrypt(pt, key, nonce)
  {
    hide XorStream, Tag, PolyKey;
    if ct == Encrypt(pt, key, nonce) {
      var body := XorStream(pt, key, nonce, 1);
      assert ct[..|ct| - TAG_SIZE] == body;
      assert ct[|body|..] == Tag(body, PolyKey(key, nonce));
      XorStreamInvolution(pt, key, nonce, 1);
    }
    if Decrypt(ct, key, nonce) == Some(pt) {
      var body := ct[..|ct| - TAG_SIZE];
      XorStreamInvolution(body, key, nonce, 1);
      assert ct == body + ct[|body|..];
    }
  }

  /** One stream from block 0 on gives everything: its first 64 bytes hold the MAC key, and
      the rest is the ciphertext, followed by the tag over it. */
  lemma OneStream(pt: Bytes, key: Bytes, nonce: Bytes)
    requires |key| == 32 && |nonce| == 12
    ensures var s := XorStream(Zeros(64) + pt, key, nonce, 0);
      Encrypt(pt, key, nonce) == s[64..] + Tag(s[64..], s[..64])
  {
    hide XorStream, Tag;
    var inp := Zeros(64) + pt;
    assert inp[..64 * 1] == Zeros(64) && inp[64 * 1..] == pt;
    XorStreamSplit(inp, 1, key, nonce, 0);
    FirstBlock();
    var s := XorStream(inp, key, nonce, 0);
    assert s[..64] == PolyKey(key, nonce) && s[64..] == XorStream(pt, key, nonce, 1);
  }

  lemma FirstBlock()
    ensures Advance(0, 1) == 1
  {
    assert Advance(0, 1) == Advance(0, 0) + 1;
  }

  // ---------- the methods ----------

  lemma OrXorZero(diff: bv8, a: bv8, b: bv8)
    ensures diff | (a ^ b) == 0 <==> diff == 0 && a == b
  {}

  /** The OR-accumulated comparison of the tags. */
  method CompareTags(computed: Bytes, ct: Bytes, at: nat) returns (diff: bv8)
    requires |computed| == TAG_SIZE && at + TAG_SIZE <= |ct|
    ensures diff == 0 <==> computed == ct[at..at + TAG_SIZE]
  {
    diff := 0;
    for i := 0 to TAG_SIZE
      invariant diff == 0 <==> forall j :: 0 <= j < i ==> computed[j] == ct[at + j]
    {
      OrXorZero(diff, computed[i], ct[at + i]);
      diff := diff | (computed[i] ^ ct[at + i]);
    }
    if diff == 0 {
      assert computed == ct[at..at + TAG_SIZE];
    } else {
      var j :| 0 <= j < TAG_SIZE && computed[j] != ct[at + j];
      assert computed[j] != ct[at..at + TAG_SIZE][j];
    }
  }

  method MakePolyKey(key: Bytes, nonce: Bytes) returns (polyKey: Bytes)
    requires |key| == 32 && |nonce| == 12
    ensures polyKey == PolyKey(key, nonce)
  {
    hide XorStream;
    var buffer := new bv8[64];
    ChachaXor(buffer, Zeros(64), key, nonce, 0);
    polyKey := buffer[..64];
  }

  /** tl_encrypt. */
  method TlEncrypt(ct: array<bv8>, pt: Bytes, key: Bytes, nonce: Bytes) returns (n: nat)
    requires |key| == 32 && |nonce| == 12 && ct.Length >= |pt| + TAG_SIZE
    modifies ct
    ensures n == |pt| + TAG_SIZE && ct[..n] == Encrypt(pt, key, nonce)
    ensures forall i :: n <= i < ct.Length ==> ct[i] == old(ct[i])
  {
    hide XorStream, Tag, PolyKey;
    var polyKey := MakePolyKey(key, nonce);
    ChachaXor(ct, pt, key, nonce, 1);
    ghost var body := ct[..|pt|];
    Poly1305Auth(ct, |pt|, ct[..|pt|], polyKey);
    n := |pt| + TAG_SIZE;
    assert ct[..|pt|] == body;
    assert ct[..n] == ct[..|pt|] + ct[|pt|..n];
  }

  /** tl_decrypt; -1 when the input is too short or the tag does not match. */
  method TlDecrypt(pt: array<bv8>, ct: Bytes, key: Bytes, nonce: Bytes) returns (n: int)
    requires |key| == 32 && |nonce| == 12 && pt.Length + TAG_SIZE >= |ct|
    modifies pt
    ensures n == -1 || 0 <= n <= pt.Length
    ensures Decrypt(ct, key, nonce) == if n == -1 then None else Some(pt[..n])
    ensures n == -1 ==> pt[..] == old(pt[..])
  {
    hide XorStream, Tag, PolyKey;
    if |ct| < TAG_SIZE {
      return -1;
    }
    var ptLen := |ct| - TAG_SIZE;
    var polyKey := MakePolyKey(key, nonce);
    var computed := new bv8[TAG_SIZE];
    Poly1305Auth(computed, 0, ct[..ptLen], polyKey);
    var diff := CompareTags(computed[0..0 + TAG_SIZE], ct, ptLen);
    assert ct[ptLen..ptLen + TAG_SIZE] == ct[ptLen..];
    if diff != 0 {
      return -1;
    }
    ChachaXor(pt, ct[..ptLen], key, nonce, 1);
    n := ptLen;
  }

  // ---------- nonces ----------

  function Nonce(counter: nat): (n: Bytes)
    ensures |n| == 12
  {
    Zeros(4) + StoreLE(counter, 8)
  }

  /** tl_make_nonce. */
  method TlMakeNonce(nonce: array<bv8>, counter: nat)
    requires nonce.Length == 12
    modifies nonce
    ensures nonce[..] == Nonce(counter)
  {
    forall i | 0 <= i < 4 {
      nonce[i] := 0;
    }
    CopyInto(nonce, 4, StoreLE(counter, 8));
    assert nonce[..] == nonce[..4] + nonce[4..4 + 8];
  }

  /** A nonce is four zero bytes and the counter, least significant byte first. */
  lemma NonceLayout(counter: nat)
    requires counter < Pow256(8)
    ensures Nonce(counter)[..4] == [0, 0, 0, 0] && LoadLE(Nonce(counter)[4..]) == counter
  {
    hide StoreLE, LoadLE, Pow256;
    assert Nonce(counter)[4..] == StoreLE(counter, 8);
    LoadStore(counter, 8);
  }

  /** Different 64-bit counters give different nonces. */
  lemma NonceInjective(a: nat, b: nat)
    requires a < Pow256(8) && b < Pow256(8)
    ensures Nonce(a) == Nonce(b) <==> a == b
  {
    hide StoreLE, LoadLE, Pow256;
    assert Nonce(a)[4..] == StoreLE(a, 8) && Nonce(b)[4..] == StoreLE(b, 8);
    LoadStore(a, 8);
    LoadStore(b, 8);
  }
}
