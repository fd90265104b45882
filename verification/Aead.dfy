/** The authenticated cipher of section 2.8 of RFC 8439, made of ChaCha20 and Poly1305. */
module Aead {
  import opened Words
  import opened Wrappers
  import Poly1305Spec
  import Poly1305
  import ChaCha20Spec
  import ChaCha20

  // --- specification ---

  /** Zero bytes up to the next multiple of 16. */
  function Pad16(s: seq<u8>): seq<u8> { s + ZeroBytes((16 - |s| % 16) % 16) }

  function MacData(aad: seq<u8>, ciphertext: seq<u8>): seq<u8> {
    Pad16(aad) + Pad16(ciphertext) + LeBytes(|aad|, 8) + LeBytes(|ciphertext|, 8)
  }

  predicate Keyed(key: seq<u8>, nonce: seq<u8>) { |key| == 32 && |nonce| == 12 }

  /** The one-time key is the first half of keystream block 0. */
  function TagOf(key: seq<u8>, nonce: seq<u8>, aad: seq<u8>, ciphertext: seq<u8>): (tag: seq<u8>)
    requires Keyed(key, nonce)
    ensures |tag| == 16
  {
    Poly1305Spec.Mac(ChaCha20Spec.Block(key, nonce, 0)[..32], MacData(aad, ciphertext))
  }

  predicate InStream(content: seq<u8>) { 64 + |content| < ChaCha20Spec.STREAM_LENGTH }

  /** Content is combined with the keystream from block 1 on. */
  function Crypt(key: seq<u8>, nonce: seq<u8>, content: seq<u8>): seq<u8>
    requires Keyed(key, nonce) && InStream(content)
  {
    ChaCha20Spec.XorStream(key, nonce, 64, content)
  }

  datatype Sealed = Sealed(ciphertext: seq<u8>, tag: seq<u8>)

  function Seal(key: seq<u8>, nonce: seq<u8>, content: seq<u8>, aad: seq<u8>): Sealed
    requires Keyed(key, nonce) && InStream(content)
  {
    var ciphertext := Crypt(key, nonce, content);
    Sealed(ciphertext, TagOf(key, nonce, aad, ciphertext))
  }

  function Open(key: seq<u8>, nonce: seq<u8>, s: Sealed, aad: seq<u8>): Option<seq<u8>>
    requires Keyed(key, nonce) && InStream(s.ciphertext)
  {
    if s.tag == TagOf(key, nonce, aad, s.ciphertext) then Some(Crypt(key, nonce, s.ciphertext)) else None
  }

  /** Opening accepts exactly what sealing makes, and gives back what was sealed. */
  lemma OpenIffSealed(key: seq<u8>, nonce: seq<u8>, s: Sealed, content: seq<u8>, aad: seq<u8>)
    requires Keyed(key, nonce) && InStream(s.ciphertext) && InStream(content)
    ensures Open(key, nonce, s, aad) == Some(content) <==> s == Seal(key, nonce, content, aad)
  {
    hide TagOf, ChaCha20Spec.XorStream;
    ChaCha20Spec.XorStreamTwice(key, nonce, 64, content);
    ChaCha20Spec.XorStreamTwice(key, nonce, 64, s.ciphertext);
  }

  /** No content byte uses keystream bytes 0 to 63, which hold the one-time key: byte i is combined
      with stream byte 64 + i. */
  lemma ContentStream(key: seq<u8>, nonce: seq<u8>, content: seq<u8>, i: nat)
    requires Keyed(key, nonce) && InStream(content) && i < |content|
    ensures |Crypt(key, nonce, content)| == |content|
    ensures Crypt(key, nonce, content)[i]
      == ChaCha20Spec.Xor8(content[i], ChaCha20Spec.Block(key, nonce, 1 + i / 64)[i % 64])
  {
    hide ChaCha20Spec.Block, ChaCha20Spec.Xor8;
  }

  /** What the tag covers, by position: both texts at multiples of 16, and in the last sixteen bytes
      the length of the associated data before that of the ciphertext. */
  lemma MacDataLayout(aad: seq<u8>, ciphertext: seq<u8>)
    requires |aad| < 0x1_0000_0000_0000_0000 && |ciphertext| < 0x1_0000_0000_0000_0000
    ensures var d, start, end := MacData(aad, ciphertext), (|aad| + 15) / 16 * 16, |MacData(aad, ciphertext)| - 16;
      && end == start + (|ciphertext| + 15) / 16 * 16
      && d[..|aad|] == aad && (forall k :: |aad| <= k < start ==> d[k] == 0)
      && d[start..start + |ciphertext|] == ciphertext && (forall k :: start + |ciphertext| <= k < end ==> d[k] == 0)
      && LeNat(d[end..end + 8]) == |aad| && LeNat(d[end + 8..]) == |ciphertext|
  {
    hide LeBytes, LeNat;
    var d, a, c := MacData(aad, ciphertext), Pad16(aad), Pad16(ciphertext);
    Padded(aad);
    Padded(ciphertext);
    EightBytes(|aad|);
    EightBytes(|ciphertext|);
    var end := |d| - 16;
    assert d[end..end + 8] == LeBytes(|aad|, 8) && d[end + 8..] == LeBytes(|ciphertext|, 8);
    assert d[..|a|] == a && d[|a|..|a| + |c|] == c;
    assert d[|a|..|a| + |ciphertext|] == c[..|ciphertext|];
    assert forall k :: |a| + |ciphertext| <= k < end ==> d[k] == c[k - |a|];
    assert d[..|aad|] == a[..|aad|];
  }

  lemma Padded(s: seq<u8>)
    ensures |Pad16(s)| == (|s| + 15) / 16 * 16 && Pad16(s)[..|s|] == s
    ensures forall k :: |s| <= k < |Pad16(s)| ==> Pad16(s)[k] == 0
  {}

  lemma EightBytes(n: nat)
    requires n < 0x1_0000_0000_0000_0000
    ensures LeNat(LeBytes(n, 8)) == n
  {
    hide LeBytes, LeNat, Pow;
    LeNatOfBytes(n, 8);
    Pow256Values();
  }

  // --- the operations ---

  /** Compares without an early exit. */
  method ConstantTimeEq(a: seq<u8>, b: seq<u8>) returns (equal: bool)
    requires |a| == |b|
    ensures equal <==> a == b
  {
    hide Or, Xor;
    var res: u8 := 0;
    for i := 0 to |a|
      invariant res == 0 <==> a[..i] == b[..i]
    {
      EqStep(res, a[i], b[i]);
      assert a[..i + 1] == a[..i] + [a[i]] && b[..i + 1] == b[..i] + [b[i]];
      res := Or(res, Xor(a[i], b[i]));
    }
    assert a[..|a|] == a && b[..|b|] == b;
    return res == 0;
  }

  lemma EqStep(res: u8, x: u8, y: u8)
    ensures Or(res, Xor(x, y)) < 0x100
    ensures Or(res, Xor(x, y)) == 0 <==> res == 0 && x == y
  {
    hide Or, Xor, Pow2;
    Pow2Values();
    XorBound(x, y, 8);
    OrBound(res, Xor(x, y), 8);
    OrZero(res, Xor(x, y));
    XorZero(x, y);
  }

  function EncodeLengths(aadLen: nat, contentLen: nat): seq<u8> { LeBytes(aadLen, 8) + LeBytes(contentLen, 8) }

  /** Feeds a slice and the zeros that align it. */
  method InputPadded(poly: Poly1305.Poly1305, s: seq<u8>)
    requires poly.Valid()
    modifies poly, poly.acc, poly.leftovers
    ensures poly.Valid() && poly.Absorbed() == old(poly.Absorbed()) + Pad16(s)
  {
    hide Poly1305.Poly1305.Valid;
    poly.Input(s);
    var overflow := |s| % 16;
    if overflow > 0 {
      poly.Input(ZeroBytes(16 - overflow));
    }
  }

  datatype ChaCha20Poly1305 = ChaCha20Poly1305(key: seq<u8>, nonce: seq<u8>) {
    /** The tag of a ciphertext, computed by streaming it through Poly1305. */
    method Authenticate(polyKey: seq<u8>, content: seq<u8>, aad: seq<u8>) returns (tag: seq<u8>)
      requires Keyed(key, nonce) && polyKey == ChaCha20Spec.Block(key, nonce, 0)[..32]
      ensures tag == TagOf(key, nonce, aad, content)
    {
      hide ChaCha20Spec.Block, Poly1305Spec.Mac, Pad16, Poly1305.Poly1305.Valid;
      var poly := new Poly1305.Poly1305(polyKey);
      InputPadded(poly, aad);
      InputPadded(poly, content);
      poly.Input(EncodeLengths(|aad|, |content|));
      assert poly.Absorbed() == MacData(aad, content);
      var digest := poly.Tag();
      return digest[..];
    }

    /** Encrypts in place and returns the tag. */
    method Encrypt(content: array<u8>, aad: Option<seq<u8>>) returns (tag: seq<u8>)
      requires Keyed(key, nonce) && InStream(content[..])
      modifies content
      ensures Sealed(content[..], tag) == Seal(key, nonce, old(content[..]), UnwrapOrEmpty(aad))
      ensures aad.Some? ==> Sealed(content[..], tag) == Seal(key, nonce, old(content[..]), aad.value)
      ensures aad.None? ==> Sealed(content[..], tag) == Seal(key, nonce, old(content[..]), [])
    {
      hide ChaCha20Spec.Block, ChaCha20Spec.XorStream;
      var chacha := new ChaCha20.ChaCha20.FromBlock(key, nonce, 1);
      chacha.ApplyKeystream(content);
      var keystream := chacha.KeystreamAtBlock(0);
      tag := Authenticate(keystream[..32], content[..], UnwrapOrEmpty(aad));
    }

    /** Decrypts in place when the tag is right, and leaves the buffer alone when it is not. */
    method Decrypt(content: array<u8>, tag: seq<u8>, aad: Option<seq<u8>>) returns (ok: bool)
      requires Keyed(key, nonce) && |tag| == 16
      requires tag == TagOf(key, nonce, UnwrapOrEmpty(aad), content[..]) ==> InStream(content[..])
      modifies content
      ensures ok <==> tag == TagOf(key, nonce, UnwrapOrEmpty(aad), old(content[..]))
      ensures ok ==> Open(key, nonce, Sealed(old(content[..]), tag), UnwrapOrEmpty(aad)) == Some(content[..])
      ensures !ok ==> content[..] == old(content[..])
      ensures aad.Some? ==> (ok <==> tag == TagOf(key, nonce, aad.value, old(content[..])))
      ensures aad.None? ==> (ok <==> tag == TagOf(key, nonce, [], old(content[..])))
    {
      hide ChaCha20Spec.Block, ChaCha20Spec.XorStream, TagOf;
      var chacha0 := new ChaCha20.ChaCha20.FromBlock(key, nonce, 0);
      var keystream := chacha0.KeystreamAtBlock(0);
      var derivedTag := Authenticate(keystream[..32], content[..], UnwrapOrEmpty(aad));
      ok := ConstantTimeEq(derivedTag, tag);
      if ok {
        var chacha := new ChaCha20.ChaCha20.FromBlock(key, nonce, 1);
        chacha.ApplyKeystream(content);
      }
    }

    /** Encrypting and then decrypting with the returned tag succeeds and restores the content. */
    method RoundTrip(content: array<u8>, aad: Option<seq<u8>>) returns (ok: bool)
      requires Keyed(key, nonce) && InStream(content[..])
      modifies content
      ensures ok && content[..] == old(content[..])
    {
      hide ChaCha20Spec.Block, ChaCha20Spec.XorStream, TagOf;
      var tag := Encrypt(content, aad);
      OpenIffSealed(key, nonce, Sealed(content[..], tag), old(content[..]), UnwrapOrEmpty(aad));
      ok := Decrypt(content, tag, aad);
    }
  }

  function UnwrapOrEmpty(s: Option<seq<u8>>): seq<u8> { if s.Some? then s.value else [] }
}
