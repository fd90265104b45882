/** Hierarchical deterministic keys: child derivation along paths, and the 78-byte encoding. */
module Bip32 {
  import opened Words
  import opened Wrappers

  type Bytes4 = s: seq<u8> | |s| == 4 witness [0, 0, 0, 0]
  type Bytes20 = s: seq<u8> | |s| == 20 witness seq(20, i => 0)
  type Bytes32 = s: seq<u8> | |s| == 32 witness seq(32, i => 0)
  type Bytes33 = s: seq<u8> | |s| == 33 witness seq(33, i => 0)
  type Bytes64 = s: seq<u8> | |s| == 64 witness seq(64, i => 0)

  /** The curve and the hashes, of which nothing is known but what the predicates below say.
      `S` are secret keys and `P` are public keys. */
  datatype Crypto<!S, !P> = Crypto(
    hmac: (seq<u8>, seq<u8>) -> Bytes64,
    hash160: seq<u8> -> Bytes20,
    fromSecretBytes: Bytes32 -> Option<S>,
    secretBytes: S -> Bytes32,
    addTweak: (S, S) -> Option<S>,
    publicKey: S -> P,
    addExpTweak: (P, S) -> Option<P>,
    serialize: P -> Bytes33,
    fromSlice: Bytes33 -> Option<P>
  )

  /** Deriving a public key is a homomorphism: tweaking before or after it is the same. */
  ghost predicate Homomorphic<S(!new), P(!new)>(c: Crypto<S, P>) {
    forall t: S, k: S :: c.addExpTweak(c.publicKey(k), t)
      == match c.addTweak(t, k) { case None => None case Some(s) => Some(c.publicKey(s)) }
  }

  /** Serialised keys read back. */
  ghost predicate Readable<S(!new), P(!new)>(c: Crypto<S, P>) {
    && (forall s: S :: c.fromSecretBytes(c.secretBytes(s)) == Some(s))
    && (forall p: P :: c.fromSlice(c.serialize(p)) == Some(p))
  }

  /** Every key has one serialisation only. */
  ghost predicate UniquelySerialized<S(!new), P(!new)>(c: Crypto<S, P>) {
    && (forall b: Bytes32 :: c.fromSecretBytes(b).Some? ==> c.secretBytes(c.fromSecretBytes(b).value) == b)
    && (forall b: Bytes33 :: c.fromSlice(b).Some? ==> c.serialize(c.fromSlice(b).value) == b)
  }

  datatype Network = Main | Test

  // --- child numbers ---

  const HARDENED_FLAG: u32 := 0x8000_0000
  const MAX_CHILD_INDEX: u32 := 0x7fff_ffff

  datatype IndexOutOfRange = IndexOutOfRange(index: u32)

  datatype ChildNumber = ChildNumber(raw: u32) {
    function Index(): nat { And(raw, MAX_CHILD_INDEX) }

    predicate IsHardened() { And(raw, HARDENED_FLAG) != 0 }

    predicate IsNormal() { !IsHardened() }

    static function FromNormalIdx(index: u32): Result<ChildNumber, IndexOutOfRange> {
      if index <= MAX_CHILD_INDEX then Ok(ChildNumber(index)) else Err(IndexOutOfRange(index))
    }

    static function FromHardenedIdx(index: u32): Result<ChildNumber, IndexOutOfRange> {
      if index <= MAX_CHILD_INDEX then
        FlagBits(index);
        Ok(ChildNumber(Or(index, HARDENED_FLAG)))
      else Err(IndexOutOfRange(index))
    }

    function Increment(): Result<ChildNumber, IndexOutOfRange> {
      ChildBits(raw);
      var next := Index() + 1;
      if IsHardened() then FromHardenedIdx(next) else FromNormalIdx(next)
    }
  }

  /** The low 31 bits are the index and the top bit is the flag. */
  lemma ChildBits(raw: u32)
    ensures And(raw, MAX_CHILD_INDEX) == raw % 0x8000_0000
    ensures And(raw, HARDENED_FLAG) != 0 <==> raw >= 0x8000_0000
  {
    hide And;
    Powers31();
    AndOnes(raw, 31);
    AndTwoFields(raw, 0, 31, 1);
  }

  lemma Powers31()
    ensures Pow2(31) == 0x8000_0000 && Pow2(0) == 1 && Pow2(1) == 2
  {
    Pow2Values();
    hide Pow2;
    Pow2Zero();
    Pow2Add(24, 7);
  }

  lemma Pow2Zero()
    ensures Pow2(0) == 1 && Pow2(1) == 2
  {}

  lemma FlagBits(index: u32)
    requires index <= MAX_CHILD_INDEX
    ensures Or(index, HARDENED_FLAG) == index + 0x8000_0000 < 0x1_0000_0000
  {
    hide Or;
    Powers31();
    OrFields(index, 1, 31);
  }

  /** Incrementing adds one and never crosses from normal to hardened numbers or past either range. */
  lemma IncrementCorrect(n: ChildNumber)
    ensures n.Increment() ==
      if n.raw % 0x8000_0000 == 0x7fff_ffff then Err(IndexOutOfRange(0x8000_0000)) else Ok(ChildNumber(Successor(n.raw)))
    ensures n.Increment().Ok? ==> n.Increment().value.IsHardened() == n.IsHardened()
  {
    hide And, Or;
    ChildBits(n.raw);
    if n.raw % 0x8000_0000 != 0x7fff_ffff {
      FlagBits(n.raw % 0x8000_0000 + 1);
      ChildBits(Successor(n.raw));
    }
  }

  function Successor(raw: int): u32
    requires 0 <= raw && raw % 0x8000_0000 != 0x7fff_ffff && raw < 0x1_0000_0000
  {
    raw + 1
  }

  // --- keys ---

  datatype Xpriv<S> = Xpriv(network: Network, depth: u8, parentFingerprint: Bytes4, childNumber: ChildNumber,
                            privateKey: S, chainCode: Bytes32)

  datatype Xpub<P> = Xpub(network: Network, depth: u8, parentFingerprint: Bytes4, childNumber: ChildNumber,
                          publicKey: P, chainCode: Bytes32)

  /** What derivation can end with instead of a key. The source unwraps two steps that it calls
      statistically impossible to fail; the model keeps the panic as an outcome. */
  datatype DeriveError = MaximumDepthExceeded | CannotDeriveHardenedChild | Panic

  function FromXpriv<S, P>(c: Crypto<S, P>, k: Xpriv<S>): Xpub<P> {
    Xpub(k.network, k.depth, k.parentFingerprint, k.childNumber, c.publicKey(k.privateKey), k.chainCode)
  }

  function Fingerprint<S, P>(c: Crypto<S, P>, p: P): Bytes4 { c.hash160(c.serialize(p))[..4] }

  function Left(h: Bytes64): Bytes32 { h[..32] }

  function Right(h: Bytes64): Bytes32 { h[32..] }

  /** The four big-endian bytes of a word. */
  function BeBytes(x: nat): Bytes4 {
    [x / 0x100_0000 % 0x100, x / 0x1_0000 % 0x100, x / 0x100 % 0x100, x % 0x100]
  }

  function FromBeBytes(b: Bytes4): u32 { FromBe(b[0], b[1], b[2], b[3]) }

  function FromBe(a: int, b: int, c: int, d: int): u32
    requires 0 <= a < 0x100 && 0 <= b < 0x100 && 0 <= c < 0x100 && 0 <= d < 0x100
  {
    0x100_0000 * a + 0x1_0000 * b + 0x100 * c + d
  }

  lemma BeInverse(x: u32, b: Bytes4)
    ensures FromBeBytes(BeBytes(x)) == x && BeBytes(FromBeBytes(b)) == b
  {
    FourDigits(x);
    FourBytes(b[0], b[1], b[2], b[3]);
  }

  lemma FourDigits(x: int)
    requires 0 <= x < 0x1_0000_0000
    ensures FromBe(x / 0x100_0000 % 0x100, x / 0x1_0000 % 0x100, x / 0x100 % 0x100, x % 0x100) == x
  {
    assert x / 0x1_0000 == x / 0x100 / 0x100 && x / 0x100_0000 == x / 0x1_0000 / 0x100;
  }

  lemma FourBytes(a: int, b: int, c: int, d: int)
    requires 0 <= a < 0x100 && 0 <= b < 0x100 && 0 <= c < 0x100 && 0 <= d < 0x100
    ensures var x := FromBe(a, b, c, d);
      x / 0x100_0000 % 0x100 == a && x / 0x1_0000 % 0x100 == b && x / 0x100 % 0x100 == c && x % 0x100 == d
  {
    var x := FromBe(a, b, c, d);
    DivModUnique(x, 0x100, 0x1_0000 * a + 0x100 * b + c, d);
    DivModUnique(x, 0x1_0000, 0x100 * a + b, 0x100 * c + d);
    DivModUnique(x, 0x100_0000, a, 0x1_0000 * b + 0x100 * c + d);
  }

  function NextDepth(depth: int): Option<u8>
    requires 0 <= depth < 0x100
  {
    if depth == 255 then None else Some(depth + 1)
  }

  function CkdPriv<S, P>(c: Crypto<S, P>, k: Xpriv<S>, i: ChildNumber): Result<Xpriv<S>, DeriveError> {
    var data := if i.IsNormal() then c.serialize(c.publicKey(k.privateKey)) else [0] + c.secretBytes(k.privateKey);
    var hmac := c.hmac(k.chainCode, data + BeBytes(i.raw));
    match c.fromSecretBytes(Left(hmac))
    case None => Err(Panic)
    case Some(sk) =>
      match c.addTweak(sk, k.privateKey)
      case None => Err(Panic)
      case Some(tweaked) =>
        match NextDepth(k.depth)
        case None => Err(MaximumDepthExceeded)
        case Some(depth) =>
          Ok(Xpriv(k.network, depth, Fingerprint(c, FromXpriv(c, k).publicKey), i, tweaked, Right(hmac)))
  }

  function CkdPub<S, P>(c: Crypto<S, P>, k: Xpub<P>, i: ChildNumber): Result<Xpub<P>, DeriveError> {
    if i.IsHardened() then Err(CannotDeriveHardenedChild)
    else
      var hmac := c.hmac(k.chainCode, c.serialize(k.publicKey) + BeBytes(i.Index()));
      match c.fromSecretBytes(Left(hmac))
      case None => Err(Panic)
      case Some(sk) =>
        match c.addExpTweak(k.publicKey, sk)
        case None => Err(Panic)
        case Some(tweaked) =>
          match NextDepth(k.depth)
          case None => Err(MaximumDepthExceeded)
          case Some(depth) => Ok(Xpub(k.network, depth, Fingerprint(c, k.publicKey), i, tweaked, Right(hmac)))
  }

  // --- runs along a path ---

  type Path = seq<ChildNumber>

  function DerivedPriv<S, P>(c: Crypto<S, P>, k: Xpriv<S>, path: Path): Result<Xpriv<S>, DeriveError>
    decreases |path|
  {
    if path == [] then Ok(k)
    else
      match CkdPriv(c, k, path[0])
      case Err(e) => Err(e)
      case Ok(child) => DerivedPriv(c, child, path[1..])
  }

  function DerivedPub<S, P>(c: Crypto<S, P>, k: Xpub<P>, path: Path): Result<Xpub<P>, DeriveError>
    decreases |path|
  {
    if path == [] then Ok(k)
    else
      match CkdPub(c, k, path[0])
      case Err(e) => Err(e)
      case Ok(child) => DerivedPub(c, child, path[1..])
  }

  method DeriveXpriv<S, P>(c: Crypto<S, P>, k: Xpriv<S>, path: Path) returns (r: Result<Xpriv<S>, DeriveError>)
    ensures r == DerivedPriv(c, k, path)
  {
    hide CkdPriv;
    var sk := k;
    assert path[0..] == path;
    for i := 0 to |path|
      invariant DerivedPriv(c, sk, path[i..]) == DerivedPriv(c, k, path)
    {
      assert path[i..][0] == path[i] && path[i..][1..] == path[i + 1..];
      var next := CkdPriv(c, sk, path[i]);
      if next.Err? { return next; }
      sk := next.value;
    }
    return Ok(sk);
  }

  method DeriveXpub<S, P>(c: Crypto<S, P>, k: Xpub<P>, path: Path) returns (r: Result<Xpub<P>, DeriveError>)
    ensures r == DerivedPub(c, k, path)
  {
    hide CkdPub;
    var pk := k;
    assert path[0..] == path;
    for i := 0 to |path|
      invariant DerivedPub(c, pk, path[i..]) == DerivedPub(c, k, path)
    {
      assert path[i..][0] == path[i] && path[i..][1..] == path[i + 1..];
      var next := CkdPub(c, pk, path[i]);
      if next.Err? { return next; }
      pk := next.value;
    }
    return Ok(pk);
  }

  /** A private child as BIP-32 defines it. The HMAC is keyed with the chain code and covers a zero
      byte and the secret key from index 2^31 on, the serialised public key below it, and then the
      child number, most significant byte first. Its left half is the tweak, its right half the chain
      code. The fingerprint is the front of the hash of the parent's public key. */
  lemma PrivChildOfBip32<S, P>(c: Crypto<S, P>, k: Xpriv<S>, i: ChildNumber)
    ensures var n, r := i.raw, DerivedPriv(c, k, [i]);
      var number := [n / 0x100_0000, n / 0x1_0000 % 0x100, n / 0x100 % 0x100, n % 0x100];
      var data := if n >= 0x8000_0000 then [0] + c.secretBytes(k.privateKey) + number
                  else c.serialize(c.publicKey(k.privateKey)) + number;
      var hmac := c.hmac(k.chainCode, data);
      r.Ok? ==>
        && c.fromSecretBytes(hmac[..32]).Some?
        && c.addTweak(c.fromSecretBytes(hmac[..32]).value, k.privateKey) == Some(r.value.privateKey)
        && r.value.chainCode == hmac[32..]
        && r.value.parentFingerprint == c.hash160(c.serialize(c.publicKey(k.privateKey)))[..4]
        && r.value.childNumber.raw == n && r.value.depth == k.depth as int + 1 && r.value.network == k.network
  {
    hide And;
    ChildBits(i.raw);
    NumberBytes(i.raw);
    assert [i][1..] == [];
  }

  lemma NumberBytes(n: u32)
    ensures BeBytes(n) == [n / 0x100_0000, n / 0x1_0000 % 0x100, n / 0x100 % 0x100, n % 0x100]
  {}

  /** A public child: refused from index 2^31 on, and otherwise from the same HMAC. */
  lemma PubChildOfBip32<S, P>(c: Crypto<S, P>, k: Xpub<P>, i: ChildNumber)
    ensures var n, r := i.raw, DerivedPub(c, k, [i]);
      var number := [n / 0x100_0000, n / 0x1_0000 % 0x100, n / 0x100 % 0x100, n % 0x100];
      var hmac := c.hmac(k.chainCode, c.serialize(k.publicKey) + number);
      && (n >= 0x8000_0000 ==> r == Err(CannotDeriveHardenedChild))
      && (r.Ok? ==>
        && c.fromSecretBytes(hmac[..32]).Some?
        && c.addExpTweak(k.publicKey, c.fromSecretBytes(hmac[..32]).value) == Some(r.value.publicKey)
        && r.value.chainCode == hmac[32..]
        && r.value.parentFingerprint == c.hash160(c.serialize(k.publicKey))[..4]
        && r.value.childNumber.raw == n && r.value.depth == k.depth as int + 1 && r.value.network == k.network)
  {
    hide And;
    ChildBits(i.raw);
    NumberBytes(i.raw);
    assert [i][1..] == [];
  }

  predicate HardenedFree(path: Path) { forall i :: 0 <= i < |path| ==> path[i].IsNormal() }

  function Neutered<S, P>(c: Crypto<S, P>, r: Result<Xpriv<S>, DeriveError>): Result<Xpub<P>, DeriveError> {
    match r
    case Err(e) => Err(e)
    case Ok(k) => Ok(FromXpriv(c, k))
  }

  lemma NeuterStep<S(!new), P(!new)>(c: Crypto<S, P>, k: Xpriv<S>, i: ChildNumber)
    requires Homomorphic(c) && i.IsNormal()
    ensures CkdPub(c, FromXpriv(c, k), i) == Neutered(c, CkdPriv(c, k, i))
  {
    hide And, BeBytes, NextDepth, Fingerprint;
    ChildBits(i.raw);
    var hmac := c.hmac(k.chainCode, c.serialize(c.publicKey(k.privateKey)) + BeBytes(i.raw));
    var left := c.fromSecretBytes(Left(hmac));
    if left.Some? {
      assert c.addExpTweak(c.publicKey(k.privateKey), left.value)
        == match c.addTweak(left.value, k.privateKey) { case None => None case Some(s) => Some(c.publicKey(s)) };
    }
  }

  /** Along a path without hardened steps, deriving privately and then neutering is neutering and then
      deriving publicly: the same key, or the same failure. */
  lemma {:induction false} NeuterCommutes<S(!new), P(!new)>(c: Crypto<S, P>, k: Xpriv<S>, path: Path)
    requires Homomorphic(c) && HardenedFree(path)
    ensures DerivedPub(c, FromXpriv(c, k), path) == Neutered(c, DerivedPriv(c, k, path))
    decreases |path|
  {
    hide CkdPriv, CkdPub, Homomorphic;
    if path != [] {
      NeuterStep(c, k, path[0]);
      var child := CkdPriv(c, k, path[0]);
      assert path[0] in path;
      assert forall i :: 0 <= i < |path[1..]| ==> path[1..][i] == path[i + 1];
      if child.Ok? { NeuterCommutes(c, child.value, path[1..]); }
    }
  }

  /** Unless it panics, private derivation succeeds exactly when the depth stays within 255. */
  lemma {:induction false} PrivSucceeds<S, P>(c: Crypto<S, P>, k: Xpriv<S>, path: Path)
    ensures var r := DerivedPriv(c, k, path);
      && (r.Err? ==> r.error != CannotDeriveHardenedChild)
      && (r == Err(Panic) || (r.Ok? <==> k.depth + |path| <= 255))
      && (r.Ok? ==> r.value.depth == k.depth + |path| && r.value.network == k.network)
    decreases |path|
  {
    if path != [] {
      var child := CkdPriv(c, k, path[0]);
      if child.Ok? { PrivSucceeds(c, child.value, path[1..]); }
    }
  }

  /** Unless it panics, public derivation succeeds exactly when moreover no step is hardened. */
  lemma {:induction false} PubSucceeds<S, P>(c: Crypto<S, P>, k: Xpub<P>, path: Path)
    ensures var r := DerivedPub(c, k, path);
      && (r == Err(Panic) || (r.Ok? <==> k.depth + |path| <= 255 && HardenedFree(path)))
      && (r.Ok? ==> r.value.depth == k.depth + |path| && r.value.network == k.network)
    decreases |path|
  {
    if path != [] {
      var child := CkdPub(c, k, path[0]);
      HardenedFreeCons(path);
      if child.Ok? { PubSucceeds(c, child.value, path[1..]); }
    }
  }

  lemma HardenedFreeCons(path: Path)
    requires path != []
    ensures HardenedFree(path) <==> path[0].IsNormal() && HardenedFree(path[1..])
  {
    assert forall i :: 0 < i < |path| ==> path[i] == path[1..][i - 1];
    assert forall i :: 0 <= i < |path[1..]| ==> path[1..][i] == path[i + 1];
  }

  /** Deriving along a joined path is deriving in two stages. */
  lemma {:induction false} JoinIsTwoStages<S, P>(c: Crypto<S, P>, k: Xpriv<S>, pub: Xpub<P>, a: Path, b: Path)
    ensures DerivedPriv(c, k, a + b) ==
      match DerivedPriv(c, k, a) { case Err(e) => Err(e) case Ok(mid) => DerivedPriv(c, mid, b) }
    ensures DerivedPub(c, pub, a + b) ==
      match DerivedPub(c, pub, a) { case Err(e) => Err(e) case Ok(mid) => DerivedPub(c, mid, b) }
    decreases |a|
  {
    hide CkdPriv, CkdPub;
    if a == [] {
      assert a + b == b;
    } else {
      assert (a + b)[0] == a[0] && (a + b)[1..] == a[1..] + b;
      var child, pubChild := CkdPriv(c, k, a[0]), CkdPub(c, pub, a[0]);
      JoinIsTwoStages(c, if child.Ok? then child.value else k, if pubChild.Ok? then pubChild.value else pub, a[1..], b);
    }
  }

  // --- the 78-byte encoding ---

  type Version = Bytes4

  function PublicVersion(n: Network): Version {
    if n == Main then [0x04, 0x88, 0xB2, 0x1E] else [0x04, 0x35, 0x87, 0xCF]
  }

  function PrivateVersion(n: Network): Version {
    if n == Main then [0x04, 0x88, 0xAD, 0xE4] else [0x04, 0x35, 0x83, 0x94]
  }

  function Joined(version: Version, depth: u8, fingerprint: Bytes4, child: u32, chain: Bytes32, key: Bytes33): (d: seq<u8>)
    ensures |d| == 78
  {
    version + [depth] + fingerprint + BeBytes(child) + chain + key
  }

  function EncodePriv<S, P>(c: Crypto<S, P>, k: Xpriv<S>): seq<u8> {
    Joined(PrivateVersion(k.network), k.depth, k.parentFingerprint, k.childNumber.raw, k.chainCode,
           [0] + c.secretBytes(k.privateKey))
  }

  function EncodePub<S, P>(c: Crypto<S, P>, k: Xpub<P>): seq<u8> {
    Joined(PublicVersion(k.network), k.depth, k.parentFingerprint, k.childNumber.raw, k.chainCode,
           c.serialize(k.publicKey))
  }

  datatype DecodeError =
    | WrongExtendedKeyLength(length: nat)
    | NonZeroParentFingerprintForMasterKey
    | NonZeroChildNumberForMasterKey
    | UnknownVersion(version: Version)
    | InvalidPrivateKeyPrefix
    | Secp256k1

  datatype Common = Common(version: Version, depth: u8, parentFingerprint: Bytes4, childNumber: u32,
                           chainCode: Bytes32, key: Bytes33)

  function DecodeCommon(data: seq<u8>): Result<Common, DecodeError> {
    if |data| != 78 then Err(WrongExtendedKeyLength(|data|))
    else
      var depth, fingerprint, child := data[4], data[5..9], data[9..13];
      if depth == 0 && fingerprint != [0, 0, 0, 0] then Err(NonZeroParentFingerprintForMasterKey)
      else if depth == 0 && child != [0, 0, 0, 0] then Err(NonZeroChildNumberForMasterKey)
      else Ok(Common(data[..4], depth, fingerprint, FromBeBytes(child), data[13..45], data[45..]))
  }

  function NetworkOf(version: Version, main: Version, test: Version): Result<Network, DecodeError> {
    if version == main then Ok(Main) else if version == test then Ok(Test) else Err(UnknownVersion(version))
  }

  function DecodePriv<S, P>(c: Crypto<S, P>, data: seq<u8>): Result<Xpriv<S>, DecodeError> {
    var common :- DecodeCommon(data);
    var network :- NetworkOf(common.version, PrivateVersion(Main), PrivateVersion(Test));
    if common.key[0] != 0 then Err(InvalidPrivateKeyPrefix)
    else
      match c.fromSecretBytes(common.key[1..])
      case None => Err(Secp256k1)
      case Some(sk) =>
        Ok(Xpriv(network, common.depth, common.parentFingerprint, ChildNumber(common.childNumber), sk, common.chainCode))
  }

  function DecodePub<S, P>(c: Crypto<S, P>, data: seq<u8>): Result<Xpub<P>, DecodeError> {
    var common :- DecodeCommon(data);
    var network :- NetworkOf(common.version, PublicVersion(Main), PublicVersion(Test));
    match c.fromSlice(common.key)
    case None => Err(Secp256k1)
    case Some(pk) =>
      Ok(Xpub(network, common.depth, common.parentFingerprint, ChildNumber(common.childNumber), pk, common.chainCode))
  }

  /** A key at depth 0 must look like a master key. */
  predicate MasterIsPlain(depth: u8, fingerprint: Bytes4, child: ChildNumber) {
    depth == 0 ==> fingerprint == [0, 0, 0, 0] && child.raw == 0
  }

  lemma JoinedFields(version: Version, depth: u8, fingerprint: Bytes4, child: u32, chain: Bytes32, key: Bytes33)
    ensures var d := Joined(version, depth, fingerprint, child, chain, key);
      && d[..4] == version && d[4] == depth && d[5..9] == fingerprint && d[9..13] == BeBytes(child)
      && d[13..45] == chain && d[45..] == key
  {
    hide BeBytes;
  }

  /** The bytes that BIP-32 prescribes for a private and a public key. */
  lemma EncodedFields<S, P>(c: Crypto<S, P>, k: Xpriv<S>, pub: Xpub<P>)
    ensures var d, n := EncodePriv(c, k), k.childNumber.raw;
      && d[..4] == (if k.network == Main then [0x04, 0x88, 0xAD, 0xE4] else [0x04, 0x35, 0x83, 0x94])
      && d[4] == k.depth && d[5..9] == k.parentFingerprint
      && d[9..13] == [n / 0x100_0000, n / 0x1_0000 % 0x100, n / 0x100 % 0x100, n % 0x100]
      && d[13..45] == k.chainCode && d[45..] == [0] + c.secretBytes(k.privateKey)
    ensures var d, n := EncodePub(c, pub), pub.childNumber.raw;
      && d[..4] == (if pub.network == Main then [0x04, 0x88, 0xB2, 0x1E] else [0x04, 0x35, 0x87, 0xCF])
      && d[4] == pub.depth && d[5..9] == pub.parentFingerprint
      && d[9..13] == [n / 0x100_0000, n / 0x1_0000 % 0x100, n / 0x100 % 0x100, n % 0x100]
      && d[13..45] == pub.chainCode && d[45..] == c.serialize(pub.publicKey)
  {
    hide BeBytes, Joined;
    NumberBytes(k.childNumber.raw);
    NumberBytes(pub.childNumber.raw);
    JoinedFields(PrivateVersion(k.network), k.depth, k.parentFingerprint, k.childNumber.raw, k.chainCode,
                 [0] + c.secretBytes(k.privateKey));
    JoinedFields(PublicVersion(pub.network), pub.depth, pub.parentFingerprint, pub.childNumber.raw, pub.chainCode,
                 c.serialize(pub.publicKey));
  }

  lemma ZeroChild(child: u32)
    ensures BeBytes(child) == [0, 0, 0, 0] <==> child == 0
  {
    BeInverse(child, [0, 0, 0, 0]);
  }

  /** Exactly the keys that look right at depth 0 survive encoding and decoding. */
  lemma PrivRoundTrip<S(!new), P(!new)>(c: Crypto<S, P>, k: Xpriv<S>)
    requires Readable(c)
    ensures DecodePriv(c, EncodePriv(c, k)) == Ok(k) <==> MasterIsPlain(k.depth, k.parentFingerprint, k.childNumber)
  {
    hide Joined, BeBytes, FromBeBytes;
    var key := [0] + c.secretBytes(k.privateKey);
    JoinedFields(PrivateVersion(k.network), k.depth, k.parentFingerprint, k.childNumber.raw, k.chainCode, key);
    BeInverse(k.childNumber.raw, [0, 0, 0, 0]);
    ZeroChild(k.childNumber.raw);
    assert key[1..] == c.secretBytes(k.privateKey);
  }

  lemma PubRoundTrip<S(!new), P(!new)>(c: Crypto<S, P>, k: Xpub<P>)
    requires Readable(c)
    ensures DecodePub(c, EncodePub(c, k)) == Ok(k) <==> MasterIsPlain(k.depth, k.parentFingerprint, k.childNumber)
  {
    hide Joined, BeBytes, FromBeBytes;
    JoinedFields(PublicVersion(k.network), k.depth, k.parentFingerprint, k.childNumber.raw, k.chainCode,
                 c.serialize(k.publicKey));
    BeInverse(k.childNumber.raw, [0, 0, 0, 0]);
    ZeroChild(k.childNumber.raw);
  }

  /** Data that decodes is the encoding of what it decodes to. */
  lemma DecodedIsEncoding<S(!new), P(!new)>(c: Crypto<S, P>, data: seq<u8>)
    requires UniquelySerialized(c)
    ensures DecodePriv(c, data).Ok? ==> EncodePriv(c, DecodePriv(c, data).value) == data
    ensures DecodePub(c, data).Ok? ==> EncodePub(c, DecodePub(c, data).value) == data
  {
    hide BeBytes, FromBeBytes;
    if |data| == 78 {
      BeInverse(0, data[9..13]);
      assert data == data[..4] + [data[4]] + data[5..9] + data[9..13] + data[13..45] + data[45..];
      assert data[45..] == [data[45]] + data[45..][1..];
    }
  }

  /** The text "Bitcoin seed". */
  const SEED_SALT: seq<u8> := [0x42, 0x69, 0x74, 0x63, 0x6f, 0x69, 0x6e, 0x20, 0x73, 0x65, 0x65, 0x64]

  /** The master key that a seed's HMAC gives, unless the source panics. */
  function NewMaster<S, P>(c: Crypto<S, P>, network: Network, seed: seq<u8>): Option<Xpriv<S>> {
    var hmac := c.hmac(SEED_SALT, seed);
    match c.fromSecretBytes(Left(hmac))
    case None => None
    case Some(sk) => Some(Xpriv(network, 0, [0, 0, 0, 0], ChildNumber(0), sk, Right(hmac)))
  }

  lemma MasterOfBip32<S, P>(c: Crypto<S, P>, network: Network, seed: seq<u8>)
    ensures var salt: seq<u8> := [0x42, 0x69, 0x74, 0x63, 0x6f, 0x69, 0x6e, 0x20, 0x73, 0x65, 0x65, 0x64];
      var r := NewMaster(c, network, seed);
      && r.Some? == c.fromSecretBytes(c.hmac(salt, seed)[..32]).Some?
      && (r.Some? ==>
        && r.value.depth == 0 && r.value.parentFingerprint == [0, 0, 0, 0] && r.value.childNumber.raw == 0
        && c.fromSecretBytes(c.hmac(salt, seed)[..32]) == Some(r.value.privateKey)
        && r.value.chainCode == c.hmac(salt, seed)[32..] && r.value.network == network)
  {}

  lemma {:induction false} DerivedIsPlain<S, P>(c: Crypto<S, P>, k: Xpriv<S>, path: Path)
    requires MasterIsPlain(k.depth, k.parentFingerprint, k.childNumber)
    ensures var r := DerivedPriv(c, k, path);
      r.Ok? ==> MasterIsPlain(r.value.depth, r.value.parentFingerprint, r.value.childNumber)
    decreases |path|
  {
    if path != [] {
      var child := CkdPriv(c, k, path[0]);
      if child.Ok? { DerivedIsPlain(c, child.value, path[1..]); }
    }
  }

  /** Every key derived from a master key, and its neutered form, survives encoding and decoding. */
  lemma ReachableRoundTrip<S(!new), P(!new)>(c: Crypto<S, P>, network: Network, seed: seq<u8>, path: Path)
    requires Readable(c) && NewMaster(c, network, seed).Some?
    ensures var r := DerivedPriv(c, NewMaster(c, network, seed).value, path);
      r.Ok? ==>
        && DecodePriv(c, EncodePriv(c, r.value)) == Ok(r.value)
        && DecodePub(c, EncodePub(c, FromXpriv(c, r.value))) == Ok(FromXpriv(c, r.value))
  {
    hide EncodePriv, EncodePub, DecodePriv, DecodePub, Readable;
    var master := NewMaster(c, network, seed).value;
    var r := DerivedPriv(c, master, path);
    DerivedIsPlain(c, master, path);
    if r.Ok? {
      PrivRoundTrip(c, r.value);
      PubRoundTrip(c, FromXpriv(c, r.value));
    }
  }
}
