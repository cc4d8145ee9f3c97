/** The version 2 and 3 third-party caveat payloads of bakery/codec.go. */
module CaveatCodec {
  import opened Basics
  import opened Macaroons
  import opened Uvarints
  import opened Text
  import Namespaces

  type Bindings = Namespaces.Bindings

  const PUBLIC_KEY_PREFIX_LEN := 4
  const KEY_LEN := 32
  const NONCE_LEN := 24
  const BOX_OVERHEAD := 16
  const V2_MIN_LEN := 1 + PUBLIC_KEY_PREFIX_LEN + KEY_LEN + NONCE_LEN + BOX_OVERHEAD
  const VERSION3_CAVEAT_MIN_LEN := 1 + 4 + 32 + 24 + BOX_OVERHEAD + 1

  type Key = k: bytes | |k| == KEY_LEN witness seq(KEY_LEN, _ => 0)
  type Nonce = n: bytes | |n| == NONCE_LEN witness seq(NONCE_LEN, _ => 0)

  datatype KeyPair = KeyPair(public: Key, private: Key)

  /** The UTF-8 encoding; decoding fails on invalid data. */
  datatype Utf8 = Utf8(encode: string -> bytes, decode: bytes -> Option<string>) {
    ghost predicate RoundTrips() {
      forall s :: decode(encode(s)) == Some(s)
    }
  }

  /** Public-key authenticated encryption: seal(plain, nonce, peer's public key, own private key). */
  datatype Box = Box(
    seal: (bytes, Nonce, Key, Key) -> bytes,
    open: (bytes, Nonce, Key, Key) -> Option<bytes>,
    publicOf: Key -> Key)
  {
    predicate IsPair(kp: KeyPair) {
      kp.public == publicOf(kp.private)
    }

    /** What is sealed between two key pairs opens between them. */
    ghost predicate Works() {
      && (forall m, n, a, b :: open(seal(m, n, publicOf(b), a), n, publicOf(a), b) == Some(m))
      && (forall m, n, a, b :: |seal(m, n, a, b)| == |m| + BOX_OVERHEAD)
    }

    ghost predicate OpensToLess() {
      forall m, n, a, b :: open(m, n, a, b).Some? ==> |open(m, n, a, b).value| <= |m|
    }
  }

  datatype Secret = Secret(rootKey: bytes, ns: Bindings, condition: bytes)

  /** The namespace that version 2 payloads imply. */
  function LegacyNamespace(): Bindings {
    map[Namespaces.STD_NAMESPACE := ""]
  }

  function SecretPart(version: int, condition: bytes, rootKey: bytes, nsData: bytes): bytes
    requires version == VERSION2 || version == VERSION3
  {
    [version] + Uvarint(|rootKey|) + rootKey
      + (if version >= VERSION3 then Uvarint(|nsData|) + nsData else [])
      + condition
  }

  /** Addition of 64-bit values. */
  function Add64(a: nat, b: nat): int {
    if a + b < UINT64 then a + b else a + b - UINT64
  }

  /** The bytes with a length in front, and the rest. The comparison of the length with what there is wraps
      at 64 bits, so a huge length passes it and slicing panics. */
  function TakeCounted(data: bytes): Outcome<(bytes, bytes)> {
    match ReadUvarint(data, 0)
    case None => Err
    case Some((l, n)) =>
      if Add64(n, l) > |data| then Err
      else if l > |data| - n then Panic
      else Ok((data[n..n + l], data[n + l..]))
  }

  /** What the decoder makes of the bytes after the root key. */
  function DecodeEnd(utf8: Utf8, version: int, rootKey: bytes, rest: bytes): Outcome<Secret> {
    if version < VERSION3 then Ok(Secret(rootKey, LegacyNamespace(), rest))
    else
      match TakeCounted(rest)
      case Err => Err
      case Panic => Panic
      case Ok((nsData, condition)) =>
        match utf8.decode(nsData)
        case None => Err
        case Some(text) =>
          match Namespaces.ParseEntries(Namespaces.Fields(text))
          case None => Err
          case Some(ns) => Ok(Secret(rootKey, ns, condition))
  }

  function DecodeSecretPart(utf8: Utf8, version: int, data: bytes): Outcome<Secret> {
    if |data| < 1 || data[0] != version then Err
    else
      match TakeCounted(data[1..])
      case Err => Err
      case Panic => Panic
      case Ok((rootKey, rest)) => DecodeEnd(utf8, version, rootKey, rest)
  }

  datatype Info = Info(condition: bytes, firstParty: Key, thirdParty: KeyPair, rootKey: bytes, caveat: bytes,
                       version: int, ns: Bindings)

  /** The payload version that is used for a third party of a given version: 1 is the JSON format, and
      everything that is not 0, 1 or 2 is taken for version 3. */
  function PayloadVersion(thirdPartyVersion: int): int {
    if thirdPartyVersion == 0 || thirdPartyVersion == 1 then 1
    else if thirdPartyVersion == VERSION2 then VERSION2
    else VERSION3
  }

  function Payload(version: byte, prefix: bytes, public: Key, nonce: Nonce, sealed: bytes): bytes {
    [version] + prefix + public + nonce + sealed
  }

  /** The payload: header, first-party key, nonce and the sealed secret part. nsText is the marshalled
      namespace; version 2 has none. */
  function Encode(box: Box, utf8: Utf8, version: int, condition: bytes, rootKey: bytes, thirdParty: Key, key: KeyPair,
                  nonce: Nonce, nsText: string): bytes
    requires version == VERSION2 || version == VERSION3
  {
    Payload(version, thirdParty[..PUBLIC_KEY_PREFIX_LEN], key.public, nonce,
            box.seal(SecretPart(version, condition, rootKey, utf8.encode(nsText)), nonce, thirdParty, key.private))
  }

  function DecodeV2V3(box: Box, utf8: Utf8, version: int, key: KeyPair, caveat: bytes): Outcome<Info> {
    if |caveat| < V2_MIN_LEN then Err
    else
      var a := 1 + PUBLIC_KEY_PREFIX_LEN;
      var b := a + KEY_LEN;
      var c := b + NONCE_LEN;
      if caveat[1..a] != key.public[..PUBLIC_KEY_PREFIX_LEN] then Err
      else
        var firstParty: Key, nonce: Nonce := caveat[a..b], caveat[b..c];
        match box.open(caveat[c..], nonce, firstParty, key.private)
        case None => Err
        case Some(data) =>
          match DecodeSecretPart(utf8, version, data)
          case Err => Err
          case Panic => Panic
          case Ok(s) => Ok(Info(s.condition, firstParty, key, s.rootKey, caveat, version, s.ns))
  }

  /** decodeCaveat, without the JSON format of version 1, whose decoder is v1. */
  function Decode(box: Box, utf8: Utf8, v1: (KeyPair, bytes) -> Outcome<Info>, key: KeyPair, caveat: bytes)
    : Outcome<Info>
  {
    if caveat == [] then Err
    else if caveat[0] == VERSION2 then DecodeV2V3(box, utf8, VERSION2, key, caveat)
    else if caveat[0] == VERSION3 then
      if |caveat| < VERSION3_CAVEAT_MIN_LEN then Err else DecodeV2V3(box, utf8, VERSION3, key, caveat)
    else if caveat[0] == 'e' as int then v1(key, caveat)
    else Err
  }

  /** The lengths that a Go slice can have. */
  const MAX_LEN := 0x7FFF_FFFF_FFFF_FFFF

  lemma {:induction false} TakeCountedWritten(data: bytes, rest: bytes)
    requires |data| <= MAX_LEN
    ensures TakeCounted(Uvarint(|data|) + data + rest) == Ok((data, rest))
  {
    var u := Uvarint(|data|);
    var all := u + data + rest;
    assert all == u + (data + rest);
    UvarintRoundTrip(|data|, data + rest);
    assert |u| <= MAX_VARINT_LEN64 by {
      LimitIsUint64();
      ShortUvarint(|data|, 0);
    }
    Slices(u, data, rest);
    assert ReadUvarint(all, 0) == Some((|data|, |u|));
  }

  lemma Slices(a: bytes, b: bytes, c: bytes)
    ensures (a + b + c)[|a|..|a| + |b|] == b && (a + b + c)[|a| + |b|..] == c
  {
  }

  lemma {:induction false} ShortRead(data: bytes, i: nat)
    requires i < MAX_VARINT_LEN64 && ReadUvarint(data, i).Some?
    ensures ReadUvarint(data, i).value.1 <= MAX_VARINT_LEN64 - i
    decreases |data|
  {
    if data[0] >= 128 {
      ShortRead(data[1..], i + 1);
    }
  }

  /** A length is read whose sum with the size of its encoding does not fit in 64 bits. */
  predicate Overflows(data: bytes) {
    match ReadUvarint(data, 0)
    case None => false
    case Some((l, n)) => l + n >= UINT64
  }

  /** The length check of the decoder keeps slicing in range exactly when adding the decoded length and the
      size of its encoding does not overflow 64 bits. */
  lemma TakeCountedPanics(data: bytes)
    requires |data| <= MAX_LEN
    ensures TakeCounted(data).Panic? <==> Overflows(data)
  {
    if ReadUvarint(data, 0).Some? {
      ReadIsUint64(data);
      ShortRead(data, 0);
    }
  }

  /** The secret part makes the decoder panic: its version is right and the length of the root key overflows,
      or in version 3 the root key is read and the length of the namespace overflows. */
  predicate SecretOverflows(version: int, data: bytes) {
    && |data| > 0 && data[0] == version
    && (Overflows(data[1..])
        || (version >= VERSION3 && TakeCounted(data[1..]).Ok? && Overflows(TakeCounted(data[1..]).value.1)))
  }

  lemma SecretPanics(utf8: Utf8, version: int, data: bytes)
    requires |data| <= MAX_LEN
    ensures DecodeSecretPart(utf8, version, data).Panic? <==> SecretOverflows(version, data)
  {
    if |data| > 0 && data[0] == version {
      TakeCountedPanics(data[1..]);
      if TakeCounted(data[1..]).Ok? {
        TakeCountedPanics(TakeCounted(data[1..]).value.1);
      }
    }
  }

  /** The secret part of a payload that is long enough, is meant for the key and opens. */
  function Opened(box: Box, key: KeyPair, caveat: bytes): Option<bytes> {
    if |caveat| < V2_MIN_LEN || caveat[1..5] != key.public[..PUBLIC_KEY_PREFIX_LEN] then None
    else box.open(caveat[61..], caveat[37..61], caveat[5..37], key.private)
  }

  lemma DecodeV2V3Panics(box: Box, utf8: Utf8, version: int, key: KeyPair, caveat: bytes)
    requires |caveat| <= MAX_LEN && box.OpensToLess()
    ensures DecodeV2V3(box, utf8, version, key, caveat).Panic? <==>
      Opened(box, key, caveat).Some? && SecretOverflows(version, Opened(box, key, caveat).value)
  {
    var secret := Opened(box, key, caveat);
    if secret.Some? {
      assert |secret.value| <= |caveat[61..]|;
      SecretPanics(utf8, version, secret.value);
    }
  }

  /** The decoder panics exactly when the payload, not too short for its version, opens to a secret part with
      an overflowing length. */
  lemma DecodePanics(box: Box, utf8: Utf8, v1: (KeyPair, bytes) -> Outcome<Info>, key: KeyPair, caveat: bytes)
    requires |caveat| <= MAX_LEN && box.OpensToLess()
    requires caveat != [] && (caveat[0] == VERSION2 || caveat[0] == VERSION3)
    ensures Decode(box, utf8, v1, key, caveat).Panic? <==>
      && (caveat[0] == VERSION3 ==> |caveat| >= VERSION3_CAVEAT_MIN_LEN)
      && Opened(box, key, caveat).Some? && SecretOverflows(caveat[0], Opened(box, key, caveat).value)
  {
    DecodeV2V3Panics(box, utf8, caveat[0], key, caveat);
  }

  /** The encoding of the greatest 64-bit value: nine bytes 255 and a byte 1. */
  const GREATEST: bytes := [255, 255, 255, 255, 255, 255, 255, 255, 255, 1]

  lemma {:induction false} ReadOnes(data: bytes, i: nat)
    requires i < MAX_VARINT_LEN64 && |data| == MAX_VARINT_LEN64 - i && data[|data| - 1] == 1
    requires forall k :: 0 <= k < |data| - 1 ==> data[k] == 255
    ensures ReadUvarint(data, i) == Some((Limit(i) - 1, |data|))
    decreases |data|
  {
    if |data| > 1 {
      ReadOnes(data[1..], i + 1);
    }
  }

  /** Followed by nothing, it is the length that no check stops. */
  lemma GreatestPanics()
    ensures Overflows(GREATEST) && TakeCounted(GREATEST).Panic?
  {
    ReadOnes(GREATEST, 0);
    LimitIsUint64();
    TakeCountedPanics(GREATEST);
  }

  /** So there are payloads, properly sealed by a first party, for which decoding panics. */
  lemma SealedOverflowPanics(box: Box, utf8: Utf8, v1: (KeyPair, bytes) -> Outcome<Info>, version: int,
                             thirdParty: KeyPair, key: KeyPair, nonce: Nonce) returns (caveat: bytes)
    requires version == VERSION2 || version == VERSION3
    requires box.Works() && box.OpensToLess() && box.IsPair(thirdParty) && box.IsPair(key)
    ensures Decode(box, utf8, v1, thirdParty, caveat) == Panic
  {
    var part := [version] + GREATEST;
    var prefix := thirdParty.public[..PUBLIC_KEY_PREFIX_LEN];
    var sealed := box.seal(part, nonce, thirdParty.public, key.private);
    caveat := Payload(version, prefix, key.public, nonce, sealed);
    assert |sealed| == |part| + BOX_OVERHEAD;
    PayloadParts(version, prefix, key.public, nonce, sealed);
    assert box.open(sealed, nonce, key.public, thirdParty.private) == Some(part);
    assert part[1..] == GREATEST;
    GreatestPanics();
    DecodePanics(box, utf8, v1, thirdParty, caveat);
  }

  lemma PayloadParts(version: byte, prefix: bytes, public: Key, nonce: Nonce, sealed: bytes)
    requires |prefix| == PUBLIC_KEY_PREFIX_LEN
    ensures var caveat := Payload(version, prefix, public, nonce, sealed);
      && |caveat| == 61 + |sealed| && caveat[0] == version
      && caveat[1..5] == prefix && caveat[5..37] == public && caveat[37..61] == nonce && caveat[61..] == sealed
  {
  }

  lemma SecretRoundTrip(utf8: Utf8, version: int, condition: bytes, rootKey: bytes, ns: Bindings, nsText: string)
    requires version == VERSION2 || version == VERSION3
    requires utf8.RoundTrips() && Namespaces.IsValid(ns) && Namespaces.IsTextOf(ns, nsText)
    requires |rootKey| <= MAX_LEN && |utf8.encode(nsText)| <= MAX_LEN
    ensures DecodeSecretPart(utf8, version, SecretPart(version, condition, rootKey, utf8.encode(nsText)))
         == Ok(Secret(rootKey, if version == VERSION2 then map["std" := ""] else ns, condition))
  {
    var nsData := utf8.encode(nsText);
    var tail := (if version >= VERSION3 then Uvarint(|nsData|) + nsData else []) + condition;
    var part := SecretPart(version, condition, rootKey, nsData);
    assert part == [version] + (Uvarint(|rootKey|) + rootKey + tail);
    assert part[1..] == Uvarint(|rootKey|) + rootKey + tail;
    TakeCountedWritten(rootKey, tail);
    if version == VERSION3 {
      assert tail == Uvarint(|nsData|) + nsData + condition;
      TakeCountedWritten(nsData, condition);
      Namespaces.UnmarshalMarshal(ns, nsText);
      assert utf8.decode(nsData) == Some(nsText);
    } else {
      assert tail == condition;
    }
  }

  /** Decoding an encoded caveat with the third party's key gives back what was encoded, for every third
      party that is not served with the JSON format; in particular no encoding is shorter than the minimum
      length of version 3. */
  lemma CaveatRoundTrip(box: Box, utf8: Utf8, v1: (KeyPair, bytes) -> Outcome<Info>, thirdPartyVersion: int,
                        condition: bytes,
                        rootKey: bytes, thirdParty: KeyPair, key: KeyPair, nonce: Nonce, ns: Bindings, nsText: string)
    requires thirdPartyVersion != 0 && thirdPartyVersion != 1
    requires box.Works() && box.IsPair(thirdParty) && box.IsPair(key)
    requires utf8.RoundTrips() && Namespaces.IsValid(ns) && Namespaces.IsTextOf(ns, nsText)
    requires |rootKey| <= MAX_LEN && |utf8.encode(nsText)| <= MAX_LEN
    ensures var version := PayloadVersion(thirdPartyVersion);
      var caveat := Encode(box, utf8, version, condition, rootKey, thirdParty.public, key, nonce, nsText);
      && Decode(box, utf8, v1, thirdParty, caveat)
           == Ok(Info(condition, key.public, thirdParty, rootKey, caveat, version,
             if thirdPartyVersion == VERSION2 then map["std" := ""] else ns))
      && |caveat| >= VERSION3_CAVEAT_MIN_LEN
  {
    var version := PayloadVersion(thirdPartyVersion);
    var part := SecretPart(version, condition, rootKey, utf8.encode(nsText));
    var sealed := box.seal(part, nonce, thirdParty.public, key.private);
    var prefix := thirdParty.public[..PUBLIC_KEY_PREFIX_LEN];
    var caveat := Encode(box, utf8, version, condition, rootKey, thirdParty.public, key, nonce, nsText);
    assert |sealed| == |part| + BOX_OVERHEAD && |part| >= 1;
    PayloadParts(version, prefix, key.public, nonce, sealed);
    assert box.open(sealed, nonce, key.public, thirdParty.private) == Some(part);
    SecretRoundTrip(utf8, version, condition, rootKey, ns, nsText);
  }

  // ---------- what is accepted ----------

  /** data is a length, in any encoding that can be read, then as many bytes, a, and b. */
  ghost predicate IsCounted(data: bytes, a: bytes, b: bytes) {
    exists n: nat :: n <= |data| && ReadUvarint(data, 0) == Some((|a|, n)) && data[n..] == a + b
  }

  lemma TakeCountedIff(data: bytes, a: bytes, b: bytes)
    requires |data| <= MAX_LEN
    ensures TakeCounted(data) == Ok((a, b)) <==> IsCounted(data, a, b)
  {
    if ReadUvarint(data, 0).Some? {
      var (l, n) := ReadUvarint(data, 0).value;
      ReadIsUint64(data);
      if IsCounted(data, a, b) {
        assert data[n..][..|a|] == a && data[n..][|a|..] == b;
        assert data[n..n + l] == data[n..][..|a|] && data[n + l..] == data[n..][|a|..];
      }
      if TakeCounted(data) == Ok((a, b)) {
        assert data[n..] == data[n..n + l] + data[n + l..];
      }
    }
  }

  /** data is the secret part for s: version, counted root key, from version 3 on the counted text of the
      namespace, and the condition. */
  ghost predicate IsSecret(utf8: Utf8, version: int, data: bytes, s: Secret) {
    && |data| > 0 && data[0] == version
    && exists rest :: IsCounted(data[1..], s.rootKey, rest) && EndsSecret(utf8, version, rest, s)
  }

  ghost predicate EndsSecret(utf8: Utf8, version: int, rest: bytes, s: Secret) {
    if version == VERSION2 then s.ns == map["std" := ""] && rest == s.condition
    else exists nsData :: IsCounted(rest, nsData, s.condition) && IsNamespace(utf8, nsData, s.ns)
  }

  ghost predicate IsNamespace(utf8: Utf8, nsData: bytes, ns: Bindings) {
    exists text :: utf8.decode(nsData) == Some(text) && Namespaces.ParseEntries(Namespaces.Fields(text)) == Some(ns)
  }

  lemma EndIff(utf8: Utf8, version: int, rest: bytes, s: Secret)
    requires |rest| <= MAX_LEN && (version == VERSION2 || version == VERSION3)
    ensures DecodeEnd(utf8, version, s.rootKey, rest) == Ok(s) <==> EndsSecret(utf8, version, rest, s)
  {
    forall a ensures TakeCounted(rest) == Ok((a, s.condition)) <==> IsCounted(rest, a, s.condition) {
      TakeCountedIff(rest, a, s.condition);
    }
  }

  lemma SecretIff(utf8: Utf8, version: int, data: bytes, s: Secret)
    requires |data| <= MAX_LEN && (version == VERSION2 || version == VERSION3)
    ensures DecodeSecretPart(utf8, version, data) == Ok(s) <==> IsSecret(utf8, version, data, s)
  {
    if |data| > 0 && data[0] == version {
      var counted := data[1..];
      forall rest ensures TakeCounted(counted) == Ok((s.rootKey, rest)) <==> IsCounted(counted, s.rootKey, rest) {
        TakeCountedIff(counted, s.rootKey, rest);
      }
      if TakeCounted(counted).Ok? {
        EndIff(utf8, version, TakeCounted(counted).value.1, s);
      }
    }
  }

  /** Exactly the payloads are accepted that are long enough, meant for the key, and open to a secret part; what
      is decoded is that secret part, the key of its sender and the payload itself. */
  lemma DecodeIff(box: Box, utf8: Utf8, v1: (KeyPair, bytes) -> Outcome<Info>, key: KeyPair, caveat: bytes, info: Info)
    requires |caveat| <= MAX_LEN && box.OpensToLess()
    requires caveat != [] && (caveat[0] == VERSION2 || caveat[0] == VERSION3)
    ensures Decode(box, utf8, v1, key, caveat) == Ok(info) <==>
      && (if caveat[0] == VERSION3 then |caveat| >= 78 else |caveat| >= 77) && caveat[1..5] == key.public[..4]
      && info.caveat == caveat && info.version == caveat[0] && info.thirdParty == key
      && info.firstParty == caveat[5..37]
      && var data := box.open(caveat[61..], caveat[37..61], caveat[5..37], key.private);
         data.Some? && IsSecret(utf8, caveat[0], data.value, Secret(info.rootKey, info.ns, info.condition))
  {
    if |caveat| >= V2_MIN_LEN {
      var data := box.open(caveat[61..], caveat[37..61], caveat[5..37], key.private);
      if data.Some? {
        assert |data.value| <= |caveat[61..]|;
        SecretIff(utf8, caveat[0], data.value, Secret(info.rootKey, info.ns, info.condition));
      }
    }
  }
}
