/** Operations and macaroon ids (bakery/oven.go): the canonical form of a list of operations, the groups in
    which they are put into an id, and the ids of every version. */
module Oven {
  import opened Basics
  import opened Ordering
  import opened Checker
  import opened Macaroons
  import Base64

  // ---------- canonical operations ----------

  predicate OpLe(a: Op, b: Op) {
    if a.entity != b.entity then StringLe(a.entity, b.entity) else StringLe(a.action, b.action)
  }

  predicate OpLess(a: Op, b: Op) {
    OpLe(a, b) && a != b
  }

  lemma OpOrder()
    ensures TotalOrder(OpLe)
  {
    StringOrder();
  }

  ghost predicate IsCanonical(ops: seq<Op>, r: seq<Op>) {
    StrictlySorted(OpLe, r) && forall op :: op in r <==> op in ops
  }

  /** The operations of the slice sorted without duplicates; the slice itself is left alone. */
  method CanonicalOps(ops: array<Op>) returns (r: seq<Op>)
    ensures IsCanonical(ops[..], r)
  {
    OpOrder();
    var needNewSlice := false;
    var i := 1;
    while i < ops.Length
      invariant 1 <= i && (ops.Length > 0 ==> i <= ops.Length)
      invariant !needNewSlice && ops.Length > 0 ==> StrictlySorted(OpLe, ops[..i])
      invariant needNewSlice ==> i < ops.Length
    {
      if !OpLess(ops[i - 1], ops[i]) {
        needNewSlice := true;
        break;
      }
      StrictlySortedNext(ops[..], i);
      i := i + 1;
    }
    if !needNewSlice {
      if ops.Length > 0 { assert ops[..i] == ops[..]; }
      return ops[..];
    }
    var canonOps := SortedCopy(ops[..]);
    SortSorts(OpLe, ops[..]);
    WithoutRepeatsIsStrict(OpLe, canonOps[..]);
    var j := DropRepeats(canonOps);
    return canonOps[..j];
  }

  lemma StrictlySortedNext(s: seq<Op>, i: nat)
    requires 1 <= i < |s| && StrictlySorted(OpLe, s[..i]) && OpLess(s[i - 1], s[i])
    ensures StrictlySorted(OpLe, s[..i + 1])
  {
    OpOrder();
    forall k | 0 <= k < i ensures OpLe(s[k], s[i]) && s[k] != s[i] {
      if k < i - 1 {
        assert OpLe(s[..i][k], s[..i][i - 1]) && s[..i][k] != s[..i][i - 1];
      }
    }
  }

  /** sort.Sort on a copy */
  method SortedCopy(ops: seq<Op>) returns (a: array<Op>)
    ensures fresh(a) && a[..] == Sort(OpLe, ops)
  {
    var s := Sort(OpLe, ops);
    a := new Op[|s|](i requires 0 <= i < |s| => s[i]);
  }

  /** The canonical form depends only on the set of operations, and canonicalizing it changes nothing. */
  lemma CanonicalIsUnique(a: seq<Op>, b: seq<Op>, ra: seq<Op>, rb: seq<Op>)
    requires IsCanonical(a, ra) && IsCanonical(b, rb) && forall op :: op in a <==> op in b
    ensures ra == rb && IsCanonical(ra, ra)
  {
    OpOrder();
    StrictlySortedIsUnique(OpLe, ra, rb);
  }

  // ---------- grouping by entity ----------

  datatype IdOp = IdOp(entity: string, actions: seq<string>)

  function FlattenOne(o: IdOp): seq<Op> {
    seq(|o.actions|, i requires 0 <= i < |o.actions| => Op(o.entity, o.actions[i]))
  }

  function Flatten(idOps: seq<IdOp>): seq<Op> {
    if idOps == [] then [] else Flatten(idOps[..|idOps| - 1]) + FlattenOne(idOps[|idOps| - 1])
  }

  /** No group is empty, and neighbours have different entities. */
  ghost predicate Grouped(r: seq<IdOp>) {
    && (forall o :: o in r ==> o.actions != [])
    && forall i :: 0 < i < |r| ==> r[i - 1].entity != r[i].entity
  }

  /** macaroonIdOps: neighbours with the same entity are put together, and repeated neighbours dropped. */
  method MacaroonIdOps(ops: seq<Op>) returns (r: seq<IdOp>)
    requires |ops| > 0
    ensures r != [] && Grouped(r) && Flatten(r) == WithoutRepeats(ops)
  {
    r := [IdOp(ops[0].entity, [ops[0].action])];
    FlattenFirst(ops[0]);
    FirstIsKept(ops, 1);
    for i := 1 to |ops|
      invariant r != [] && Grouped(r) && Flatten(r) == WithoutRepeats(ops[..i])
    {
      WithoutRepeatsNext(ops, i);
      r := AddToGroups(r, ops[i]);
    }
    assert ops[..|ops|] == ops;
  }

  lemma FlattenFirst(op: Op)
    ensures Flatten([IdOp(op.entity, [op.action])]) == [op]
  {
    var r := [IdOp(op.entity, [op.action])];
    assert r[..0] == [] && Flatten([]) == [];
  }

  lemma WithoutRepeatsNext(ops: seq<Op>, i: nat)
    requires 0 < i < |ops|
    ensures var prev := WithoutRepeats(ops[..i]);
      prev != [] && WithoutRepeats(ops[..i + 1]) == prev + if prev[|prev| - 1] == ops[i] then [] else [ops[i]]
  {
    assert ops[..i + 1][..i] == ops[..i];
  }

  /** One round of the loop of macaroonIdOps. */
  method AddToGroups(groups: seq<IdOp>, op: Op) returns (r: seq<IdOp>)
    requires groups != [] && Grouped(groups)
    ensures r != [] && Grouped(r) && Flatten(groups) != []
    ensures Flatten(r) == Flatten(groups) + if Flatten(groups)[|Flatten(groups)| - 1] == op then [] else [op]
  {
    r := groups;
    var last := |r| - 1;
    LastOfFlatten(groups);
    if op.entity != r[last].entity {
      FlattenAppend(r, IdOp(op.entity, [op.action]));
      r := r + [IdOp(op.entity, [op.action])];
    } else if op.action != r[last].actions[|r[last].actions| - 1] {
      FlattenExtend(r, op.action);
      r := r[last := r[last].(actions := r[last].actions + [op.action])];
    }
  }

  lemma {:induction false} LastOfFlatten(r: seq<IdOp>)
    requires r != [] && r[|r| - 1].actions != []
    ensures var o := r[|r| - 1];
      Flatten(r) != [] && Flatten(r)[|Flatten(r)| - 1] == Op(o.entity, o.actions[|o.actions| - 1])
  {
  }

  lemma FlattenAppend(r: seq<IdOp>, o: IdOp)
    ensures Flatten(r + [o]) == Flatten(r) + FlattenOne(o)
  {
    assert (r + [o])[..|r|] == r;
  }

  lemma FlattenExtend(r: seq<IdOp>, action: string)
    requires r != []
    ensures var last := |r| - 1;
      Flatten(r[last := r[last].(actions := r[last].actions + [action])]) == Flatten(r) + [Op(r[last].entity, action)]
  {
    var last := |r| - 1;
    var o := r[last].(actions := r[last].actions + [action]);
    assert r[last := o][..last] == r[..last];
    assert FlattenOne(o) == FlattenOne(r[last]) + [Op(o.entity, action)];
  }

  lemma {:induction false} StrictHasNoRepeats(ops: seq<Op>)
    requires StrictlySorted(OpLe, ops)
    ensures WithoutRepeats(ops) == ops
  {
    if |ops| > 1 {
      StrictHasNoRepeats(ops[..|ops| - 1]);
      assert ops == ops[..|ops| - 1] + [ops[|ops| - 1]];
    }
  }

  ghost predicate EntitiesAscend(groups: seq<IdOp>) {
    forall i, j :: 0 <= i < j < |groups| ==>
      StringLe(groups[i].entity, groups[j].entity) && groups[i].entity != groups[j].entity
  }

  /** Canonical operations give a single group for each entity, the entities in order. */
  lemma {:induction false} OneGroupForEachEntity(groups: seq<IdOp>)
    requires Grouped(groups) && StrictlySorted(OpLe, Flatten(groups))
    ensures EntitiesAscend(groups)
  {
    if |groups| > 1 {
      var n := |groups| - 1;
      var before := groups[..n];
      SortedPrefix(Flatten(groups), Flatten(before), FlattenOne(groups[n]));
      assert groups[n - 1] in groups && groups[n] in groups;
      OneGroupForEachEntity(before);
      LastEntities(before, groups[n], Flatten(groups));
      EntityAppend(before, groups[n]);
      assert groups == before + [groups[n]];
    }
  }

  lemma SortedPrefix(s: seq<Op>, a: seq<Op>, b: seq<Op>)
    requires s == a + b && StrictlySorted(OpLe, s)
    ensures StrictlySorted(OpLe, a)
  {
    assert forall i :: 0 <= i < |a| ==> s[i] == a[i];
  }

  lemma {:induction false} LastEntities(before: seq<IdOp>, o: IdOp, ops: seq<Op>)
    requires before != [] && before[|before| - 1].actions != [] && o.actions != []
    requires ops == Flatten(before) + FlattenOne(o) && StrictlySorted(OpLe, ops)
    requires before[|before| - 1].entity != o.entity
    ensures StringLe(before[|before| - 1].entity, o.entity)
  {
    LastOfFlatten(before);
    var k := |Flatten(before)|;
    assert ops[k - 1] == Flatten(before)[k - 1] && ops[k] == FlattenOne(o)[0];
    assert OpLe(ops[k - 1], ops[k]);
  }

  lemma {:induction false} EntityAppend(before: seq<IdOp>, o: IdOp)
    requires before != [] && EntitiesAscend(before)
    requires StringLe(before[|before| - 1].entity, o.entity) && before[|before| - 1].entity != o.entity
    ensures EntitiesAscend(before + [o])
  {
    var last := before[|before| - 1].entity;
    forall i | 0 <= i < |before| ensures StringLe(before[i].entity, o.entity) && before[i].entity != o.entity {
      if i < |before| - 1 {
        StringLeTransitive(before[i].entity, last, o.entity);
        StringLeTotal(last, o.entity);
      }
    }
  }

  // ---------- macaroon ids ----------

  const UUID_LEN := 16

  datatype MacaroonId = MacaroonId(nonce: bytes, storageId: bytes, ops: seq<IdOp>)

  /** The protobuf encoding of ids. */
  datatype Proto = Proto(marshal: MacaroonId -> bytes, unmarshal: bytes -> Option<MacaroonId>) {
    ghost predicate RoundTrips() {
      forall id :: unmarshal(marshal(id)) == Some(id)
    }
  }

  /** Bakery versions 0 and 1 use the first macaroon format, which requires ids to be text. */
  predicate NeedsTextId(version: int) {
    version == 0 || version == 1
  }

  /** The id of a new macaroon. */
  function MintId(proto: Proto, version: int, id: MacaroonId): bytes {
    var idBytes := [LATEST_VERSION] + proto.marshal(id);
    if NeedsTextId(version) then Base64.Encode(idBytes) else idBytes
  }

  predicate IsLowerCaseHexChar(c: byte) {
    '0' as int <= c <= '9' as int || 'a' as int <= c <= 'f' as int
  }

  function LastIndexOfByte(s: bytes, c: byte): (i: int)
    ensures -1 <= i < |s|
  {
    if s == [] then -1
    else if s[|s| - 1] == c then |s| - 1
    else LastIndexOfByte(s[..|s| - 1], c)
  }

  function LegacyOps(legacyOp: Op): seq<Op> {
    if legacyOp == NO_OP then [] else [legacyOp]
  }

  /** What decodeMacaroonId makes of an id: the storage id and the operations. It indexes and slices the id
      without checking that it is long enough. */
  function DecodeMacaroonId(proto: Proto, legacyOp: Op, givenId: bytes): Outcome<(bytes, seq<Op>)> {
    if givenId == [] then Panic else
      match (if givenId[0] == 'A' as int then Base64.Decode(givenId) else None)
      case Some(id) => DecodeBinaryId(proto, legacyOp, id, true)
      case None => DecodeBinaryId(proto, legacyOp, givenId, false)
  }

  function DecodeBinaryId(proto: Proto, legacyOp: Op, id: bytes, base64Decoded: bool): Outcome<(bytes, seq<Op>)> {
    if id == [] then Panic
    else if id[0] == VERSION3 then
      match proto.unmarshal(id[1..])
      case None => Err
      case Some(m) =>
        if |m.ops| == 0 || |m.ops[0].actions| == 0 then Err else Ok((m.storageId, Flatten(m.ops)))
    else if id[0] == VERSION2 then
      if |id| < 1 + UUID_LEN then Panic else Ok((id[1 + UUID_LEN..], LegacyOps(legacyOp)))
    else
      var i := LastIndexOfByte(id, '-' as int);
      var storageId := if !base64Decoded && IsLowerCaseHexChar(id[0]) && i >= 0 then id[..i] else [];
      Ok((storageId, LegacyOps(legacyOp)))
  }

  /** The id after decoding of its text form. */
  function WithoutText(givenId: bytes): bytes {
    match (if givenId != [] && givenId[0] == 'A' as int then Base64.Decode(givenId) else None)
    case Some(id) => id
    case None => givenId
  }

  /** Decoding panics exactly for an empty id and for a version 2 id, raw or as text, without a whole UUID. */
  lemma DecodePanics(proto: Proto, legacyOp: Op, givenId: bytes)
    ensures var id := WithoutText(givenId);
      DecodeMacaroonId(proto, legacyOp, givenId).Panic? <==> id == [] || (id[0] == VERSION2 && |id| < 1 + UUID_LEN)
    ensures WithoutText(givenId) == [] <==> givenId == []
  {
    if givenId != [] && givenId[0] == 'A' as int {
      Base64.DecodedIsNotEmpty(givenId);
    }
  }

  lemma DecodeBinary(proto: Proto, legacyOp: Op, id: MacaroonId, base64Decoded: bool)
    requires proto.RoundTrips() && id.ops != [] && id.ops[0].actions != []
    ensures DecodeBinaryId(proto, legacyOp, [LATEST_VERSION] + proto.marshal(id), base64Decoded) ==
      Ok((id.storageId, Flatten(id.ops)))
  {
    var idBytes := [LATEST_VERSION] + proto.marshal(id);
    assert idBytes[1..] == proto.marshal(id) && proto.unmarshal(proto.marshal(id)) == Some(id);
  }

  lemma TextStartsWithA(id: bytes)
    requires id != [] && id[0] == LATEST_VERSION
    ensures Base64.Encode(id) != [] && Base64.Encode(id)[0] == 'A' as int
  {
  }

  /** The operations and the storage id come back from the ids of every version, raw or as text. */
  lemma DecodeMinted(proto: Proto, version: int, legacyOp: Op, given: seq<Op>, ops: seq<Op>, groups: seq<IdOp>,
                     nonce: bytes, storageId: bytes)
    requires proto.RoundTrips() && given != [] && IsCanonical(given, ops)
    requires groups != [] && (forall o :: o in groups ==> o.actions != []) && Flatten(groups) == WithoutRepeats(ops)
    ensures DecodeMacaroonId(proto, legacyOp, MintId(proto, version, MacaroonId(nonce, storageId, groups))) ==
      Ok((storageId, ops))
  {
    var id := MacaroonId(nonce, storageId, groups);
    StrictHasNoRepeats(ops);
    assert groups[0] in groups;
    DecodeBinary(proto, legacyOp, id, NeedsTextId(version));
    DecodeRawOrText(proto, legacyOp, [LATEST_VERSION] + proto.marshal(id));
  }

  /** Decoding sees the same bytes whether they are given raw or as text. */
  lemma {:induction false} DecodeRawOrText(proto: Proto, legacyOp: Op, idBytes: bytes)
    requires idBytes != [] && idBytes[0] == LATEST_VERSION
    ensures DecodeMacaroonId(proto, legacyOp, idBytes) == DecodeBinaryId(proto, legacyOp, idBytes, false)
    ensures DecodeMacaroonId(proto, legacyOp, Base64.Encode(idBytes)) == DecodeBinaryId(proto, legacyOp, idBytes, true)
  {
    Base64.DecodeEncode(idBytes);
    TextStartsWithA(idBytes);
  }

  /** The operations of an id that does not list them. */
  ghost predicate IsLegacy(legacyOp: Op, ops: seq<Op>) {
    ops == if legacyOp == Op("", "") then [] else [legacyOp]
  }

  lemma LegacyIs(legacyOp: Op)
    ensures IsLegacy(legacyOp, LegacyOps(legacyOp))
  {
  }

  /** An id of version 2 is a UUID and the storage id, raw or as text. */
  lemma {:induction false} DecodeVersion2(proto: Proto, legacyOp: Op, uuid: bytes, storageId: bytes, id: bytes)
    requires |uuid| == 16 && id == [2] + uuid + storageId
    ensures var r := DecodeMacaroonId(proto, legacyOp, id);
      r.Ok? && r.value.0 == storageId && IsLegacy(legacyOp, r.value.1)
    ensures DecodeMacaroonId(proto, legacyOp, Base64.Encode(id)) == DecodeMacaroonId(proto, legacyOp, id)
  {
    assert id[17..] == storageId;
    Base64.DecodeEncode(id);
  }

  /** Old ids give the operation configured for them. */
  lemma DecodeOldOps(proto: Proto, legacyOp: Op, id: bytes)
    requires id != [] && id[0] != 2 && id[0] != 3 && id[0] != 'A' as int
    ensures var r := DecodeMacaroonId(proto, legacyOp, id);
      r.Ok? && IsLegacy(legacyOp, r.value.1)
  {
    LegacyIs(legacyOp);
  }

  /** An old id that starts with a lower-case hexadecimal digit is the storage id up to the last hyphen; any other
      one, raw, has no storage id. */
  lemma DecodeOld(proto: Proto, legacyOp: Op, id: bytes)
    requires id != [] && id[0] != 2 && id[0] != 3 && id[0] != 'A' as int
    ensures var r := DecodeMacaroonId(proto, legacyOp, id);
      && r.Ok?
      && if ('0' as int <= id[0] <= '9' as int || 'a' as int <= id[0] <= 'f' as int) && '-' as int in id then
           IsUpToLast(id, '-' as int, r.value.0)
         else r.value.0 == []
  {
    DecodeOldOps(proto, legacyOp, id);
    LastIndexSplits(id, '-' as int);
  }

  /** s is followed in id by the last c. */
  ghost predicate IsUpToLast(id: bytes, c: byte, s: bytes) {
    s < id && id[|s|] == c && forall k :: |s| < k < |id| ==> id[k] != c
  }

  lemma {:induction false} LastIndexSplits(id: bytes, c: byte)
    ensures var i := LastIndexOfByte(id, c);
      && (i < 0 ==> c !in id) && (i >= 0 ==> id[i] == c)
      && forall k :: i < k < |id| ==> id[k] != c
  {
    if id != [] && id[|id| - 1] != c {
      LastIndexSplits(id[..|id| - 1], c);
    }
  }

  /** id was minted for the operations: [3] and the encoded nonce, storage id and groups, one for each entity and
      together the canonical operations; as text for the versions 0 and 1. */
  ghost predicate IsMinted(proto: Proto, version: int, ops: seq<Op>, nonce: bytes, storageId: bytes, id: bytes) {
    exists groups ::
      && EntitiesAscend(groups) && IsCanonical(ops, Flatten(groups))
      && var raw := [3] + proto.marshal(MacaroonId(nonce, storageId, groups));
         if version == 0 || version == 1 then id == Base64.Encode(raw) && forall c :: c in id ==> Base64.IsText(c)
         else id == raw
  }

  lemma MintedIs(proto: Proto, version: int, ops: seq<Op>, groups: seq<IdOp>, nonce: bytes, storageId: bytes)
    requires Grouped(groups) && IsCanonical(ops, Flatten(groups))
    ensures IsMinted(proto, version, ops, nonce, storageId,
      MintId(proto, version, MacaroonId(nonce, storageId, groups)))
  {
    OneGroupForEachEntity(groups);
    Base64.EncodedIsText([3] + proto.marshal(MacaroonId(nonce, storageId, groups)));
  }

  /** NewMacaroon up to the id; None when there are no operations. */
  method NewMacaroonId(proto: Proto, version: int, ops: array<Op>, nonce: bytes, storageId: bytes)
    returns (r: Option<bytes>)
    requires proto.RoundTrips()
    ensures r.None? <==> ops.Length == 0
    ensures r.Some? ==> IsMinted(proto, version, ops[..], nonce, storageId, r.value)
    ensures r.Some? ==> forall legacyOp ::
      DecodeMacaroonId(proto, legacyOp, r.value).Ok? && DecodeMacaroonId(proto, legacyOp, r.value).value.0 == storageId
      && IsCanonical(ops[..], DecodeMacaroonId(proto, legacyOp, r.value).value.1)
  {
    if ops.Length == 0 {
      return None;
    }
    var canon := CanonicalOps(ops);
    assert ops[0] in ops[..];
    var groups := MacaroonIdOps(canon);
    r := Some(MintId(proto, version, MacaroonId(nonce, storageId, groups)));
    StrictHasNoRepeats(canon);
    MintedIs(proto, version, ops[..], groups, nonce, storageId);
    forall legacyOp ensures DecodeMacaroonId(proto, legacyOp, r.value) == Ok((storageId, canon)) {
      DecodeMinted(proto, version, legacyOp, ops[..], canon, groups, nonce, storageId);
    }
  }
}
