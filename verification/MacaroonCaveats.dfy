/** The caveats of a bakery macaroon (bakery/macaroon.go): the choice of ids for third-party caveats and
    the external payloads kept for them. */
module MacaroonCaveats {
  import opened Basics
  import opened Macaroons
  import opened Uvarints

  /** The ids that newCaveatId avoids: those of caveats with a verification id. */
  ghost function ThirdPartyIds(caveats: seq<Cav>): set<bytes> {
    set c | c in caveats && c.verificationId.Some? :: c.id
  }

  function ThirdPartyCount(caveats: seq<Cav>): nat {
    if caveats == [] then 0
    else ThirdPartyCount(caveats[1..]) + if caveats[0].verificationId.Some? then 1 else 0
  }

  lemma {:induction false} NoMoreIdsThanCaveats(caveats: seq<Cav>)
    ensures |ThirdPartyIds(caveats)| <= ThirdPartyCount(caveats)
  {
    if caveats != [] {
      var c := caveats[0];
      NoMoreIdsThanCaveats(caveats[1..]);
      assert caveats == [c] + caveats[1..];
      if c.verificationId.Some? {
        assert ThirdPartyIds(caveats) == ThirdPartyIds(caveats[1..]) + {c.id};
      } else {
        assert ThirdPartyIds(caveats) == ThirdPartyIds(caveats[1..]);
      }
    }
  }

  lemma SubsetIsNotLarger<T>(a: set<T>, b: set<T>)
    requires a <= b
    ensures |a| <= |b|
  {
    assert b == a + (b - a);
  }

  /** The prefix of all ids made from a base. */
  function IdPrefix(base: bytes): bytes {
    if |base| > 0 then base else [VERSION3]
  }

  function Candidate(base: bytes, i: nat): bytes {
    IdPrefix(base) + Uvarint(i)
  }

  lemma CandidatesDiffer(base: bytes, i: nat, j: nat)
    requires Candidate(base, i) == Candidate(base, j)
    ensures i == j
  {
    var n := |IdPrefix(base)|;
    assert Candidate(base, i)[n..] == Uvarint(i) && Candidate(base, j)[n..] == Uvarint(j);
    UvarintInjective(i, j);
  }

  /** Looks for an id that no third-party caveat has, starting from the number of external payloads. It
      tries at most one candidate more than there are third-party caveats, whatever their ids. */
  method NewCaveatId(base: bytes, caveats: seq<Cav>, start: nat) returns (id: bytes, ghost tries: nat)
    ensures id !in ThirdPartyIds(caveats)
    ensures 1 <= tries <= ThirdPartyCount(caveats) + 1
    ensures id == (if base == [] then [3] else base) + Uvarint(start + tries - 1)
    ensures tries == ThirdPartyCount(caveats) + 1 <==>
      forall k :: start <= k < start + ThirdPartyCount(caveats) ==> Candidate(base, k) in ThirdPartyIds(caveats)
    ensures forall k :: start <= k < start + tries - 1 ==> Candidate(base, k) in ThirdPartyIds(caveats)
  {
    var prefix := if |base| > 0 then base else [VERSION3];
    var i := start;
    ghost var ids := ThirdPartyIds(caveats);
    NoMoreIdsThanCaveats(caveats);
    while true
      invariant start <= i && i - start <= |ids|
      invariant forall k :: start <= k < i ==> Candidate(base, k) in ids
      decreases |ids| + start - i
    {
      id := AppendUvarint(prefix, i);
      assert id == Candidate(base, i);
      var taken := IsTaken(caveats, id);
      if !taken {
        tries := i - start + 1;
        return;
      }
      CandidatesFit(base, start, i + 1, ids);
      i := i + 1;
    }
  }

  ghost function Tried(base: bytes, start: nat, end: nat): set<bytes>
    requires start <= end
    decreases end
  {
    if start == end then {} else Tried(base, start, end - 1) + {Candidate(base, end - 1)}
  }

  /** Candidates that are all in a set are no more than its elements. */
  lemma CandidatesFit(base: bytes, start: nat, end: nat, ids: set<bytes>)
    requires start <= end && forall k :: start <= k < end ==> Candidate(base, k) in ids
    ensures end - start <= |ids|
  {
    TriedAre(base, start, end);
    TriedCount(base, start, end);
    SubsetIsNotLarger(Tried(base, start, end), ids);
  }

  lemma {:induction false} TriedAre(base: bytes, start: nat, end: nat)
    requires start <= end
    ensures forall x :: x in Tried(base, start, end) ==> exists k :: start <= k < end && x == Candidate(base, k)
    decreases end
  {
    if start < end {
      TriedAre(base, start, end - 1);
    }
  }

  lemma {:induction false} TriedCount(base: bytes, start: nat, end: nat)
    requires start <= end
    ensures |Tried(base, start, end)| == end - start
    decreases end
  {
    if start < end {
      TriedCount(base, start, end - 1);
      var tried, x := Tried(base, start, end - 1), Candidate(base, end - 1);
      if x in tried {
        TriedAre(base, start, end - 1);
        var k :| start <= k < end - 1 && x == Candidate(base, k);
        CandidatesDiffer(base, k, end - 1);
      }
      assert |tried + {x}| == |tried| + 1;
    }
  }

  method IsTaken(caveats: seq<Cav>, id: bytes) returns (taken: bool)
    ensures taken <==> id in ThirdPartyIds(caveats)
  {
    for j := 0 to |caveats|
      invariant forall k :: 0 <= k < j ==> !(caveats[k].verificationId.Some? && caveats[k].id == id)
    {
      if caveats[j].verificationId.Some? && caveats[j].id == id {
        assert caveats[j] in caveats;
        return true;
      }
    }
    return false;
  }

  /** A Go map: a reference to its contents. */
  class DataMap {
    var m: map<bytes, bytes>

    constructor (m: map<bytes, bytes>)
      ensures this.m == m
    {
      this.m := m;
    }
  }

  /** What AddCaveat learns about the third party of a caveat: its bakery version, and the encoding of the
      caveat for a given version and condition, which may fail. */
  datatype ThirdParty = ThirdParty(version: int, encode: (int, bytes) -> Option<bytes>)

  class Macaroon {
    var caveats: seq<Cav>
    const version: int
    var caveatData: DataMap?
    const caveatIdPrefix: bytes

    /** The payloads made for the external third-party caveats added so far, and the ids of payloads whose
        caveat could not be added. */
    ghost var made: map<bytes, bytes>
    ghost var orphans: set<bytes>

    function Data(): map<bytes, bytes>
      reads this, caveatData
    {
      if caveatData == null then map[] else caveatData.m
    }

    ghost predicate Valid()
      reads this, caveatData
    {
      PayloadsOk(version, caveats, Data(), made, orphans)
    }

    constructor (version: int, caveatIdPrefix: bytes)
      ensures Valid() && caveats == [] && caveatData == null && orphans == {} && made == map[]
      ensures this.version == (if version > LATEST_VERSION then LATEST_VERSION else version)
      ensures this.caveatIdPrefix == caveatIdPrefix
    {
      this.version := if version > LATEST_VERSION then LATEST_VERSION else version;
      this.caveatIdPrefix := caveatIdPrefix;
      caveats, caveatData, made, orphans := [], null, map[], {};
    }

    /** The copy of a macaroon, with a payload map of its own. */
    constructor Clone(o: Macaroon)
      requires o.Valid()
      ensures Valid() && version == o.version && caveatIdPrefix == o.caveatIdPrefix && caveats == o.caveats
      ensures caveatData != null && fresh(caveatData) && Data() == o.Data() && made == o.made && orphans == o.orphans
    {
      version, caveatIdPrefix, caveats := o.version, o.caveatIdPrefix, o.caveats;
      made, orphans := o.made, o.orphans;
      var d := new DataMap(if o.caveatData == null then map[] else o.caveatData.m);
      caveatData := d;
    }

    /** The error of MarshalJSON for a pre-version3 macaroon with external payloads never occurs. */
    method MarshalJSONError() returns (err: bool)
      requires Valid()
      ensures !err
    {
      err := version < VERSION3 && caveatData != null && |caveatData.m| > 0;
    }

    method AddFirstParty(condition: bytes, ok: bool)
      requires Valid()
      modifies `caveats
      ensures Valid() && caveats == if ok then old(caveats) + [Cav(condition, None, "")] else old(caveats)
    {
      if ok {
        IdsAppend(caveats, Cav(condition, None, ""));
        caveats := caveats + [Cav(condition, None, "")];
      }
    }

    /** Chooses the id of a third-party caveat that was encoded for version v, and keeps the payload if it
        is external. */
    method PlacePayload(v: int, payload: bytes) returns (id: bytes)
      requires Valid() && v <= version
      modifies `caveatData, caveatData
      ensures caveatData == old(caveatData) || (old(caveatData) == null && fresh(caveatData))
      ensures if v < VERSION3 then id == payload && Data() == old(Data())
              else id !in ThirdPartyIds(caveats) && Data() == old(Data())[id := payload]
    {
      if v < VERSION3 {
        return payload;
      }
      ghost var tries;
      id, tries := NewCaveatId(caveatIdPrefix, caveats, if caveatData == null then 0 else |caveatData.m|);
      if caveatData == null {
        caveatData := new DataMap(map[]);
      }
      caveatData.m := caveatData.m[id := payload];
    }

    /** Adds a third-party caveat; info is None when the third party cannot be found, and verificationId is
        None when the underlying macaroon rejects the caveat. */
    method AddThirdParty(location: string, condition: bytes, info: Option<ThirdParty>, verificationId: Option<bytes>)
      returns (ok: bool)
      requires Valid()
      modifies this, caveatData
      ensures Valid() && (caveatData == old(caveatData) || (old(caveatData) == null && fresh(caveatData)))
      ensures forall id :: id in old(made) ==> id in Data() && Data()[id] == old(Data())[id] && id in made
      ensures !ok ==> caveats == old(caveats) && made == old(made)
      ensures info.None? || verificationId.None? ==> !ok
      ensures info.Some? && verificationId.Some? ==>
        (ok <==> info.value.encode(Min(version, info.value.version), condition).Some?)
      ensures ok ==> orphans <= old(orphans)
      ensures ok ==>
        var v := Min(version, info.value.version);
        var payload := info.value.encode(v, condition).value;
        exists id ::
          && caveats == old(caveats) + [Cav(id, verificationId, location)]
          && PayloadKept(v, payload, old(caveats), id, old(Data()), Data())
          && PayloadKept(v, payload, old(caveats), id, old(made), made)
    {
      if info.None? {
        return false;
      }
      var v := Min(version, info.value.version);
      var payload := info.value.encode(v, condition);
      if payload.None? {
        return false;
      }
      var id := PlacePayload(v, payload.value);
      if verificationId.None? {
        if v >= VERSION3 {
          orphans := orphans + {id};
        }
        return false;
      }
      IdsAppend(caveats, Cav(id, verificationId, location));
      caveats := caveats + [Cav(id, verificationId, location)];
      if v >= VERSION3 {
        made := made[id := payload.value];
        orphans := orphans - {id};
      }
      return true;
    }

    /** AddCaveat: resolved is the condition in the macaroon's namespace, local the third party of a local
        location, found what the locator says of another one, and accepted whether the underlying macaroon
        takes a first-party caveat. */
    method AddCaveat(location: string, condition: bytes, resolved: bytes, hasKey: bool, local: Option<ThirdParty>,
                     found: Option<ThirdParty>, verificationId: Option<bytes>, accepted: bool) returns (ok: bool)
      requires Valid()
      modifies this, caveatData
      ensures Valid() && (caveatData == old(caveatData) || (old(caveatData) == null && fresh(caveatData)))
      ensures forall id :: id in old(made) ==> id in Data() && Data()[id] == old(Data())[id] && id in made
      ensures ok ==> orphans <= old(orphans)
      ensures !ok ==> caveats == old(caveats) && made == old(made)
      ensures location == "" ==> ok == accepted && Data() == old(Data())
      ensures location == "" && ok ==> caveats == old(caveats) + [Cav(resolved, None, "")]
      ensures location != "" ==>
        var info := if local.Some? then local else found;
        var cond := if local.Some? then ['t' as int, 'r' as int, 'u' as int, 'e' as int] else condition;
        var place := if local.Some? then "local" else location;
        if !hasKey || (local.Some? && condition != []) || info.None? || verificationId.None? then !ok
        else
          var v := Min(version, info.value.version);
          var payload := info.value.encode(v, cond);
          && (ok <==> payload.Some?)
          && (ok ==> exists id ::
                && caveats == old(caveats) + [Cav(id, verificationId, place)]
                && PayloadKept(v, payload.value, old(caveats), id, old(Data()), Data()))
    {
      if location == "" {
        AddFirstParty(resolved, accepted);
        return accepted;
      }
      if !hasKey {
        return false;
      }
      if local.Some? {
        if condition != [] {
          return false;
        }
        ok := AddThirdParty("local", TRUE_CONDITION, local, verificationId);
      } else {
        ok := AddThirdParty(location, condition, found, verificationId);
      }
    }
  }

  /** id identifies a payload encoded for version v: it is the payload itself below version 3, otherwise a new
      id under which the payload is kept. */
  ghost predicate PayloadKept(v: int, payload: bytes, before: seq<Cav>, id: bytes, data: map<bytes, bytes>,
                              data': map<bytes, bytes>)
  {
    if v < VERSION3 then id == payload && data' == data
    else id !in ThirdPartyIds(before) && data' == data[id := payload]
  }

  /** The condition of a local caveat. */
  const TRUE_CONDITION: bytes := ['t' as int, 'r' as int, 'u' as int, 'e' as int]

  function Min(a: int, b: int): (m: int)
    ensures m <= a && m <= b && (m == a || m == b)
  {
    if a < b then a else b
  }

  lemma IdsAppend(caveats: seq<Cav>, c: Cav)
    ensures ThirdPartyIds(caveats + [c]) == ThirdPartyIds(caveats) + if c.verificationId.Some? then {c.id} else {}
  {
    assert forall x :: x in caveats + [c] <==> x in caveats || x == c;
  }

  /** External payloads exist from version 3 on; they are those of the caveats added, each still the one
      made for its caveat, besides the orphans. */
  ghost predicate PayloadsOk(version: int, caveats: seq<Cav>, data: map<bytes, bytes>, made: map<bytes, bytes>,
                             orphans: set<bytes>)
  {
    && (version < VERSION3 ==> data == map[])
    && data.Keys == made.Keys + orphans && made.Keys !! orphans
    && made.Keys <= ThirdPartyIds(caveats)
    && forall id :: id in made ==> data[id] == made[id]
  }
}
