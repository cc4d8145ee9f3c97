/** Declared attributes: how they are inferred and checked (bakery/checkers/declared.go) and how a third
    party makes sure that the needed ones are declared (bakery/discharge.go). */
module Declared {
  import opened Basics
  import opened Macaroons
  import opened Text
  import Namespaces

  const COND_DECLARED := "declared"
  const COND_NEED_DECLARED := "need-declared"
  const COND_ERROR := "error"

  datatype Caveat = Caveat(condition: string, ns: string, location: string)

  // ---------- inference ----------

  /** The key and value that a condition declares, if its name is declaredCond and it has both. */
  function DeclaredPair(declaredCond: string, cond: string): Option<(string, string)> {
    match ParseCaveat(cond)
    case None => None
    case Some((name, rest)) => if name != declaredCond then None else SplitPair(rest, ' ')
  }

  /** Which conditions declare, and what. */
  lemma DeclaredPairIff(declaredCond: string, cond: string, key: string, val: string)
    ensures DeclaredPair(declaredCond, cond) == Some((key, val)) <==>
      declaredCond != "" && ' ' !in declaredCond && ' ' !in key && cond == declaredCond + " " + (key + " " + val)
  {
    var rest := key + " " + val;
    assert rest == key + [' '] + val && rest != "";
    ParseCaveatIff(cond, declaredCond, rest);
    SplitPairIff(rest, ' ', key, val);
    if DeclaredPair(declaredCond, cond) == Some((key, val)) {
      SplitPairIff(ParseCaveat(cond).value.1, ' ', key, val);
    }
  }

  type Pairs = set<(string, string)>

  /** All pairs that the conditions declare. */
  ghost function DeclaredBy(declaredCond: string, conds: seq<string>): Pairs {
    set c | c in conds && DeclaredPair(declaredCond, c).Some? :: DeclaredPair(declaredCond, c).value
  }

  /** info has exactly the keys that are declared with a single value, with that value. */
  ghost predicate IsInferred(pairs: Pairs, info: map<string, string>) {
    forall key, val :: HasValue(info, key, val) <==> OnlyValue(pairs, key, val)
  }

  ghost predicate HasValue(info: map<string, string>, key: string, val: string) {
    key in info && info[key] == val
  }

  ghost predicate OnlyValue(pairs: Pairs, key: string, val: string) {
    (key, val) in pairs && forall v :: (key, v) in pairs ==> v == val
  }

  /** The name of declared conditions that inference looks for when the standard namespace has a prefix. */
  function DeclaredCond(prefix: string): string {
    prefix + COND_DECLARED
  }

  method InferDeclaredFromConditions(prefix: string, conds: seq<string>) returns (info: map<string, string>)
    ensures IsInferred(DeclaredBy(prefix + "declared", conds), info)
  {
    var declaredCond := prefix + COND_DECLARED;
    var conflicts: seq<string> := [];
    info := map[];
    ghost var pairs := {};
    for i := 0 to |conds|
      invariant pairs == DeclaredBy(declaredCond, conds[..i]) && Collected(pairs, info, conflicts)
    {
      DeclaredByNext(declaredCond, conds, i);
      var pair := DeclaredPair(declaredCond, conds[i]);
      if pair.None? {
        continue;
      }
      var (key, val) := pair.value;
      CollectNext(pairs, key, val, info, conflicts);
      pairs := pairs + {(key, val)};
      if key in info && info[key] != val {
        conflicts := conflicts + [key];
        continue;
      }
      info := info[key := val];
    }
    assert conds[..|conds|] == conds;
    CollectedIsInferred(pairs, info, conflicts);
    info := WithoutKeys(info, conflicts);
  }

  lemma DeclaredByNext(declaredCond: string, conds: seq<string>, i: nat)
    requires i < |conds|
    ensures var pair := DeclaredPair(declaredCond, conds[i]);
      DeclaredBy(declaredCond, conds[..i + 1]) ==
        DeclaredBy(declaredCond, conds[..i]) + if pair.None? then {} else {pair.value}
  {
    assert conds[..i + 1] == conds[..i] + [conds[i]];
  }

  /** info has the first value of every declared key; the keys with other values are conflicts. */
  ghost predicate Collected(pairs: Pairs, info: map<string, string>, conflicts: seq<string>) {
    && (forall key :: key in info ==> (key, info[key]) in pairs)
    && (forall p :: p in pairs ==> p.0 in info && (p.0 in conflicts || info[p.0] == p.1))
    && (forall key :: key in conflicts ==> key in info && HasOther(pairs, key, info[key]))
  }

  ghost predicate HasOther(pairs: Pairs, key: string, val: string) {
    exists p :: p in pairs && p.0 == key && p.1 != val
  }

  lemma CollectNext(pairs: Pairs, key: string, val: string, info: map<string, string>, conflicts: seq<string>)
    requires Collected(pairs, info, conflicts)
    ensures if key in info && info[key] != val then Collected(pairs + {(key, val)}, info, conflicts + [key])
            else Collected(pairs + {(key, val)}, info[key := val], conflicts)
  {
    forall k | k in conflicts ensures HasOther(pairs + {(key, val)}, k, info[k]) {
      var p :| p in pairs && p.0 == k && p.1 != info[k];
      assert p in pairs + {(key, val)};
    }
    if key in info && info[key] != val {
      assert (key, val) in pairs + {(key, val)} && HasOther(pairs + {(key, val)}, key, info[key]);
    }
  }

  lemma CollectedIsInferred(pairs: Pairs, info: map<string, string>, conflicts: seq<string>)
    requires Collected(pairs, info, conflicts)
    ensures IsInferred(pairs, map k | k in info && k !in conflicts :: info[k])
  {
    var r := map k | k in info && k !in conflicts :: info[k];
    forall key, val ensures HasValue(r, key, val) <==> OnlyValue(pairs, key, val) {
      if key in conflicts {
        var p :| p in pairs && p.0 == key && p.1 != info[key];
        assert (key, p.1) in pairs && (key, info[key]) in pairs;
      }
    }
  }

  method WithoutKeys(m: map<string, string>, keys: seq<string>) returns (r: map<string, string>)
    ensures r == map k | k in m && k !in keys :: m[k]
  {
    r := m;
    for i := 0 to |keys|
      invariant r == map k | k in m && k !in keys[..i] :: m[k]
    {
      r := r - {keys[i]};
      assert keys[..i + 1] == keys[..i] + [keys[i]];
    }
    assert keys[..|keys|] == keys;
  }

  /** The order of the conditions, and repetitions, do not matter. */
  lemma InferenceIsOrderIndependent(declaredCond: string, a: seq<string>, b: seq<string>, ia: map<string, string>,
                                    ib: map<string, string>)
    requires IsInferred(DeclaredBy(declaredCond, a), ia) && IsInferred(DeclaredBy(declaredCond, b), ib)
    requires forall c :: c in a <==> c in b
    ensures ia == ib
  {
    assert DeclaredBy(declaredCond, a) == DeclaredBy(declaredCond, b);
    assert forall key :: key in ia ==> HasValue(ib, key, ia[key]);
    assert forall key :: key in ib ==> HasValue(ia, key, ib[key]);
  }

  /** checkDeclared, given the inferred attributes. */
  predicate CheckDeclared(info: map<string, string>, arg: string) {
    match SplitPair(arg, ' ')
    case None => false
    case Some((key, val)) => key in info && info[key] == val
  }

  ghost predicate Consistent(pairs: Pairs) {
    forall p, q :: p in pairs && q in pairs && p.0 == q.0 ==> p == q
  }

  /** The well-formed declared condition passes the check of its argument. */
  predicate PassesIfDeclared(declaredCond: string, info: map<string, string>, cond: string) {
    DeclaredPair(declaredCond, cond).Some? ==> CheckDeclared(info, ParseCaveat(cond).value.1)
  }

  /** All well-formed declared conditions pass the check exactly when no key is declared with two values. */
  lemma DeclaredConsistentOrFail(declaredCond: string, conds: seq<string>, info: map<string, string>)
    requires IsInferred(DeclaredBy(declaredCond, conds), info)
    ensures (forall c :: c in conds ==> PassesIfDeclared(declaredCond, info, c)) <==>
      Consistent(DeclaredBy(declaredCond, conds))
  {
    var pairs := DeclaredBy(declaredCond, conds);
    forall c | c in conds && DeclaredPair(declaredCond, c).Some?
      ensures var p := DeclaredPair(declaredCond, c).value;
        p in pairs && (PassesIfDeclared(declaredCond, info, c) <==> OnlyValue(pairs, p.0, p.1))
    {
      var p := DeclaredPair(declaredCond, c).value;
      assert HasValue(info, p.0, p.1) <==> OnlyValue(pairs, p.0, p.1);
    }
    if forall c :: c in conds ==> PassesIfDeclared(declaredCond, info, c) {
      forall p, q | p in pairs && q in pairs && p.0 == q.0 ensures p == q {
        var c :| c in conds && DeclaredPair(declaredCond, c) == Some(p);
        assert OnlyValue(pairs, p.0, p.1) && (p.0, q.1) in pairs;
      }
    }
    if Consistent(pairs) {
      forall c | c in conds ensures PassesIfDeclared(declaredCond, info, c) {
        if DeclaredPair(declaredCond, c).Some? {
          var p := DeclaredPair(declaredCond, c).value;
          forall v | (p.0, v) in pairs ensures v == p.1 { assert (p.0, v) == p; }
        }
      }
    }
  }

  // ---------- the declarations of a slice ----------

  /** The conditions that inference looks at: those of the caveats without a location, of all macaroons. text
      is the conversion of an id to a string. */
  function Unlocated(text: bytes -> string, ms: seq<seq<Cav>>): seq<string> {
    if ms == [] then [] else Unlocated(text, ms[..|ms| - 1]) + UnlocatedOf(text, ms[|ms| - 1])
  }

  function UnlocatedOf(text: bytes -> string, m: seq<Cav>): seq<string> {
    if m == [] then [] else
      var n := |m| - 1;
      UnlocatedOf(text, m[..n]) + if m[n].location == "" then [text(m[n].id)] else []
  }

  /** InferDeclared */
  method InferDeclared(prefix: string, text: bytes -> string, ms: seq<seq<Cav>>) returns (info: map<string, string>)
    ensures IsInferred(DeclaredBy(prefix + "declared", Unlocated(text, ms)), info)
  {
    var conditions := [];
    for i := 0 to |ms|
      invariant conditions == Unlocated(text, ms[..i])
    {
      assert ms[..i + 1][..i] == ms[..i];
      ghost var before := conditions;
      var m := ms[i];
      for j := 0 to |m|
        invariant conditions == before + UnlocatedOf(text, m[..j])
      {
        assert m[..j + 1][..j] == m[..j];
        if m[j].location == "" {
          conditions := conditions + [text(m[j].id)];
        }
      }
      assert m[..|m|] == m;
    }
    assert ms[..|ms|] == ms;
    info := InferDeclaredFromConditions(prefix, conditions);
  }

  lemma {:induction false} UnlocatedAre(text: bytes -> string, ms: seq<seq<Cav>>)
    ensures forall c :: c in Unlocated(text, ms) <==>
      exists i, j :: 0 <= i < |ms| && 0 <= j < |ms[i]| && ms[i][j].location == "" && text(ms[i][j].id) == c
  {
    if ms != [] {
      var n := |ms| - 1;
      UnlocatedAre(text, ms[..n]);
      UnlocatedOfAre(text, ms[n]);
    }
  }

  lemma {:induction false} UnlocatedOfAre(text: bytes -> string, m: seq<Cav>)
    ensures forall c :: c in UnlocatedOf(text, m) <==>
      exists j :: 0 <= j < |m| && m[j].location == "" && text(m[j].id) == c
  {
    if m != [] {
      UnlocatedOfAre(text, m[..|m| - 1]);
    }
  }

  /** All declared conditions of the slice's first-party caveats, those without a verification id, pass. */
  ghost predicate FirstPartiesPass(text: bytes -> string, ms: seq<seq<Cav>>, declaredCond: string,
                                   info: map<string, string>)
  {
    forall i, j :: 0 <= i < |ms| && 0 <= j < |ms[i]| && !ms[i][j].ThirdParty() ==>
      PassesIfDeclared(declaredCond, info, text(ms[i][j].id))
  }

  /** The two selections of caveats agree where a declaration is concerned. */
  ghost predicate SelectionsAgree(text: bytes -> string, ms: seq<seq<Cav>>, declaredCond: string) {
    forall i, j :: 0 <= i < |ms| && 0 <= j < |ms[i]| && DeclaredPair(declaredCond, text(ms[i][j].id)).Some? ==>
      (ms[i][j].location == "" <==> !ms[i][j].ThirdParty())
  }

  /** The pair is declared by a first-party caveat of the slice. */
  ghost predicate Checked(text: bytes -> string, ms: seq<seq<Cav>>, declaredCond: string, p: (string, string)) {
    exists i, j :: 0 <= i < |ms| && 0 <= j < |ms[i]| && !ms[i][j].ThirdParty()
                   && DeclaredPair(declaredCond, text(ms[i][j].id)) == Some(p)
  }

  /** All checks of declarations in a slice pass exactly when each of the declarations checked is the only one of
      its key among those that inference sees. */
  lemma SliceDeclarationsPass(text: bytes -> string, ms: seq<seq<Cav>>, declaredCond: string, info: map<string, string>)
    requires IsInferred(DeclaredBy(declaredCond, Unlocated(text, ms)), info)
    ensures FirstPartiesPass(text, ms, declaredCond, info) <==>
      forall p :: Checked(text, ms, declaredCond, p) ==>
        OnlyValue(DeclaredBy(declaredCond, Unlocated(text, ms)), p.0, p.1)
  {
    var pairs := DeclaredBy(declaredCond, Unlocated(text, ms));
    forall c | DeclaredPair(declaredCond, c).Some?
      ensures var p := DeclaredPair(declaredCond, c).value;
        PassesIfDeclared(declaredCond, info, c) <==> OnlyValue(pairs, p.0, p.1)
    {
      var p := DeclaredPair(declaredCond, c).value;
      assert HasValue(info, p.0, p.1) <==> OnlyValue(pairs, p.0, p.1);
    }
    if FirstPartiesPass(text, ms, declaredCond, info) {
      forall p | Checked(text, ms, declaredCond, p) ensures OnlyValue(pairs, p.0, p.1) {
        var i, j :| 0 <= i < |ms| && 0 <= j < |ms[i]| && !ms[i][j].ThirdParty()
                    && DeclaredPair(declaredCond, text(ms[i][j].id)) == Some(p);
        assert PassesIfDeclared(declaredCond, info, text(ms[i][j].id));
      }
    }
    if forall p :: Checked(text, ms, declaredCond, p) ==> OnlyValue(pairs, p.0, p.1) {
      forall i, j | 0 <= i < |ms| && 0 <= j < |ms[i]| && !ms[i][j].ThirdParty()
        ensures PassesIfDeclared(declaredCond, info, text(ms[i][j].id))
      {
        var pair := DeclaredPair(declaredCond, text(ms[i][j].id));
        if pair.Some? {
          assert Checked(text, ms, declaredCond, pair.value);
        }
      }
    }
  }

  /** When a caveat that declares has no location exactly if it has no verification id, the declarations of a
      slice all pass if and only if no key is declared with two values. */
  lemma SliceConsistentOrFail(text: bytes -> string, ms: seq<seq<Cav>>, declaredCond: string, info: map<string, string>)
    requires IsInferred(DeclaredBy(declaredCond, Unlocated(text, ms)), info) && SelectionsAgree(text, ms, declaredCond)
    ensures FirstPartiesPass(text, ms, declaredCond, info) <==>
      Consistent(DeclaredBy(declaredCond, Unlocated(text, ms)))
  {
    var conds := Unlocated(text, ms);
    var pairs := DeclaredBy(declaredCond, conds);
    SliceDeclarationsPass(text, ms, declaredCond, info);
    UnlocatedAre(text, ms);
    forall p ensures Checked(text, ms, declaredCond, p) <==> p in pairs {
      if p in pairs {
        var c :| c in conds && DeclaredPair(declaredCond, c) == Some(p);
        var i, j :| 0 <= i < |ms| && 0 <= j < |ms[i]| && ms[i][j].location == "" && text(ms[i][j].id) == c;
        assert !ms[i][j].ThirdParty();
      }
      if Checked(text, ms, declaredCond, p) {
        var i, j :| 0 <= i < |ms| && 0 <= j < |ms[i]| && !ms[i][j].ThirdParty()
                    && DeclaredPair(declaredCond, text(ms[i][j].id)) == Some(p);
        assert text(ms[i][j].id) in conds;
      }
    }
    OnlyValuesAreConsistent(pairs);
  }

  lemma OnlyValuesAreConsistent(pairs: Pairs)
    ensures (forall p :: p in pairs ==> OnlyValue(pairs, p.0, p.1)) <==> Consistent(pairs)
  {
    if Consistent(pairs) {
      forall p, v | p in pairs && (p.0, v) in pairs ensures v == p.1 {
        assert (p.0, v) == p;
      }
    }
    if forall p :: p in pairs ==> OnlyValue(pairs, p.0, p.1) {
      forall p, q | p in pairs && q in pairs && p.0 == q.0 ensures p == q {
        assert OnlyValue(pairs, p.0, p.1) && (p.0, q.1) in pairs;
      }
    }
  }

  /** The selections differ for a third-party caveat without a location: what its id declares is inferred, but
      never checked, and fails the checks of other values. */
  lemma UnlocatedThirdPartyConflicts(text: bytes -> string, first: Cav, third: Cav, declaredCond: string, key: string,
                                     val: string, other: string, info: map<string, string>)
    requires first.location == "" && !first.ThirdParty() && third.location == "" && third.ThirdParty()
    requires DeclaredPair(declaredCond, text(first.id)) == Some((key, val)) && val != other
    requires DeclaredPair(declaredCond, text(third.id)) == Some((key, other))
    requires IsInferred(DeclaredBy(declaredCond, Unlocated(text, [[first, third]])), info)
    ensures key !in info && !FirstPartiesPass(text, [[first, third]], declaredCond, info)
  {
    var ms := [[first, third]];
    var conds := Unlocated(text, ms);
    UnlocatedAre(text, ms);
    assert ms[0][0] == first && ms[0][1] == third;
    assert text(first.id) in conds && text(third.id) in conds;
    var pairs := DeclaredBy(declaredCond, conds);
    assert (key, val) in pairs && (key, other) in pairs;
    forall v ensures !HasValue(info, key, v) {
      assert !OnlyValue(pairs, key, v);
    }
    assert key in info ==> HasValue(info, key, info[key]);
    assert !PassesIfDeclared(declaredCond, info, text(ms[0][0].id));
  }

  // ---------- declaring ----------

  function ErrorCaveat(text: string): Caveat {
    Caveat(Condition(COND_ERROR, text), Namespaces.STD_NAMESPACE, "")
  }

  function DeclaredCaveat(key: string, val: string): Caveat {
    if ' ' in key || key == "" then ErrorCaveat("invalid caveat 'declared' key " + key)
    else Caveat(Condition(COND_DECLARED, key + " " + val), Namespaces.STD_NAMESPACE, "")
  }

  /** A key that cannot be declared gives a caveat that declares nothing and that no checker knows. */
  lemma InvalidKeyGivesError(key: string, val: string)
    requires key == "" || ' ' in key
    ensures var cond := DeclaredCaveat(key, val).condition;
      ParseCaveat(cond).Some? && ParseCaveat(cond).value.0 == "error" && DeclaredPair(COND_DECLARED, cond) == None
  {
    ParseCondition(COND_ERROR, "invalid caveat 'declared' key " + key);
  }

  /** ConditionWithPrefix */
  function WithPrefix(prefix: string, condition: string): string {
    if prefix == "" then condition else prefix + ":" + condition
  }

  lemma DeclaredCaveatParses(name: string, key: string, val: string)
    requires name != "" && ' ' !in name && key != "" && ' ' !in key
    ensures DeclaredPair(name, Condition(name, key + " " + val)) == Some((key, val))
  {
    ParseCondition(name, key + " " + val);
    SplitPairJoined(key, ' ', val);
    assert key + " " + val == key + [' '] + val;
  }

  /** A declared caveat that is added under a standard namespace with the given prefix is seen by inference
      exactly when the prefix is empty: inference leaves out the colon that the condition has. */
  lemma DeclaredIsSeenOnlyWithoutPrefix(prefix: string, key: string, val: string)
    requires Namespaces.IsValidPrefix(prefix) && key != "" && ' ' !in key
    ensures var seen := DeclaredPair(DeclaredCond(prefix), WithPrefix(prefix, DeclaredCaveat(key, val).condition));
      && (seen == Some((key, val)) <==> prefix == "")
      && (prefix != "" ==> seen == None)
  {
    var name := WithPrefix(prefix, COND_DECLARED);
    assert ' ' !in prefix by {
      forall c | c in prefix ensures c != ' ' { assert Namespaces.IsSpace(' '); }
    }
    assert WithPrefix(prefix, Condition(COND_DECLARED, key + " " + val)) == Condition(name, key + " " + val);
    ParseCondition(name, key + " " + val);
    DeclaredCaveatParses(name, key, val);
    assert prefix == "" ==> DeclaredCond(prefix) == COND_DECLARED;
    assert prefix != "" ==> |DeclaredCond(prefix)| != |name|;
  }

  // ---------- need-declared ----------

  function NeedDeclaredCaveat(cav: Caveat, keys: seq<string>): Caveat {
    if cav.location == "" then ErrorCaveat("need-declared caveat is not third-party")
    else Caveat(COND_NEED_DECLARED + " " + Join(keys, ',') + " " + cav.condition, "", cav.location)
  }

  /** A caveat that is no third party's cannot be wrapped: it becomes an error caveat of the first party. */
  lemma FirstPartyIsNotWrapped(cav: Caveat, keys: seq<string>)
    requires cav.location == ""
    ensures var wrapped := NeedDeclaredCaveat(cav, keys);
      && wrapped.location == "" && ParseCaveat(wrapped.condition).Some?
      && ParseCaveat(wrapped.condition).value.0 == "error"
  {
    ParseCondition(COND_ERROR, "need-declared caveat is not third-party");
  }

  /** The third party's checker: the caveats for a condition, or an error. */
  type ThirdPartyChecker = string -> Option<seq<Caveat>>

  ghost predicate DeclaresKey(caveats: seq<Caveat>, key: string) {
    exists i :: 0 <= i < |caveats| && IsDeclarationOf(caveats[i], key)
  }

  predicate IsDeclarationOf(cav: Caveat, key: string) {
    cav.location == "" && DeclaredPair(COND_DECLARED, cav.condition).Some?
      && DeclaredPair(COND_DECLARED, cav.condition).value.0 == key
  }

  /** A first-party declared caveat without a value, which the protocol rejects. */
  predicate IsMalformed(cav: Caveat) {
    && cav.location == "" && ParseCaveat(cav.condition).Some?
    && ParseCaveat(cav.condition).value.0 == COND_DECLARED && DeclaredPair(COND_DECLARED, cav.condition).None?
  }

  /** The empty declarations of the needed keys that the caveats do not declare. */
  ghost function Missing(caveats: seq<Caveat>, need: seq<string>): seq<Caveat> {
    if need == [] then [] else
      var d := need[|need| - 1];
      Missing(caveats, need[..|need| - 1]) + if DeclaresKey(caveats, d) then [] else [DeclaredCaveat(d, "")]
  }

  /** What checkNeedDeclared returns; None stands for an error. */
  ghost function NeedDeclared(arg: string, checker: ThirdPartyChecker): Option<seq<Caveat>> {
    var i := IndexOf(arg, ' ');
    if i == 0 || i == |arg| then None else
      var need := Split(arg[..i], ',');
      if "" in need then None else
        match checker(arg[i + 1..])
        case None => None
        case Some(given) => if SomeMalformed(given) then None else Some(given + Missing(given, need))
  }

  ghost predicate SomeMalformed(given: seq<Caveat>) {
    exists k :: 0 <= k < |given| && IsMalformed(given[k])
  }

  method CheckNeedDeclared(arg: string, checker: ThirdPartyChecker) returns (r: Option<seq<Caveat>>)
    ensures r == NeedDeclared(arg, checker)
  {
    var i := IndexOf(arg, ' ');
    if i == 0 || i == |arg| {
      return None;
    }
    var need := Split(arg[..i], ',');
    for j := 0 to |need|
      invariant "" !in need[..j]
    {
      if need[j] == "" {
        return None;
      }
    }
    assert need[..|need|] == need;
    var checked := checker(arg[i + 1..]);
    if checked.None? {
      return None;
    }
    var declared := DeclaredKeys(checked.value);
    if declared.None? {
      return None;
    }
    var caveats := checked.value;
    for j := 0 to |need|
      invariant caveats == checked.value + Missing(checked.value, need[..j])
    {
      var d := need[j];
      assert need[..j + 1][..j] == need[..j];
      if d !in declared.value {
        caveats := caveats + [DeclaredCaveat(d, "")];
      }
    }
    return Some(caveats);
  }

  /** The keys that the caveats declare, unless one of them is malformed. */
  method DeclaredKeys(given: seq<Caveat>) returns (declared: Option<set<string>>)
    ensures declared.None? <==> SomeMalformed(given)
    ensures declared.Some? ==> forall d :: d in declared.value <==> DeclaresKey(given, d)
  {
    var keys := {};
    for j := 0 to |given|
      invariant !SomeMalformed(given[..j])
      invariant forall d :: d in keys <==> DeclaresKey(given[..j], d)
    {
      DeclaresKeyNext(given, j);
      SomeMalformedNext(given, j);
      var malformed, key := DeclaredKey(given[j]);
      if malformed {
        return None;
      }
      if key.Some? {
        keys := keys + {key.value};
      }
    }
    assert given[..|given|] == given;
    return Some(keys);
  }

  /** The key that a caveat declares, if any. */
  method DeclaredKey(cav: Caveat) returns (malformed: bool, key: Option<string>)
    ensures malformed <==> IsMalformed(cav)
    ensures forall d :: IsDeclarationOf(cav, d) <==> key == Some(d)
  {
    var parsed := ParseCaveat(cav.condition);
    if cav.location != "" || parsed.None? || parsed.value.0 != COND_DECLARED {
      return false, None;
    }
    var parts := SplitPair(parsed.value.1, ' ');
    if parts.None? {
      return true, None;
    }
    return false, Some(parts.value.0);
  }

  lemma SomeMalformedNext(given: seq<Caveat>, j: nat)
    requires j < |given|
    ensures SomeMalformed(given[..j + 1]) <==> SomeMalformed(given[..j]) || IsMalformed(given[j])
    ensures IsMalformed(given[j]) ==> SomeMalformed(given)
  {
    assert given[..j + 1][j] == given[j];
    assert forall k :: 0 <= k < j ==> given[..j + 1][k] == given[..j][k];
  }

  lemma DeclaresKeyNext(given: seq<Caveat>, j: nat)
    requires j < |given|
    ensures forall d :: DeclaresKey(given[..j + 1], d) <==> DeclaresKey(given[..j], d) || IsDeclarationOf(given[j], d)
  {
    forall d ensures DeclaresKey(given[..j + 1], d) <==> DeclaresKey(given[..j], d) || IsDeclarationOf(given[j], d) {
      assert given[..j + 1][j] == given[j];
      assert forall k :: 0 <= k < j ==> given[..j + 1][k] == given[..j][k];
    }
  }

  /** Discharge's treatment of the condition of a caveat. */
  method CheckCondition(condition: string, checker: ThirdPartyChecker) returns (r: Option<seq<Caveat>>)
    ensures r.Some? ==> NeedsAreDeclared(condition, checker, r.value)
    ensures r.None? <==> CheckFails(condition, checker)
  {
    var parsed := ParseCaveat(condition);
    if parsed.Some? && parsed.value.0 == COND_NEED_DECLARED {
      r := CheckNeedDeclared(parsed.value.1, checker);
      if r.Some? {
        NeedDeclaredDeclares(parsed.value.1, checker);
      }
    } else {
      r := checker(condition);
    }
  }

  lemma {:induction false} NeedDeclaredDeclares(arg: string, checker: ThirdPartyChecker)
    requires NeedDeclared(arg, checker).Some?
    ensures var i, caveats := IndexOf(arg, ' '), NeedDeclared(arg, checker).value;
      && i < |arg| && checker(arg[i + 1..]).Some? && checker(arg[i + 1..]).value <= caveats
      && (forall d :: d in Split(arg[..i], ',') ==> DeclaresKey(caveats, d))
      && OnlyEmptyAdded(checker(arg[i + 1..]).value, Split(arg[..i], ','), caveats)
  {
    var i := IndexOf(arg, ' ');
    SplitHasNo(arg[..i], ',', ' ');
    OnlyMissingAreAdded(checker(arg[i + 1..]).value, Split(arg[..i], ','));
    forall d | d in Split(arg[..i], ',') ensures DeclaresKey(NeedDeclared(arg, checker).value, d) {
      MissingCompletes(checker(arg[i + 1..]).value, Split(arg[..i], ','), d);
    }
  }

  lemma {:induction false} SplitHasNo(s: string, sep: char, c: char)
    requires c !in s
    ensures forall p :: p in Split(s, sep) ==> c !in p
    decreases |s|
  {
    match SplitPair(s, sep)
    case None =>
    case Some(p) => SplitHasNo(p.1, sep, c);
  }

  /** The caveats extend those of the checker for the wrapped condition and declare every needed key. */
  ghost predicate NeedsAreDeclared(condition: string, checker: ThirdPartyChecker, caveats: seq<Caveat>) {
    if ParseCaveat(condition).None? || ParseCaveat(condition).value.0 != COND_NEED_DECLARED then
      Some(caveats) == checker(condition)
    else
      var arg := ParseCaveat(condition).value.1;
      var i := IndexOf(arg, ' ');
      && i < |arg| && checker(arg[i + 1..]).Some? && checker(arg[i + 1..]).value <= caveats
      && (forall d :: d in Split(arg[..i], ',') ==> DeclaresKey(caveats, d))
      && OnlyEmptyAdded(checker(arg[i + 1..]).value, Split(arg[..i], ','), caveats)
  }

  /** What is added declares, without a value, the needed keys that are not declared yet, and nothing else. */
  ghost predicate OnlyEmptyAdded(given: seq<Caveat>, need: seq<string>, caveats: seq<Caveat>)
    requires given <= caveats
  {
    forall c :: c in caveats[|given|..] <==>
      exists d :: d in need && !DeclaresKey(given, d) && c == Caveat("declared " + d + " ", "std", "")
  }

  /** The checker fails; or a need-declared condition lacks its list of keys, names an empty one, or gets a
      declaration without value from the checker. */
  ghost predicate CheckFails(condition: string, checker: ThirdPartyChecker) {
    if ParseCaveat(condition).None? || ParseCaveat(condition).value.0 != COND_NEED_DECLARED then
      checker(condition).None?
    else
      var arg := ParseCaveat(condition).value.1;
      var i := IndexOf(arg, ' ');
      || i == 0 || i == |arg| || "" in Split(arg[..i], ',')
      || checker(arg[i + 1..]).None? || SomeMalformed(checker(arg[i + 1..]).value)
  }

  lemma {:induction false} MissingAre(given: seq<Caveat>, need: seq<string>)
    ensures forall c :: c in Missing(given, need) <==>
      exists d :: d in need && !DeclaresKey(given, d) && c == DeclaredCaveat(d, "")
  {
    if need != [] {
      var n := |need| - 1;
      MissingAre(given, need[..n]);
      assert need == need[..n] + [need[n]];
    }
  }

  lemma OnlyMissingAreAdded(given: seq<Caveat>, need: seq<string>)
    requires forall d :: d in need ==> d != "" && ' ' !in d
    ensures given <= given + Missing(given, need) && OnlyEmptyAdded(given, need, given + Missing(given, need))
  {
    MissingAre(given, need);
    forall d | d in need ensures DeclaredCaveat(d, "") == Caveat("declared " + d + " ", "std", "") {
      EmptyDeclaration(d);
    }
    assert (given + Missing(given, need))[|given|..] == Missing(given, need);
  }

  lemma EmptyDeclaration(d: string)
    requires d != "" && ' ' !in d
    ensures DeclaredCaveat(d, "") == Caveat("declared " + d + " ", "std", "")
  {
    assert "declared" + " " + (d + " " + "") == "declared " + d + " ";
  }

  lemma EmptyDeclarationDeclares(before: seq<Caveat>, d: string)
    requires d != "" && ' ' !in d
    ensures DeclaresKey(before + [DeclaredCaveat(d, "")], d)
  {
    DeclaredCaveatParses(COND_DECLARED, d, "");
    assert IsDeclarationOf((before + [DeclaredCaveat(d, "")])[|before|], d);
  }

  lemma StillDeclares(a: seq<Caveat>, b: seq<Caveat>, d: string)
    requires a <= b && DeclaresKey(a, d)
    ensures DeclaresKey(b, d)
  {
    var i :| 0 <= i < |a| && IsDeclarationOf(a[i], d);
    assert b[i] == a[i];
  }

  lemma {:induction false} MissingCompletes(given: seq<Caveat>, need: seq<string>, d: string)
    requires d in need && d != "" && ' ' !in d
    ensures DeclaresKey(given + Missing(given, need), d)
  {
    var n := |need| - 1;
    var before, all := given + Missing(given, need[..n]), given + Missing(given, need);
    assert before <= all && given <= all;
    if d != need[n] {
      assert need == need[..n] + [need[n]];
      MissingCompletes(given, need[..n], d);
      StillDeclares(before, all, d);
    } else if DeclaresKey(given, d) {
      StillDeclares(given, all, d);
    } else {
      assert all == before + [DeclaredCaveat(d, "")];
      EmptyDeclarationDeclares(before, d);
    }
  }

  /** The third party sees the wrapped condition, and what it adds is completed so that each of the keys
      joined by NeedDeclaredCaveat is declared. */
  lemma NeedDeclaredRoundTrip(cav: Caveat, keys: seq<string>, checker: ThirdPartyChecker, caveats: seq<Caveat>)
    requires cav.location != "" && keys != [] && forall k :: k in keys ==> k != "" && ' ' !in k && ',' !in k
    requires NeedsAreDeclared(NeedDeclaredCaveat(cav, keys).condition, checker, caveats)
    ensures NeedDeclaredCaveat(cav, keys).location == cav.location
    ensures checker(cav.condition).Some? && checker(cav.condition).value <= caveats
    ensures forall k :: k in keys ==> DeclaresKey(caveats, k)
  {
    var joined := Join(keys, ',');
    JoinHasNo(keys, ',', ' ');
    NeedDeclaredParses(cav, joined);
    SplitJoin(keys, ',');
  }

  lemma NeedDeclaredParses(cav: Caveat, joined: string)
    requires ' ' !in joined
    ensures ParseCaveat(COND_NEED_DECLARED + " " + joined + " " + cav.condition)
         == Some((COND_NEED_DECLARED, joined + [' '] + cav.condition))
    ensures var arg := joined + [' '] + cav.condition;
      IndexOf(arg, ' ') == |joined| && arg[..|joined|] == joined && arg[|joined| + 1..] == cav.condition
  {
    var arg := joined + [' '] + cav.condition;
    ParseCondition(COND_NEED_DECLARED, arg);
    assert COND_NEED_DECLARED + " " + joined + " " + cav.condition == COND_NEED_DECLARED + " " + arg;
    IndexOfSeparator(joined, ' ', cav.condition);
  }

  lemma {:induction false} JoinHasNo(parts: seq<string>, sep: char, c: char)
    requires c != sep && forall p :: p in parts ==> c !in p
    ensures c !in Join(parts, sep)
  {
    if |parts| > 1 {
      JoinHasNo(parts[1..], sep, c);
    }
  }
}
