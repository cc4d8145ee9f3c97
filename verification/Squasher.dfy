/** The caveat squasher of bakery/checker.go: of the conditions that apply to a capability it keeps only
    the earliest expiry, sorts the rest and drops duplicates. */
module Squasher {
  import opened Basics
  import opened Macaroons
  import opened Ordering
  import opened Text

  /** An instant; 0 is Go's zero time. */
  type Instant = int
  const ZERO_INSTANT: Instant := 0
  const COND_TIME_BEFORE := "time-before"

  /** The RFC 3339 parser and formatter of the time package. They are not inverse at every instant: the
      formatter writes the year 10000 with five digits, which the parser rejects. */
  datatype TimeText = TimeText(parse: string -> Option<Instant>, format: Instant -> string) {
    predicate ReadsBack(t: Instant) {
      parse(format(t)) == Some(t)
    }
  }

  function TimeBefore(tt: TimeText, t: Instant): string {
    Condition(COND_TIME_BEFORE, tt.format(t))
  }

  /** The instant of a condition that squashing rewrites. */
  function Expiry(tt: TimeText, cond: string): Option<Instant> {
    match ParseCaveat(cond)
    case None => None
    case Some((name, arg)) =>
      if name != COND_TIME_BEFORE then None else
        match tt.parse(arg)
        case None => None
        case Some(t) => if t == ZERO_INSTANT then None else Some(t)
  }

  /** The argument of a time-before condition. */
  function TimeArg(cond: string): Option<string> {
    match ParseCaveat(cond)
    case Some((name, arg)) => if name == COND_TIME_BEFORE then Some(arg) else None
    case None => None
  }

  /** When a condition holds: a time-before condition until its time, never if that cannot be read; any other
      as the environment has it. */
  predicate Holds(tt: TimeText, now: Instant, others: string -> bool, cond: string) {
    match TimeArg(cond)
    case None => others(cond)
    case Some(arg) => tt.parse(arg).Some? && now < tt.parse(arg).value
  }

  ghost predicate AllHold(tt: TimeText, now: Instant, others: string -> bool, conds: seq<string>) {
    forall c :: c in conds ==> Holds(tt, now, others, c)
  }

  /** e is the earliest rewritable expiry among the conditions, or zero if there is none. */
  ghost predicate Earliest(tt: TimeText, conds: seq<string>, e: Instant) {
    && (forall c :: c in conds && Expiry(tt, c).Some? ==> e != ZERO_INSTANT && e <= Expiry(tt, c).value)
    && (e != ZERO_INSTANT ==> exists c :: c in conds && Expiry(tt, c) == Some(e))
  }

  /** The conditions of r are those of conds that are not rewritten and, unless e is zero, the one rewritten
      to e. */
  ghost predicate IsSquashedTo(tt: TimeText, conds: seq<string>, e: Instant, r: seq<string>) {
    && StrictlySorted(StringLe, r) && Earliest(tt, conds, e)
    && forall x :: x in r <==> Kept(tt, conds, e, x)
  }

  /** r is the squashed form of the conditions. */
  ghost predicate IsSquashed(tt: TimeText, conds: seq<string>, r: seq<string>) {
    exists e :: IsSquashedTo(tt, conds, e, r)
  }

  ghost predicate Kept(tt: TimeText, conds: seq<string>, e: Instant, x: string) {
    (x in conds && Expiry(tt, x).None?) || (e != ZERO_INSTANT && x == TimeBefore(tt, e))
  }

  class CaveatSquasher {
    const tt: TimeText
    var expiry: Instant
    var conds: seq<string>
    ghost var added: seq<string>

    constructor (tt: TimeText)
      ensures this.tt == tt && added == [] && Valid()
    {
      this.tt, expiry, conds, added := tt, ZERO_INSTANT, [], [];
    }

    ghost predicate Valid()
      reads this
    {
      && Earliest(tt, added, expiry)
      && forall x :: x in conds <==> x in added && Expiry(tt, x).None?
    }

    method Add(cond: string)
      requires Valid()
      modifies this
      ensures Valid() && added == old(added) + [cond]
    {
      var keep := Add0(cond);
      if keep {
        conds := conds + [cond];
      }
      added := added + [cond];
      EarliestNext(tt, old(added), old(expiry), cond, expiry);
    }

    /** Reports whether the condition has to be kept; otherwise it has gone into the expiry. */
    method Add0(cond: string) returns (keep: bool)
      modifies this`expiry
      ensures keep <==> Expiry(tt, cond).None?
      ensures keep ==> expiry == old(expiry)
      ensures !keep ==> expiry == if old(expiry) == ZERO_INSTANT || Expiry(tt, cond).value < old(expiry)
                                  then Expiry(tt, cond).value else old(expiry)
    {
      var parsed := ParseCaveat(cond);
      if parsed.None? {
        return true;
      }
      var (name, args) := parsed.value;
      if name != COND_TIME_BEFORE {
        return true;
      }
      var et := tt.parse(args);
      if et.None? || et.value == ZERO_INSTANT {
        return true;
      }
      if expiry == ZERO_INSTANT || et.value < expiry {
        expiry := et.value;
      }
      return false;
    }

    method Final() returns (r: seq<string>)
      requires Valid()
      modifies this
      ensures IsSquashed(tt, added, r) && added == old(added)
    {
      if expiry != ZERO_INSTANT {
        conds := conds + [TimeBefore(tt, expiry)];
      }
      assert forall x :: x in conds <==> Kept(tt, added, expiry, x);
      if |conds| == 0 {
        assert IsSquashedTo(tt, added, expiry, []);
        return [];
      }
      conds := MakeCanonical(conds);
      assert IsSquashedTo(tt, added, expiry, conds);
      return conds;
    }
  }

  lemma EarliestNext(tt: TimeText, conds: seq<string>, e: Instant, cond: string, e': Instant)
    requires Earliest(tt, conds, e)
    requires var t := Expiry(tt, cond);
      e' == if t.Some? && (e == ZERO_INSTANT || t.value < e) then t.value else e
    ensures Earliest(tt, conds + [cond], e')
  {
    if e' != ZERO_INSTANT {
      if e' == e {
        var c :| c in conds && Expiry(tt, c) == Some(e');
        assert c in conds + [cond];
      } else {
        assert cond in conds + [cond];
      }
    }
  }

  method MakeCanonical(conds: seq<string>) returns (r: seq<string>)
    requires conds != []
    ensures StrictlySorted(StringLe, r) && forall x :: x in r <==> x in conds
  {
    StringOrder();
    ghost var sorted := Sort(StringLe, conds);
    SortSorts(StringLe, conds);
    WithoutRepeatsIsStrict(StringLe, sorted);
    var a := SortedArray(conds);
    var j := DropRepeats(a);
    r := a[..j];
  }

  /** sort.Strings */
  method SortedArray(conds: seq<string>) returns (a: array<string>)
    ensures fresh(a) && a[..] == Sort(StringLe, conds)
  {
    var s := Sort(StringLe, conds);
    a := new string[|s|](i requires 0 <= i < |s| => s[i]);
  }

  // ---------- what squashing promises ----------

  lemma TimeBeforeParses(tt: TimeText, e: Instant)
    ensures ParseCaveat(TimeBefore(tt, e)) == Some((COND_TIME_BEFORE, tt.format(e)))
    ensures TimeArg(TimeBefore(tt, e)) == Some(tt.format(e))
  {
    ParseCondition(COND_TIME_BEFORE, tt.format(e));
  }

  lemma EarliestIsUnique(tt: TimeText, a: seq<string>, b: seq<string>, e: Instant, e': Instant)
    requires Earliest(tt, a, e) && Earliest(tt, b, e') && forall x :: x in a <==> x in b
    ensures e == e'
  {
  }

  ghost predicate SameMeaning(tt: TimeText, a: seq<string>, b: seq<string>) {
    forall now, others :: AllHold(tt, now, others, a) <==> AllHold(tt, now, others, b)
  }

  /** A time-before condition whose time cannot be read; it never holds. */
  ghost predicate Unreadable(tt: TimeText, c: string) {
    TimeArg(c).Some? && tt.parse(TimeArg(c).value).None?
  }

  /** A time-before condition with Go's zero time, which is left alone. */
  ghost predicate ZeroTimed(tt: TimeText, c: string) {
    TimeArg(c).Some? && tt.parse(TimeArg(c).value) == Some(ZERO_INSTANT)
  }

  ghost predicate SomeUnreadable(tt: TimeText, conds: seq<string>) {
    exists c :: c in conds && Unreadable(tt, c)
  }

  ghost predicate SomeZeroTimed(tt: TimeText, conds: seq<string>) {
    exists c :: c in conds && ZeroTimed(tt, c)
  }

  /** Another condition that stays hides the rewritten one: one that never holds, or one that holds until the
      zero time only, when that comes first in any case. */
  ghost predicate Hidden(tt: TimeText, conds: seq<string>, e: Instant) {
    || SomeUnreadable(tt, conds)
    || (SomeZeroTimed(tt, conds) && ZERO_INSTANT < e && tt.parse(tt.format(e)).Some?
      && ZERO_INSTANT <= tt.parse(tt.format(e)).value)
  }

  lemma ExpiryCases(tt: TimeText, c: string)
    ensures Expiry(tt, c).Some? <==> TimeArg(c).Some? && !Unreadable(tt, c) && !ZeroTimed(tt, c)
    ensures Expiry(tt, c).Some? ==> tt.parse(TimeArg(c).value) == Expiry(tt, c)
  {
  }

  /** The kept conditions hold in both lists alike; so all depends on the rewritten ones. */
  lemma MeaningOfParts(tt: TimeText, conds: seq<string>, e: Instant, r: seq<string>, now: Instant,
                       others: string -> bool)
    requires IsSquashedTo(tt, conds, e, r) && e != ZERO_INSTANT
    ensures AllHold(tt, now, others, conds) <==> StayingHold(tt, now, others, conds) && now < e
    ensures AllHold(tt, now, others, r) <==>
      StayingHold(tt, now, others, conds) && Holds(tt, now, others, TimeBefore(tt, e))
  {
    forall c | c in conds ensures Expiry(tt, c).Some? ==> (Holds(tt, now, others, c) <==> now < Expiry(tt, c).value) {
      ExpiryCases(tt, c);
    }
    var c :| c in conds && Expiry(tt, c) == Some(e);
    assert TimeBefore(tt, e) in r;
    if AllHold(tt, now, others, r) {
      forall x | x in conds && Expiry(tt, x).None? ensures Holds(tt, now, others, x) {
        assert x in r;
      }
    }
  }

  /** All conditions hold that squashing leaves alone. */
  ghost predicate StayingHold(tt: TimeText, now: Instant, others: string -> bool, conds: seq<string>) {
    forall c :: c in conds && Expiry(tt, c).None? ==> Holds(tt, now, others, c)
  }

  /** What stays can hold until the zero time, if that is among it, and else for ever. */
  lemma StayingCanHold(tt: TimeText, conds: seq<string>, now: Instant)
    ensures StayingHold(tt, now, _ => true, conds) <==>
      !SomeUnreadable(tt, conds) && (SomeZeroTimed(tt, conds) ==> now < ZERO_INSTANT)
  {
    forall c | c in conds && Expiry(tt, c).None?
      ensures Holds(tt, now, _ => true, c) <==> !Unreadable(tt, c) && (ZeroTimed(tt, c) ==> now < ZERO_INSTANT)
    {
      ExpiryCases(tt, c);
    }
    forall c | c in conds ensures Unreadable(tt, c) || ZeroTimed(tt, c) ==> Expiry(tt, c).None? {
      ExpiryCases(tt, c);
    }
  }

  lemma StayingNeeds(tt: TimeText, conds: seq<string>, now: Instant, others: string -> bool)
    requires StayingHold(tt, now, others, conds)
    ensures !SomeUnreadable(tt, conds) && (SomeZeroTimed(tt, conds) ==> now < ZERO_INSTANT)
  {
    forall c | c in conds ensures !Unreadable(tt, c) && (ZeroTimed(tt, c) ==> now < ZERO_INSTANT) {
      ExpiryCases(tt, c);
      if Unreadable(tt, c) || ZeroTimed(tt, c) {
        assert Holds(tt, now, others, c);
      }
    }
  }

  /** The squashed conditions hold exactly when the given ones do, at every time and in every environment, if
      and only if the earliest expiry, written out again, is read as the same instant, or it does not matter. */
  lemma SquashingPreservesMeaning(tt: TimeText, conds: seq<string>, e: Instant, r: seq<string>)
    requires IsSquashedTo(tt, conds, e, r)
    ensures SameMeaning(tt, conds, r) <==> e == ZERO_INSTANT || tt.ReadsBack(e) || Hidden(tt, conds, e)
  {
    if e == ZERO_INSTANT {
      assert forall x :: x in r <==> x in conds;
    } else {
      TimeBeforeParses(tt, e);
      if tt.ReadsBack(e) || Hidden(tt, conds, e) {
        forall now, others ensures AllHold(tt, now, others, conds) <==> AllHold(tt, now, others, r) {
          MeaningOfParts(tt, conds, e, r, now, others);
          if StayingHold(tt, now, others, conds) {
            StayingNeeds(tt, conds, now, others);
          }
        }
      } else {
        var now := Distinguishing(tt, conds, e);
        MeaningOfParts(tt, conds, e, r, now, _ => true);
        assert !(AllHold(tt, now, _ => true, conds) <==> AllHold(tt, now, _ => true, r));
      }
    }
  }

  /** A single expiry that is written in a way that cannot be read, as in the year 10000, is lost: the
      condition held for a time, and the rewritten one never holds. */
  lemma UnreadableExpiryIsLost(tt: TimeText, c: string, e: Instant, r: seq<string>)
    requires Expiry(tt, c) == Some(e) && tt.parse(tt.format(e)).None? && IsSquashed(tt, [c], r)
    ensures !SameMeaning(tt, [c], r)
  {
    var e' :| IsSquashedTo(tt, [c], e', r);
    assert c in [c] && e' == e;
    ExpiryCases(tt, c);
    SquashingPreservesMeaning(tt, [c], e, r);
  }

  /** A time at which the original and the rewritten expiry differ and all else holds. */
  lemma Distinguishing(tt: TimeText, conds: seq<string>, e: Instant) returns (now: Instant)
    requires e != ZERO_INSTANT && !tt.ReadsBack(e) && !Hidden(tt, conds, e)
    ensures StayingHold(tt, now, _ => true, conds)
    ensures now < e <==> !Holds(tt, now, _ => true, TimeBefore(tt, e))
  {
    TimeBeforeParses(tt, e);
    match tt.parse(tt.format(e)) {
      case None => now := if e < ZERO_INSTANT then e - 1 else ZERO_INSTANT - 1;
      case Some(t) => now := if t < e then t else e;
    }
    StayingCanHold(tt, conds, now);
  }

  /** The result depends only on the set of conditions: not on their order, nor on repetitions. */
  lemma SquashingIsCanonical(tt: TimeText, a: seq<string>, b: seq<string>, ra: seq<string>, rb: seq<string>)
    requires IsSquashed(tt, a, ra) && IsSquashed(tt, b, rb) && forall x :: x in a <==> x in b
    ensures ra == rb
  {
    var e :| IsSquashedTo(tt, a, e, ra);
    var e' :| IsSquashedTo(tt, b, e', rb);
    EarliestIsUnique(tt, a, b, e, e');
    StringOrder();
    StrictlySortedIsUnique(StringLe, ra, rb);
  }

  /** Squashing the result again changes nothing, if and only if the rewritten expiry is left alone or read as
      an instant that is written the same. */
  lemma SquashingIsIdempotent(tt: TimeText, conds: seq<string>, e: Instant, r: seq<string>, r': seq<string>)
    requires IsSquashedTo(tt, conds, e, r) && IsSquashed(tt, r, r')
    ensures r' == r <==>
      var again := if e == ZERO_INSTANT then None else Expiry(tt, TimeBefore(tt, e));
      again.None? || TimeBefore(tt, again.value) == TimeBefore(tt, e)
  {
    var again := if e == ZERO_INSTANT then None else Expiry(tt, TimeBefore(tt, e));
    var e' := if again.None? then ZERO_INSTANT else again.value;
    assert e != ZERO_INSTANT ==> TimeBefore(tt, e) in r;
    EarliestOfSquashed(tt, conds, e, r, e');
    var e'' :| IsSquashedTo(tt, r, e'', r');
    EarliestIsUnique(tt, r, r, e', e'');
    if again.None? || TimeBefore(tt, again.value) == TimeBefore(tt, e) {
      assert forall x :: x in r' <==> x in r;
      StringOrder();
      StrictlySortedIsUnique(StringLe, r, r');
    } else {
      assert TimeBefore(tt, e) !in r';
    }
  }

  lemma EarliestOfSquashed(tt: TimeText, conds: seq<string>, e: Instant, r: seq<string>, e': Instant)
    requires IsSquashedTo(tt, conds, e, r)
    requires var again := if e == ZERO_INSTANT then None else Expiry(tt, TimeBefore(tt, e));
      e' == if again.None? then ZERO_INSTANT else again.value
    ensures Earliest(tt, r, e')
  {
    if e != ZERO_INSTANT {
      assert TimeBefore(tt, e) in r;
    }
  }

  /** c is a time-before condition with time t, which is not Go's zero time. */
  ghost predicate ExpiresAt(tt: TimeText, c: string, t: Instant) {
    t != ZERO_INSTANT && exists arg ::
      tt.parse(arg) == Some(t) && (c == "time-before " + arg || (c == "time-before" && arg == ""))
  }

  lemma ExpiryIs(tt: TimeText, c: string, t: Instant)
    ensures Expiry(tt, c) == Some(t) <==> ExpiresAt(tt, c, t)
  {
    forall arg ensures ParseCaveat(c) == Some((COND_TIME_BEFORE, arg)) <==>
      c == "time-before " + arg || (c == "time-before" && arg == "")
    {
      ParseCaveatIff(c, COND_TIME_BEFORE, arg);
      assert COND_TIME_BEFORE + " " == "time-before ";
    }
    if ParseCaveat(c).Some? && ParseCaveat(c).value.0 == COND_TIME_BEFORE {
      assert ParseCaveat(c) == Some((COND_TIME_BEFORE, ParseCaveat(c).value.1));
    }
  }

  /** Of all expiries only the earliest is left, and every other condition is. */
  lemma OneExpiryIsLeft(tt: TimeText, conds: seq<string>, r: seq<string>, c: string, e: Instant)
    requires IsSquashed(tt, conds, r) && c in conds && ExpiresAt(tt, c, e)
    requires forall c', t :: c' in conds && ExpiresAt(tt, c', t) ==> e <= t
    ensures StrictlySorted(StringLe, r)
    ensures forall x :: x in r <==>
      (x in conds && forall t :: !ExpiresAt(tt, x, t)) || x == Condition("time-before", tt.format(e))
  {
    forall x, t ensures Expiry(tt, x) == Some(t) <==> ExpiresAt(tt, x, t) {
      ExpiryIs(tt, x, t);
    }
    assert forall x :: x in conds && Expiry(tt, x).Some? ==> ExpiresAt(tt, x, Expiry(tt, x).value);
    var e' :| IsSquashedTo(tt, conds, e', r);
    assert e' == e;
  }

  /** Without an expiry every condition is left. */
  lemma NoExpiryIsAdded(tt: TimeText, conds: seq<string>, r: seq<string>)
    requires IsSquashed(tt, conds, r) && forall c, t :: c in conds ==> !ExpiresAt(tt, c, t)
    ensures StrictlySorted(StringLe, r) && forall x :: x in r <==> x in conds
  {
    forall x, t ensures Expiry(tt, x) == Some(t) <==> ExpiresAt(tt, x, t) {
      ExpiryIs(tt, x, t);
    }
  }

  // ---------- the conditions of a decision ----------

  /** The first-party conditions of a macaroon; text is the conversion of an id to a string. */
  function OfMacaroon(text: bytes -> string, m: seq<Cav>): seq<string> {
    if m == [] then [] else
      var n := |m| - 1;
      OfMacaroon(text, m[..n]) + if m[n].ThirdParty() then [] else [text(m[n].id)]
  }

  function OfSlice(text: bytes -> string, ms: seq<seq<Cav>>): seq<string> {
    if ms == [] then [] else OfSlice(text, ms[..|ms| - 1]) + OfMacaroon(text, ms[|ms| - 1])
  }

  /** The first-party conditions of all macaroons in the slices that were used. */
  function Applicable(text: bytes -> string, mss: seq<seq<seq<Cav>>>, used: seq<bool>): seq<string>
    requires |used| == |mss|
  {
    if mss == [] then [] else
      var n := |mss| - 1;
      Applicable(text, mss[..n], used[..n]) + if used[n] then OfSlice(text, mss[n]) else []
  }

  /** c is the condition of a caveat that is not a third party's, in a slice that was used. */
  ghost predicate Applies(text: bytes -> string, mss: seq<seq<seq<Cav>>>, used: seq<bool>, c: string)
    requires |used| == |mss|
  {
    exists i, j, k ::
      0 <= i < |mss| && used[i] && 0 <= j < |mss[i]| && 0 <= k < |mss[i][j]|
      && !mss[i][j][k].ThirdParty() && c == text(mss[i][j][k].id)
  }

  lemma {:induction false} OfMacaroonAre(text: bytes -> string, m: seq<Cav>)
    ensures forall c :: c in OfMacaroon(text, m) <==>
      exists k :: 0 <= k < |m| && !m[k].ThirdParty() && c == text(m[k].id)
  {
    if m != [] {
      OfMacaroonAre(text, m[..|m| - 1]);
    }
  }

  lemma {:induction false} OfSliceAre(text: bytes -> string, ms: seq<seq<Cav>>)
    ensures forall c :: c in OfSlice(text, ms) <==>
      exists j, k :: 0 <= j < |ms| && 0 <= k < |ms[j]| && !ms[j][k].ThirdParty() && c == text(ms[j][k].id)
  {
    if ms != [] {
      var n := |ms| - 1;
      OfSliceAre(text, ms[..n]);
      OfMacaroonAre(text, ms[n]);
    }
  }

  lemma {:induction false} ApplicableAre(text: bytes -> string, mss: seq<seq<seq<Cav>>>, used: seq<bool>)
    requires |used| == |mss|
    ensures forall c :: c in Applicable(text, mss, used) <==> Applies(text, mss, used, c)
  {
    if mss != [] {
      var n := |mss| - 1;
      ApplicableAre(text, mss[..n], used[..n]);
      OfSliceAre(text, mss[n]);
    }
  }

  /** AuthInfo.Conditions */
  method Conditions(tt: TimeText, text: bytes -> string, mss: seq<seq<seq<Cav>>>, used: seq<bool>)
    returns (r: seq<string>)
    requires |used| == |mss|
    ensures exists conds :: (forall c :: c in conds <==> Applies(text, mss, used, c)) && IsSquashed(tt, conds, r)
  {
    var squasher := new CaveatSquasher(tt);
    for i := 0 to |mss|
      invariant fresh(squasher) && squasher.tt == tt && squasher.Valid()
      invariant squasher.added == Applicable(text, mss[..i], used[..i])
    {
      assert mss[..i + 1][..i] == mss[..i] && used[..i + 1][..i] == used[..i];
      if !used[i] {
        continue;
      }
      AddSlice(squasher, text, mss[i]);
    }
    assert mss[..|mss|] == mss && used[..|mss|] == used;
    r := squasher.Final();
    ApplicableAre(text, mss, used);
  }

  method AddSlice(squasher: CaveatSquasher, text: bytes -> string, ms: seq<seq<Cav>>)
    requires squasher.Valid()
    modifies squasher
    ensures squasher.Valid() && squasher.added == old(squasher.added) + OfSlice(text, ms)
  {
    for i := 0 to |ms|
      invariant squasher.Valid() && squasher.added == old(squasher.added) + OfSlice(text, ms[..i])
    {
      assert ms[..i + 1][..i] == ms[..i];
      ghost var before := squasher.added;
      var m := ms[i];
      for j := 0 to |m|
        invariant squasher.Valid() && squasher.added == before + OfMacaroon(text, m[..j])
      {
        assert m[..j + 1][..j] == m[..j];
        if m[j].ThirdParty() {
          continue;
        }
        squasher.Add(text(m[j].id));
      }
      assert m[..|m|] == m;
    }
    assert ms[..|ms|] == ms;
  }
}
