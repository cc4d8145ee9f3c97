/** The string functions of the Go library that caveats, namespaces and paths are taken apart with. */
module Text {
  import opened Basics

  /** The index of the first c in s, or |s|. */
  function IndexOf(s: string, c: char): (i: nat)
    ensures i <= |s| && c !in s[..i] && (i < |s| ==> s[i] == c)
  {
    if s == [] || s[0] == c then 0 else
      var i := 1 + IndexOf(s[1..], c);
      assert s[..i] == [s[0]] + s[1..][..i - 1];
      i
  }

  lemma {:induction false} IndexOfSeparator(a: string, c: char, b: string)
    requires c !in a
    ensures IndexOf(a + [c] + b, c) == |a|
  {
    if a == [] {
      assert (a + [c] + b)[0] == c;
    } else {
      IndexOfSeparator(a[1..], c, b);
      assert (a + [c] + b)[1..] == a[1..] + [c] + b && (a + [c] + b)[0] == a[0];
    }
  }

  /** The index of the last c in s, or -1. */
  function LastIndexOf(s: string, c: char): (i: int)
    ensures -1 <= i < |s|
    ensures i >= 0 ==> s[i] == c
  {
    if s == "" then -1
    else if s[|s| - 1] == c then |s| - 1
    else LastIndexOf(s[..|s| - 1], c)
  }

  /** The parts of s before and after the first c, if there is one. */
  function SplitPair(s: string, c: char): Option<(string, string)> {
    var i := IndexOf(s, c);
    if i < |s| then Some((s[..i], s[i + 1..])) else None
  }

  lemma SplitPairJoined(a: string, c: char, b: string)
    requires c !in a
    ensures SplitPair(a + [c] + b, c) == Some((a, b))
  {
    IndexOfSeparator(a, c, b);
    assert (a + [c] + b)[..|a|] == a && (a + [c] + b)[|a| + 1..] == b;
  }

  lemma SplitPairIff(s: string, c: char, a: string, b: string)
    ensures SplitPair(s, c) == Some((a, b)) <==> c !in a && s == a + [c] + b
  {
    if c !in a && s == a + [c] + b {
      SplitPairJoined(a, c, b);
    }
  }

  /** The condition name and argument of a caveat; None for the two malformed kinds: the empty caveat
      and one that starts with a space. */
  function ParseCaveat(cav: string): Option<(string, string)> {
    if cav == "" then None else
      match SplitPair(cav, ' ')
      case None => Some((cav, ""))
      case Some(p) => if p.0 == "" then None else Some(p)
  }

  /** What it makes of a caveat, and of which caveats. */
  lemma ParseCaveatIff(cav: string, name: string, arg: string)
    ensures ParseCaveat(cav) == Some((name, arg)) <==>
      name != "" && ' ' !in name && (cav == name + " " + arg || (cav == name && arg == ""))
  {
    var i := IndexOf(cav, ' ');
    assert cav == cav[..i] + cav[i..];
    if cav == name + " " + arg && ' ' !in name {
      SplitPairJoined(name, ' ', arg);
      assert name + " " + arg == name + [' '] + arg;
    } else if cav == name {
      assert i < |cav| ==> cav[i] in name;
    }
  }

  /** A condition built from a name and an argument; an empty argument adds no space. */
  function Condition(name: string, arg: string): string {
    if arg == "" then name else name + " " + arg
  }

  lemma ParseCondition(name: string, arg: string)
    requires name != "" && ' ' !in name
    ensures ParseCaveat(Condition(name, arg)) == Some((name, arg))
  {
    if arg == "" {
      assert IndexOf(name, ' ') == |name|;
    } else {
      SplitPairJoined(name, ' ', arg);
      assert name + " " + arg == name + [' '] + arg;
    }
  }

  function Split(s: string, c: char): (r: seq<string>)
    ensures r != []
    decreases |s|
  {
    match SplitPair(s, c)
    case None => [s]
    case Some(p) => [p.0] + Split(p.1, c)
  }

  function Join(parts: seq<string>, c: char): string {
    if parts == [] then ""
    else if |parts| == 1 then parts[0]
    else parts[0] + [c] + Join(parts[1..], c)
  }

  lemma {:induction false} SplitJoin(parts: seq<string>, c: char)
    requires parts != [] && forall p :: p in parts ==> c !in p
    ensures Split(Join(parts, c), c) == parts
  {
    if |parts| == 1 {
      assert IndexOf(parts[0], c) == |parts[0]|;
    } else {
      SplitPairJoined(parts[0], c, Join(parts[1..], c));
      SplitJoin(parts[1..], c);
      assert parts == [parts[0]] + parts[1..];
    }
  }

  lemma {:induction false} JoinSplit(s: string, c: char)
    ensures Join(Split(s, c), c) == s
    ensures forall p :: p in Split(s, c) ==> c !in p
    decreases |s|
  {
    var i := IndexOf(s, c);
    if i < |s| {
      JoinSplit(s[i + 1..], c);
      assert s == s[..i] + [c] + s[i + 1..];
      assert Split(s, c)[1..] == Split(s[i + 1..], c);
    } else {
      assert s[..i] == s;
    }
  }
}
