/** The caveat namespaces of bakery/checkers/namespace.go and their text form. */
module Namespaces {
  import opened Basics
  import opened Ordering
  import opened Text

  /** Schema URIs with their prefixes. */
  type Bindings = map<string, string>

  const STD_NAMESPACE := "std"

  /** unicode.IsSpace */
  predicate IsSpace(c: char) {
    var n := c as int;
    || 0x9 <= n <= 0xD || n == 0x20 || n == 0x85 || n == 0xA0 || n == 0x1680
    || 0x2000 <= n <= 0x200A || n == 0x2028 || n == 0x2029 || n == 0x202F || n == 0x205F || n == 0x3000
  }

  ghost predicate NoSpace(s: string) {
    forall c :: c in s ==> !IsSpace(c)
  }

  predicate IsValidUri(uri: string) {
    uri != "" && forall i :: 0 <= i < |uri| ==> !IsSpace(uri[i])
  }

  predicate IsValidPrefix(prefix: string) {
    forall i :: 0 <= i < |prefix| ==> !IsSpace(prefix[i]) && prefix[i] != ':'
  }

  ghost predicate IsValid(m: Bindings) {
    forall uri :: uri in m ==> IsValidUri(uri) && IsValidPrefix(m[uri])
  }

  function Entry(uri: string, prefix: string): string {
    uri + ":" + prefix
  }

  /** The entries of the URIs, separated by spaces. */
  function Entries(m: Bindings, uris: seq<string>): string
    requires forall u :: u in uris ==> u in m
  {
    if uris == [] then ""
    else
      var n := |uris| - 1;
      Entries(m, uris[..n]) + (if n > 0 then " " else "") + Entry(uris[n], m[uris[n]])
  }

  /** text is the marshalled form of the bindings: all entries, sorted by URI. */
  ghost predicate IsTextOf(m: Bindings, text: string) {
    exists uris :: IsListing(m, uris) && text == Entries(m, uris)
  }

  ghost predicate IsListing(m: Bindings, uris: seq<string>) {
    StrictlySorted(StringLe, uris) && forall u :: u in uris <==> u in m
  }

  /** The length of the longest prefix without space. */
  function WordLength(s: string): (n: nat)
    ensures n <= |s|
  {
    if s == "" || IsSpace(s[0]) then 0 else 1 + WordLength(s[1..])
  }

  /** strings.Fields */
  function Fields(s: string): seq<string>
    decreases |s|
  {
    if s == "" then []
    else if IsSpace(s[0]) then Fields(s[1..])
    else
      var n := WordLength(s);
      [s[..n]] + Fields(s[n..])
  }

  /** The binding that a field denotes, if it is well-formed. */
  function ParseEntry(elem: string): Option<(string, string)> {
    var i := LastIndexOf(elem, ':');
    if i == -1 || !IsValidUri(elem[..i]) || !IsValidPrefix(elem[i + 1..]) then None
    else Some((elem[..i], elem[i + 1..]))
  }

  /** The bindings of the fields; a malformed field or a repeated URI is an error. */
  function ParseEntries(elems: seq<string>): Option<Bindings> {
    if elems == [] then Some(map[])
    else
      var n := |elems| - 1;
      match (ParseEntries(elems[..n]), ParseEntry(elems[n]))
      case (Some(m), Some(b)) => if b.0 in m then None else Some(m[b.0 := b.1])
      case _ => None
  }

  class Namespace {
    var uriToPrefix: Bindings

    constructor ()
      ensures uriToPrefix == map[]
    {
      uriToPrefix := map[];
    }

    /** Panics, reported as false, when the URI or the prefix is invalid; a registered URI keeps its
        prefix. */
    method Register(uri: string, prefix: string) returns (ok: bool)
      modifies this
      ensures ok <==> IsValidUri(uri) && IsValidPrefix(prefix)
      ensures uriToPrefix ==
        if ok && uri !in old(uriToPrefix) then old(uriToPrefix)[uri := prefix] else old(uriToPrefix)
      ensures IsValid(old(uriToPrefix)) ==> IsValid(uriToPrefix)
    {
      if !IsValidUri(uri) || !IsValidPrefix(prefix) {
        return false;
      }
      if uri !in uriToPrefix {
        uriToPrefix := uriToPrefix[uri := prefix];
      }
      return true;
    }

    /** The map is iterated over in an arbitrary order. */
    method MarshalText() returns (data: string)
      ensures IsTextOf(uriToPrefix, data)
    {
      if |uriToPrefix| == 0 {
        assert IsListing(uriToPrefix, []);
        return "";
      }
      var uris := [];
      var todo := uriToPrefix.Keys;
      while todo != {}
        invariant todo <= uriToPrefix.Keys
        invariant forall u :: u in uris <==> u in uriToPrefix && u !in todo
        invariant Distinct(uris)
        decreases |todo|
      {
        var u :| u in todo;
        todo := todo - {u};
        uris := uris + [u];
      }
      uris := SortDistinct(uris);
      data := "";
      for i := 0 to |uris|
        invariant data == Entries(uriToPrefix, uris[..i])
      {
        assert uris[..i + 1][..i] == uris[..i];
        if i > 0 {
          data := data + " ";
        }
        data := data + uris[i] + ":" + uriToPrefix[uris[i]];
        assert data == Entries(uriToPrefix, uris[..i + 1]);
      }
      assert uris[..|uris|] == uris && IsListing(uriToPrefix, uris);
    }

    /** Leaves the namespace alone when the text is malformed. */
    method UnmarshalText(data: string) returns (ok: bool)
      modifies this
      ensures ok <==> ParseEntries(Fields(data)).Some?
      ensures uriToPrefix == if ok then ParseEntries(Fields(data)).value else old(uriToPrefix)
    {
      var m: Bindings := map[];
      var elems := Fields(data);
      for i := 0 to |elems|
        invariant ParseEntries(elems[..i]) == Some(m)
        invariant uriToPrefix == old(uriToPrefix)
      {
        var elem := elems[i];
        assert elems[..i + 1][..i] == elems[..i];
        var j := LastIndexOf(elem, ':');
        if j == -1 || !IsValidUri(elem[..j]) || !IsValidPrefix(elem[j + 1..]) || elem[..j] in m {
          FailedPrefix(elems, i + 1);
          return false;
        }
        m := m[elem[..j] := elem[j + 1..]];
      }
      assert elems[..|elems|] == elems;
      uriToPrefix := m;
      return true;
    }
  }

  lemma {:induction false} FailedPrefix(elems: seq<string>, n: nat)
    requires n <= |elems| && ParseEntries(elems[..n]).None?
    ensures ParseEntries(elems).None?
  {
    if n < |elems| {
      FailedPrefix(elems[..|elems| - 1], n) by {
        assert elems[..|elems| - 1][..n] == elems[..n];
      }
    } else {
      assert elems[..n] == elems;
    }
  }

  method SortDistinct(s: seq<string>) returns (r: seq<string>)
    requires Distinct(s)
    ensures StrictlySorted(StringLe, r) && forall x :: x in r <==> x in s
  {
    StringOrder();
    SortSorts(StringLe, s);
    r := Sort(StringLe, s);
    DistinctStays(s, r);
  }

  ghost predicate Distinct(s: seq<string>) {
    forall i, j :: 0 <= i < j < |s| ==> s[i] != s[j]
  }

  lemma {:induction false} CountInDistinct(s: seq<string>, x: string)
    requires Distinct(s)
    ensures multiset(s)[x] <= 1
  {
    if s != [] {
      var n := |s| - 1;
      CountInDistinct(s[..n], x);
      assert s == s[..n] + [s[n]];
      assert x == s[n] ==> x !in s[..n];
    }
  }

  lemma CountOfRepeated(r: seq<string>, i: nat, j: nat)
    requires i < j < |r|
    ensures r[i] == r[j] ==> multiset(r)[r[i]] >= 2
  {
    assert r == r[..i] + [r[i]] + r[i + 1..j] + [r[j]] + r[j + 1..];
  }

  lemma DistinctStays(s: seq<string>, r: seq<string>)
    requires multiset(r) == multiset(s) && Distinct(s)
    ensures Distinct(r)
  {
    forall i, j | 0 <= i < j < |r| ensures r[i] != r[j] {
      CountInDistinct(s, r[i]);
      CountOfRepeated(r, i, j);
    }
  }

  // ---------- the round trip ----------

  lemma {:induction false} WordThenSpace(w: string, rest: string)
    requires NoSpace(w) && (rest == "" || IsSpace(rest[0]))
    ensures WordLength(w + rest) == |w|
  {
    if w != "" {
      WordThenSpace(w[1..], rest);
      assert (w + rest)[1..] == w[1..] + rest && w[0] in w;
    } else {
      assert w + rest == rest;
    }
  }

  /** Appending a word after a space appends a field. */
  lemma {:induction false} FieldsAppend(s: string, w: string, t: string)
    requires w != "" && NoSpace(w) && t == s + " " + w
    ensures Fields(t) == Fields(s) + [w]
    decreases |s|
  {
    if s == "" {
      assert t[1..] == w;
      OneField(w);
    } else if IsSpace(s[0]) {
      assert t[1..] == s[1..] + " " + w;
      FieldsAppend(s[1..], w, t[1..]);
    } else {
      var n := WordLength(s);
      WordAppend(s, " " + w);
      assert s + (" " + w) == t;
      assert t[..n] == s[..n] && t[n..] == s[n..] + " " + w;
      FieldsAppend(s[n..], w, t[n..]);
    }
  }

  lemma OneField(w: string)
    requires w != "" && NoSpace(w)
    ensures Fields(w) == [w]
  {
    WordThenSpace(w, "");
    assert w + "" == w && w[|w|..] == "" && w[0] in w;
  }

  lemma {:induction false} WordAppend(s: string, rest: string)
    requires rest != "" && IsSpace(rest[0])
    ensures WordLength(s + rest) == WordLength(s)
  {
    if s != "" && !IsSpace(s[0]) {
      WordAppend(s[1..], rest);
      assert (s + rest)[1..] == s[1..] + rest;
    } else if s == "" {
      assert s + rest == rest;
    }
  }

  lemma {:induction false} LastColon(uri: string, prefix: string)
    requires forall i :: 0 <= i < |prefix| ==> prefix[i] != ':'
    ensures LastIndexOf(Entry(uri, prefix), ':') == |uri|
  {
    var e := Entry(uri, prefix);
    if prefix != "" {
      var n := |prefix| - 1;
      LastColon(uri, prefix[..n]);
      assert e[..|e| - 1] == Entry(uri, prefix[..n]);
      assert e[|e| - 1] == prefix[n];
    }
  }

  lemma EntryParses(uri: string, prefix: string)
    requires IsValidUri(uri) && IsValidPrefix(prefix)
    ensures ParseEntry(Entry(uri, prefix)) == Some((uri, prefix)) && NoSpace(Entry(uri, prefix))
  {
    var e := Entry(uri, prefix);
    LastColon(uri, prefix);
    assert e[..|uri|] == uri && e[|uri| + 1..] == prefix;
    forall c | c in e ensures !IsSpace(c) {
      assert c in uri || c == ':' || c in prefix;
    }
  }

  lemma {:induction false} FieldsOfEntries(m: Bindings, uris: seq<string>)
    requires IsValid(m) && forall u :: u in uris ==> u in m
    ensures Fields(Entries(m, uris)) == seq(|uris|, i requires 0 <= i < |uris| => Entry(uris[i], m[uris[i]]))
  {
    if uris != [] {
      var n := |uris| - 1;
      var e := Entry(uris[n], m[uris[n]]);
      EntryParses(uris[n], m[uris[n]]);
      FieldsOfEntries(m, uris[..n]);
      if n > 0 {
        FieldsAppend(Entries(m, uris[..n]), e, Entries(m, uris));
      } else {
        OneField(e);
        assert "" + "" + e == e;
      }
    }
  }

  lemma {:induction false} ParseOfEntries(m: Bindings, uris: seq<string>, elems: seq<string>)
    requires IsValid(m) && Distinct(uris) && forall u :: u in uris ==> u in m
    requires elems == seq(|uris|, i requires 0 <= i < |uris| => Entry(uris[i], m[uris[i]]))
    ensures ParseEntries(elems) == Some(map u | u in uris :: m[u])
  {
    if uris != [] {
      var n := |uris| - 1;
      ParseOfEntries(m, uris[..n], elems[..n]);
      EntryParses(uris[n], m[uris[n]]);
      RestrictNext(m, uris, n);
      ParseLast(elems, map u | u in uris[..n] :: m[u], uris[n], m[uris[n]]);
    }
  }

  lemma RestrictNext(m: Bindings, uris: seq<string>, n: nat)
    requires |uris| == n + 1 && Distinct(uris) && forall u :: u in uris ==> u in m
    ensures var prev := map u | u in uris[..n] :: m[u];
      uris[n] !in prev && prev[uris[n] := m[uris[n]]] == map u | u in uris :: m[u]
  {
    assert uris == uris[..n] + [uris[n]];
  }

  lemma ParseLast(elems: seq<string>, prev: Bindings, uri: string, prefix: string)
    requires elems != [] && ParseEntries(elems[..|elems| - 1]) == Some(prev) && uri !in prev
    requires ParseEntry(elems[|elems| - 1]) == Some((uri, prefix))
    ensures ParseEntries(elems) == Some(prev[uri := prefix])
  {
  }

  /** Unmarshalling the marshalled text of valid bindings gives them back, colons in the URIs and all. */
  lemma UnmarshalMarshal(m: Bindings, text: string)
    requires IsValid(m) && IsTextOf(m, text)
    ensures ParseEntries(Fields(text)) == Some(m)
  {
    var uris :| IsListing(m, uris) && text == Entries(m, uris);
    FieldsOfEntries(m, uris);
    ParseOfEntries(m, uris, Fields(text));
    assert (map u | u in uris :: m[u]) == m;
  }

  /** The text does not depend on the order in which the map is iterated over. */
  lemma TextIsUnique(m: Bindings, text: string, text': string)
    requires IsTextOf(m, text) && IsTextOf(m, text')
    ensures text == text'
  {
    var uris :| IsListing(m, uris) && text == Entries(m, uris);
    var uris' :| IsListing(m, uris') && text' == Entries(m, uris');
    StringOrder();
    StrictlySortedIsUnique(StringLe, uris, uris');
  }

  /** What UnmarshalText accepts is valid. */
  lemma {:induction false} ParsedIsValid(elems: seq<string>)
    requires ParseEntries(elems).Some?
    ensures IsValid(ParseEntries(elems).value)
  {
    if elems != [] {
      ParsedIsValid(elems[..|elems| - 1]);
    }
  }
}
