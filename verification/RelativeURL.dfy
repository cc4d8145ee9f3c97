/** Relative URL paths (internal/httputil/relativeurl.go) against the reference resolution of RFC 3986. */
module RelativeURL {
  import opened Basics
  import opened Text

  // ---------- sections 5.2.3 and 5.2.4 of RFC 3986 ----------

  /** All of the path up to its last slash. */
  function Dir(path: string): string {
    path[..LastIndexOf(path, '/') + 1]
  }

  /** The output without its last segment and the slash before it. */
  function WithoutLast(output: string): string {
    var i := LastIndexOf(output, '/');
    if i < 0 then "" else output[..i]
  }

  /** The length of the first path segment of the input, with the slash it starts with, if any. */
  function FirstSegment(input: string): (n: nat)
    requires input != ""
    ensures 1 <= n <= |input|
  {
    1 + IndexOf(input[1..], '/')
  }

  /** The loop of remove_dot_segments. */
  function RemoveDots(input: string, output: string): string
    decreases |input|
  {
    if input == "" then output
    else if "../" <= input then RemoveDots(input[3..], output)
    else if "./" <= input then RemoveDots(input[2..], output)
    else if "/./" <= input then RemoveDots(input[2..], output)
    else if input == "/." then RemoveDots("/", output)
    else if "/../" <= input then RemoveDots(input[3..], WithoutLast(output))
    else if input == "/.." then RemoveDots("/", WithoutLast(output))
    else if input == "." || input == ".." then output
    else
      var n := FirstSegment(input);
      RemoveDots(input[n..], output + input[..n])
  }

  /** The path of the target of a reference that is only a path, for an absolute base path. */
  function Resolve(base: string, ref: string): string {
    if ref == "" then base
    else if ref[0] == '/' then RemoveDots(ref, "")
    else RemoveDots(Dir(base) + ref, "")
  }

  // ---------- the code ----------

  predicate IsAbsolute(path: string) {
    path != "" && path[0] == '/'
  }

  /** No segment is "." or "..". */
  ghost predicate IsNormal(path: string) {
    forall p :: p in Split(path, '/') ==> p != "." && p != ".."
  }

  function CommonPrefix(a: seq<string>, b: seq<string>): (n: nat)
    ensures n <= |a| && n <= |b|
  {
    if a != [] && b != [] && a[0] == b[0] then 1 + CommonPrefix(a[1..], b[1..]) else 0
  }

  lemma {:induction false} CommonPrefixIsLongest(a: seq<string>, b: seq<string>)
    ensures var n := CommonPrefix(a, b); a[..n] == b[..n] && (n < |a| && n < |b| ==> a[n] != b[n])
  {
    if a != [] && b != [] && a[0] == b[0] {
      CommonPrefixIsLongest(a[1..], b[1..]);
      var n := CommonPrefix(a, b);
      assert a[..n] == [a[0]] + a[1..][..n - 1] && b[..n] == [b[0]] + b[1..][..n - 1];
    }
  }

  function Repeat(s: string, n: nat): seq<string> {
    if n == 0 then [] else Repeat(s, n - 1) + [s]
  }

  /** The parts of the relative path between two paths given as directories and the target's last part. */
  function RelativeParts(baseDirs: seq<string>, targDirs: seq<string>, last: string): seq<string> {
    var i := CommonPrefix(baseDirs, targDirs);
    Parts(|baseDirs| - i, targDirs[i..], last)
  }

  function Parts(up: nat, down: seq<string>, last: string): seq<string> {
    Repeat("..", up) + down + [last]
  }

  function DirParts(path: string): seq<string> {
    var parts := Split(path, '/');
    parts[..|parts| - 1]
  }

  function LastPart(path: string): string {
    var parts := Split(path, '/');
    parts[|parts| - 1]
  }

  /** The parts joined; the empty path becomes a dot. */
  function Final(parts: seq<string>): string {
    var final := Join(parts, '/');
    if final == "" then "." else final
  }

  function Relative(base: string, targ: string): string {
    Final(RelativeParts(DirParts(base), DirParts(targ), LastPart(targ)))
  }

  /** RelativeURLPath; None stands for an error. */
  method RelativeURLPath(basePath: string, targPath: string) returns (r: Option<string>)
    ensures r == if IsAbsolute(basePath) && IsAbsolute(targPath) then Some(Relative(basePath, targPath)) else None
  {
    if !IsAbsolute(basePath) || !IsAbsolute(targPath) {
      return None;
    }
    var baseParts := Split(basePath, '/');
    var targParts := Split(targPath, '/');
    var lastElem := targParts[|targParts| - 1];
    baseParts := baseParts[0..|baseParts| - 1];
    targParts := targParts[0..|targParts| - 1];
    var i := 0;
    while i < |baseParts|
      invariant i <= |baseParts| && i <= |targParts|
      invariant CommonPrefix(baseParts, targParts) == i + CommonPrefix(baseParts[i..], targParts[i..])
    {
      if i >= |targParts| || baseParts[i] != targParts[i] {
        break;
      }
      assert baseParts[i..][1..] == baseParts[i + 1..] && targParts[i..][1..] == targParts[i + 1..];
      i := i + 1;
    }
    var dotdotCount := |baseParts| - i;
    var targOnly := targParts[i..];
    var result := [];
    for j := 0 to dotdotCount
      invariant result == Repeat("..", j)
    {
      result := result + [".."];
    }
    result := result + targOnly;
    result := result + [lastElem];
    var final := Join(result, '/');
    if final == "" {
      final := ".";
    }
    return Some(final);
  }

  // ---------- paths as segments ----------

  /** A slash before each segment. */
  function Abs(segs: seq<string>): string {
    if segs == [] then "" else "/" + segs[0] + Abs(segs[1..])
  }

  ghost predicate Plain(segs: seq<string>) {
    forall s :: s in segs ==> '/' !in s && s != "." && s != ".."
  }

  lemma {:induction false} JoinIsAbs(parts: seq<string>)
    requires parts != []
    ensures "/" + Join(parts, '/') == Abs(parts)
  {
    if |parts| == 1 {
      assert Abs(parts[1..]) == "";
    } else {
      JoinIsAbs(parts[1..]);
      assert "/" + Join(parts, '/') == "/" + parts[0] + ("/" + Join(parts[1..], '/'));
    }
  }

  lemma {:induction false} AbsAppend(a: seq<string>, b: seq<string>)
    ensures Abs(a + b) == Abs(a) + Abs(b)
  {
    if a == [] {
      assert a + b == b;
    } else {
      AbsAppend(a[1..], b);
      assert (a + b)[1..] == a[1..] + b;
    }
  }

  lemma {:induction false} LastSlash(s: string, x: string)
    requires '/' !in x
    ensures LastIndexOf(s + "/" + x, '/') == |s|
  {
    var t := s + "/" + x;
    if x != "" {
      var n := |x| - 1;
      LastSlash(s, x[..n]);
      assert t[..|t| - 1] == s + "/" + x[..n] && t[|t| - 1] == x[n];
    }
  }

  lemma DropLast(segs: seq<string>, x: string)
    requires '/' !in x
    ensures Abs(segs + [x]) == Abs(segs) + "/" + x
    ensures WithoutLast(Abs(segs + [x])) == Abs(segs) && Dir(Abs(segs + [x])) == Abs(segs) + "/"
  {
    AbsAppend(segs, [x]);
    assert Abs([x]) == "/" + x by { assert Abs([x][1..]) == ""; }
    LastSlash(Abs(segs), x);
    assert Abs(segs) + ("/" + x) == Abs(segs) + "/" + x;
  }

  /** An absolute path by its segments. */
  lemma AbsoluteIsAbs(path: string) returns (dirs: seq<string>, last: string)
    requires IsAbsolute(path)
    ensures path == Abs(dirs + [last]) && DirParts(path) == [""] + dirs && LastPart(path) == last
    ensures forall s :: s in dirs + [last] ==> '/' !in s
    ensures IsNormal(path) ==> Plain(dirs + [last])
  {
    var parts := Split(path, '/');
    JoinSplit(path, '/');
    assert IndexOf(path, '/') == 0;
    assert parts == [""] + Split(path[1..], '/');
    var n := |parts| - 1;
    dirs, last := parts[1..n], parts[n];
    assert forall s :: s in parts[1..] ==> s in parts;
    assert dirs + [last] == parts[1..] && [""] + dirs == parts[..n];
    JoinIsAbs(parts[1..]);
  }

  // ---------- removing dot segments ----------

  lemma PlainSegment(s: string, rest: seq<string>, output: string)
    requires Plain([s])
    ensures RemoveDots(Abs([s] + rest), output) == RemoveDots(Abs(rest), output + "/" + s)
  {
    assert s in [s];
    assert ([s] + rest)[1..] == rest;
    var tail := Abs(rest);
    var first := "/" + s;
    var input := first + tail;
    assert Abs([s] + rest) == input && (tail == "" || tail[0] == '/');
    NotADotSegment(s, tail);
    FirstIsPlain(s, tail);
    RemoveOther(input, output, |first|);
    assert input[..|first|] == first && input[|first|..] == tail;
    assert output + first == output + "/" + s;
  }

  /** The last case of the loop: the first segment goes to the output. */
  lemma RemoveOther(input: string, output: string, n: nat)
    requires input != "" && !("../" <= input) && !("./" <= input) && !("/./" <= input) && input != "/."
    requires !("/../" <= input) && input != "/.." && input != "." && input != ".." && n == FirstSegment(input)
    ensures RemoveDots(input, output) == RemoveDots(input[n..], output + input[..n])
  {
  }

  lemma FirstIsPlain(s: string, tail: string)
    requires '/' !in s && (tail == "" || tail[0] == '/')
    ensures FirstSegment("/" + s + tail) == 1 + |s|
  {
    assert ("/" + s + tail)[1..] == s + tail;
    if tail == "" {
      assert s + tail == s && IndexOf(s, '/') == |s|;
    } else {
      IndexOfSeparator(s, '/', tail[1..]);
      assert s + tail == s + ['/'] + tail[1..];
    }
  }

  lemma NotADotSegment(s: string, tail: string)
    requires '/' !in s && s != "." && s != ".." && (tail == "" || tail[0] == '/')
    ensures var input := "/" + s + tail;
      && !("../" <= input) && !("./" <= input) && !("/./" <= input) && input != "/."
      && !("/../" <= input) && input != "/.." && input != "." && input != ".."
  {
    var input := "/" + s + tail;
    assert input[0] == '/';
    assert forall i :: 0 <= i < |s| ==> input[1 + i] == s[i] && s[i] != '/';
    assert tail != "" ==> input[1 + |s|] == '/';
    assert |s| == 1 ==> s == [s[0]];
    assert |s| == 2 ==> s == [s[0], s[1]];
    if |input| >= 4 {
      var c1, c2, c3 := input[1], input[2], input[3];
      assert "/../" <= input ==> c1 == '.' && c2 == '.' && c3 == '/';
      assert |s| >= 3 ==> c3 == s[2];
      assert |s| == 2 ==> c1 == s[0] && c2 == s[1] && !(s[0] == '.' && s[1] == '.');
    }
  }

  lemma {:induction false} PlainSegments(segs: seq<string>, rest: seq<string>, output: string)
    requires Plain(segs)
    ensures RemoveDots(Abs(segs + rest), output) == RemoveDots(Abs(rest), output + Abs(segs))
  {
    if segs == [] {
      assert segs + rest == rest && output + "" == output;
    } else {
      var s := segs[0];
      assert segs + rest == [s] + (segs[1..] + rest) && s in segs;
      PlainSegment(s, segs[1..] + rest, output);
      PlainSegments(segs[1..], rest, output + "/" + s);
      assert output + "/" + s + Abs(segs[1..]) == output + Abs(segs);
    }
  }

  lemma DotDotSegment(rest: seq<string>, dirs: seq<string>, last: string)
    requires rest != [] && '/' !in last
    ensures RemoveDots(Abs([".."] + rest), Abs(dirs + [last])) == RemoveDots(Abs(rest), Abs(dirs))
  {
    assert ([".."] + rest)[1..] == rest;
    assert Abs([".."] + rest) == "/.." + Abs(rest) && Abs(rest)[0] == '/';
    DropLast(dirs, last);
    RemoveDotDot(Abs(rest), Abs(dirs + [last]));
  }

  lemma {:induction false} RemoveDotDot(tail: string, output: string)
    requires tail != "" && tail[0] == '/'
    ensures RemoveDots("/.." + tail, output) == RemoveDots(tail, WithoutLast(output))
  {
    var input := "/.." + tail;
    assert input[..4] == "/../" && input[3..] == tail;
    assert input[0] == '/' && input[2] == '.';
  }

  lemma {:induction false} RepeatFront(s: string, n: nat)
    requires n > 0
    ensures Repeat(s, n) == [s] + Repeat(s, n - 1)
  {
    if n > 1 {
      RepeatFront(s, n - 1);
    }
  }

  lemma {:induction false} DotDotSegments(n: nat, rest: seq<string>, dirs: seq<string>)
    requires n <= |dirs| && rest != [] && Plain(dirs)
    ensures RemoveDots(Abs(Repeat("..", n) + rest), Abs(dirs)) == RemoveDots(Abs(rest), Abs(dirs[..|dirs| - n]))
  {
    if n == 0 {
      assert [] + rest == rest && dirs[..|dirs|] == dirs;
    } else {
      var m := |dirs| - 1;
      RepeatFront("..", n);
      assert Repeat("..", n) + rest == [".."] + (Repeat("..", n - 1) + rest);
      assert dirs == dirs[..m] + [dirs[m]];
      DotDotSegment(Repeat("..", n - 1) + rest, dirs[..m], dirs[m]);
      DotDotSegments(n - 1, rest, dirs[..m]);
      assert dirs[..m][..m - (n - 1)] == dirs[..|dirs| - n];
    }
  }

  // ---------- the theorem ----------

  /** The target begins with the directory of the base and an empty segment: what the code gets wrong. */
  ghost predicate EmptySegmentAfterBase(base: string, targ: string) {
    Dir(base) + "/" <= targ
  }

  lemma {:induction false} PrefixBySegments(dirs: seq<string>, segs: seq<string>)
    requires (forall s :: s in dirs ==> '/' !in s) && segs != [] && forall s :: s in segs ==> '/' !in s
    ensures Abs(dirs) + "//" <= Abs(segs) <==> |dirs| + 1 < |segs| && segs[..|dirs|] == dirs && segs[|dirs|] == ""
  {
    var s := segs[0];
    var tail := Abs(segs[1..]);
    assert s in segs && Abs(segs) == "/" + s + tail && (tail == "" <==> |segs| == 1);
    if dirs == [] {
      if s == "" && tail != "" {
        assert Abs(segs)[..2] == "//";
      } else if s != "" {
        assert Abs(segs)[1] == s[0];
      }
    } else {
      var d := dirs[0];
      assert d in dirs;
      var p := Abs(dirs) + "//";
      var ptail := Abs(dirs[1..]) + "//";
      assert p == "/" + d + ptail && ptail[0] == '/';
      SameFirstSegment(d, ptail, s, tail);
      if d == s && |segs| > 1 {
        PrefixBySegments(dirs[1..], segs[1..]);
        if |dirs| < |segs| {
          assert segs[..|dirs|] == [s] + segs[1..][..|dirs| - 1] && dirs == [d] + dirs[1..];
        }
      }
      if |dirs| < |segs| {
        assert segs[..|dirs|][0] == s;
      }
    }
  }

  lemma SameFirstSegment(d: string, ptail: string, s: string, tail: string)
    requires '/' !in d && '/' !in s && ptail != "" && ptail[0] == '/' && (tail == "" || tail[0] == '/')
    ensures "/" + d + ptail <= "/" + s + tail <==> d == s && ptail <= tail
  {
    var p, q := "/" + d + ptail, "/" + s + tail;
    if p <= q {
      assert forall i :: 0 <= i < |p| ==> p[i] == q[i];
      assert p[1 + |d|] == '/' && forall i :: 0 <= i < |d| ==> p[1 + i] == d[i];
      assert forall i :: 0 <= i < |s| ==> q[1 + i] == s[i] && s[i] != '/';
      assert tail != "" ==> q[1 + |s|] == '/';
      assert |d| == |s|;
      assert d == s && ptail == p[1 + |d|..] && tail == q[1 + |s|..];
    }
  }

  /** The parts that are joined: one ".." for each directory of the base outside the common ones, and what
      the target has outside them. */
  lemma PartsAre(a: seq<string>, b: seq<string>, bd: seq<string>, td: seq<string>, last: string, c: nat)
    requires a == [""] + bd && b == [""] + td && c == CommonPrefix(bd, td)
    ensures RelativeParts(a, b, last) == Parts(|bd| - c, td[c..], last)
  {
    CommonRoot(a, b, bd, td);
    assert b[c + 1..] == td[c..];
  }

  lemma RegroupParts(up: nat, down: seq<string>, last: string)
    ensures Parts(up, down, last) == Repeat("..", up) + (down + [last])
  {
  }

  lemma CommonRoot(a: seq<string>, b: seq<string>, bd: seq<string>, td: seq<string>)
    requires a == [""] + bd && b == [""] + td
    ensures CommonPrefix(a, b) == 1 + CommonPrefix(bd, td)
  {
    assert a[1..] == bd && b[1..] == td;
  }

  /** Plain segments are all kept. */
  lemma PlainIsKept(segs: seq<string>, output: string)
    requires Plain(segs)
    ensures RemoveDots(Abs(segs), output) == output + Abs(segs)
  {
    PlainSegments(segs, [], output);
    assert segs + [] == segs && Abs([]) == "";
  }

  lemma ResolveDot(base: string, bd: seq<string>, bl: string)
    requires base == Abs(bd + [bl]) && Plain(bd) && '/' !in bl
    ensures Resolve(base, ".") == Abs(bd + [""])
  {
    DropLast(bd, bl);
    DropLast(bd, "");
    AbsAppend(bd, ["."]);
    assert Abs(["."]) == "/." by { assert Abs(["."][1..]) == ""; }
    assert Dir(base) + "." == Abs(bd + ["."]);
    PlainSegments(bd, ["."], "");
    assert "" + Abs(bd) == Abs(bd);
    RemoveFinalDot(Abs(bd));
  }

  lemma RemoveFinalDot(output: string)
    ensures RemoveDots("/.", output) == output + "/"
  {
    assert "./"[0] != "/."[0];
    assert RemoveDots("/.", output) == RemoveDots("/", output);
    assert IndexOf("", '/') == 0 && FirstSegment("/") == 1 && "/"[1..] == "";
    assert RemoveDots("/", output) == RemoveDots("", output + "/");
  }

  /** What a reference that is not absolute is appended to. */
  lemma MergedParts(base: string, bd: seq<string>, bl: string, parts: seq<string>)
    requires base == Abs(bd + [bl]) && '/' !in bl && parts != []
    ensures Dir(base) + Join(parts, '/') == Abs(bd + parts)
  {
    DropLast(bd, bl);
    JoinIsAbs(parts);
    AbsAppend(bd, parts);
    assert Dir(base) + Join(parts, '/') == Abs(bd) + ("/" + Join(parts, '/'));
  }

  /** A reference of parts, the first not empty, is resolved by climbing and descending. */
  lemma {:induction false} ResolveParts(base: string, bd: seq<string>, bl: string, k: nat, rest: seq<string>,
                                        ref: string)
    requires base == Abs(bd + [bl]) && Plain(bd) && '/' !in bl && k <= |bd| && rest != [] && Plain(rest)
    requires ref == Join(Repeat("..", k) + rest, '/') && ref != "" && ref[0] != '/'
    ensures Resolve(base, ref) == Abs(bd[..|bd| - k] + rest)
  {
    MergedParts(base, bd, bl, Repeat("..", k) + rest);
    ClimbAndDescend(bd, k, rest, Repeat("..", k), bd[..|bd| - k]);
  }

  lemma ClimbAndDescend(bd: seq<string>, k: nat, rest: seq<string>, climb: seq<string>, up: seq<string>)
    requires Plain(bd) && k <= |bd| && rest != [] && Plain(rest) && climb == Repeat("..", k) && up == bd[..|bd| - k]
    ensures RemoveDots(Abs(bd + (climb + rest)), "") == Abs(up + rest)
  {
    var before, after := Abs(bd), Abs(up);
    PlainSegments(bd, climb + rest, "");
    assert "" + before == before;
    DotDotSegments(k, rest, bd);
    PlainIsKept(rest, after);
    AbsAppend(up, rest);
  }

  /** A reference that begins with an empty segment is absolute and loses the base. */
  lemma ResolveEmptyFirst(base: string, rest: seq<string>)
    requires |rest| > 1 && rest[0] == "" && Plain(rest)
    ensures Join(rest, '/') != "" && Join(rest, '/')[0] == '/' && |Resolve(base, Join(rest, '/'))| < |Abs(rest)|
  {
    JoinIsAbs(rest[1..]);
    assert Join(rest, '/') == "" + ['/'] + Join(rest[1..], '/') == Abs(rest[1..]);
    assert forall s :: s in rest[1..] ==> s in rest;
    PlainIsKept(rest[1..], "");
  }

  lemma {:induction false} FirstOfParts(k: nat, rest: seq<string>)
    requires rest != [] && Plain(rest) && (k > 0 || |rest| == 1 || rest[0] != "")
    ensures var ref := Join(Repeat("..", k) + rest, '/');
      (ref == "" <==> k == 0 && rest == [""]) && (ref != "" ==> ref[0] != '/')
  {
    var parts := Repeat("..", k) + rest;
    if k > 0 {
      RepeatFront("..", k);
      assert parts[0] == "..";
    } else {
      assert parts == rest && rest[0] in rest;
    }
    if |parts| > 1 {
      assert Join(parts, '/') == parts[0] + ['/'] + Join(parts[1..], '/');
    }
  }

  /** Following the segments from a directory at the given depth never goes above the root. */
  predicate StaysBelowRoot(depth: nat, segs: seq<string>)
    decreases |segs|
  {
    if segs == [] then true
    else if segs[0] == ".." then depth > 0 && StaysBelowRoot(depth - 1, segs[1..])
    else if segs[0] == "." then StaysBelowRoot(depth, segs[1..])
    else StaysBelowRoot(depth + 1, segs[1..])
  }

  lemma {:induction false} PlainStaysBelow(depth: nat, segs: seq<string>)
    requires Plain(segs)
    ensures StaysBelowRoot(depth, segs)
    decreases |segs|
  {
    if segs != [] {
      assert segs[0] in segs;
      PlainStaysBelow(depth + 1, segs[1..]);
    }
  }

  lemma {:induction false} ClimbStaysBelow(depth: nat, up: nat, rest: seq<string>)
    requires Plain(rest)
    ensures StaysBelowRoot(depth, Repeat("..", up) + rest) <==> up <= depth
    decreases up
  {
    if up == 0 {
      assert Repeat("..", up) + rest == rest;
      PlainStaysBelow(depth, rest);
    } else {
      RepeatFront("..", up);
      var segs := Repeat("..", up) + rest;
      assert segs[0] == ".." && segs[1..] == Repeat("..", up - 1) + rest;
      if depth > 0 {
        ClimbStaysBelow(depth - 1, up - 1, rest);
      }
    }
  }

  /** The number of directories that a path is in. */
  function Depth(path: string): int {
    |DirParts(path)| - 1
  }

  /** The number of ".." segments the code puts in front. */
  function Ups(base: string, targ: string): int {
    |DirParts(base)| - CommonPrefix(DirParts(base), DirParts(targ))
  }

  /** Two absolute paths and the relative one by their segments. */
  lemma InSegments(base: string, targ: string)
    returns (bd: seq<string>, bl: string, td: seq<string>, tl: string, c: nat, rest: seq<string>)
    requires IsAbsolute(base) && IsAbsolute(targ)
    ensures base == Abs(bd + [bl]) && targ == Abs(td + [tl])
    ensures forall s :: s in bd + [bl] || s in td + [tl] ==> '/' !in s
    ensures (IsNormal(base) ==> Plain(bd + [bl])) && (IsNormal(targ) ==> Plain(td + [tl]))
    ensures c == CommonPrefix(bd, td) && rest == td[c..] + [tl] && Depth(base) == |bd| && Ups(base, targ) == |bd| - c
    ensures Relative(base, targ) == Final(Repeat("..", |bd| - c) + rest)
  {
    bd, bl := AbsoluteIsAbs(base);
    td, tl := AbsoluteIsAbs(targ);
    c := CommonPrefix(bd, td);
    rest := td[c..] + [tl];
    PartsAre([""] + bd, [""] + td, bd, td, tl, c);
    CommonRoot([""] + bd, [""] + td, bd, td);
    RegroupParts(|bd| - c, td[c..], tl);
  }

  /** For all absolute paths there are no more ".." in front than the base has directories. */
  lemma UpsAreBounded(base: string, targ: string)
    requires IsAbsolute(base) && IsAbsolute(targ)
    ensures 0 <= Ups(base, targ) <= Depth(base)
  {
    var bd, bl, td, tl, c, rest := InSegments(base, targ);
  }

  /** The segments of the relative path climb no further than the root, for every normalized target. */
  lemma NeverAboveRoot(base: string, targ: string)
    requires IsAbsolute(base) && IsAbsolute(targ) && IsNormal(targ)
    ensures StaysBelowRoot(Depth(base), Split(Relative(base, targ), '/'))
  {
    var bd, bl, td, tl, c, rest := InSegments(base, targ);
    assert forall s :: s in rest ==> s in td + [tl];
    PartsStayBelow(|bd|, |bd| - c, rest, Repeat("..", |bd| - c) + rest);
  }

  lemma PartsStayBelow(depth: nat, up: nat, rest: seq<string>, parts: seq<string>)
    requires up <= depth && rest != [] && Plain(rest) && parts == Repeat("..", up) + rest
    ensures StaysBelowRoot(depth, Split(Final(parts), '/'))
  {
    if Join(parts, '/') == "" {
      DotIsOneSegment(".");
      DotStaysBelow(depth, ["."]);
    } else {
      ClimbStaysBelow(depth, up, rest);
      RepeatedHasNoSlash(up);
      SplitJoin(parts, '/');
    }
  }

  lemma DotIsOneSegment(s: string)
    requires s == "."
    ensures Split(s, '/') == [s]
  {
    assert IndexOf(s, '/') == 1;
  }

  lemma DotStaysBelow(depth: nat, segs: seq<string>)
    requires segs == ["."]
    ensures StaysBelowRoot(depth, segs)
  {
  }

  lemma {:induction false} RepeatedHasNoSlash(n: nat)
    ensures forall s :: s in Repeat("..", n) ==> '/' !in s
  {
    if n > 0 {
      RepeatedHasNoSlash(n - 1);
    }
  }

  /** For absolute, normalized paths the relative path is not empty and never climbs above the root; and it is
      relative and leads from the base to exactly the target, unless the target continues the directory of the
      base with an empty segment. */
  lemma RelativeInvertsResolution(base: string, targ: string)
    requires IsAbsolute(base) && IsAbsolute(targ) && IsNormal(base) && IsNormal(targ)
    ensures var rel := Relative(base, targ);
      && rel != "" && StaysBelowRoot(Depth(base), Split(rel, '/'))
      && (Resolve(base, rel) == targ <==> !EmptySegmentAfterBase(base, targ))
      && (!IsAbsolute(rel) <==> !EmptySegmentAfterBase(base, targ))
  {
    NeverAboveRoot(base, targ);
    LeadsToTarget(base, targ);
  }

  lemma LeadsToTarget(base: string, targ: string)
    requires IsAbsolute(base) && IsAbsolute(targ) && IsNormal(base) && IsNormal(targ)
    ensures var rel := Relative(base, targ);
      && rel != ""
      && (Resolve(base, rel) == targ <==> !EmptySegmentAfterBase(base, targ))
      && (!IsAbsolute(rel) <==> !EmptySegmentAfterBase(base, targ))
  {
    var bd, bl, td, tl, c, rest := InSegments(base, targ);
    PlainPieces(bd, bl, td, tl, c);
    CommonPrefixIsLongest(bd, td);
    WhenEmptyFollows(base, targ, bd, bl, td, tl);
    assert td + [tl] == bd[..c] + rest;
    AbsAppend(bd[..c], rest);
    if c == |bd| && c < |td| && td[c] == "" {
      assert Repeat("..", 0) + rest == rest;
      ResolveEmptyFirst(base, rest);
    } else {
      ResolveGood(base, bd, bl, |bd| - c, rest);
    }
  }

  lemma {:induction false} ResolveGood(base: string, bd: seq<string>, bl: string, k: nat, rest: seq<string>)
    requires base == Abs(bd + [bl]) && Plain(bd) && '/' !in bl && k <= |bd| && rest != [] && Plain(rest)
    requires k > 0 || |rest| == 1 || rest[0] != ""
    ensures var final := Join(Repeat("..", k) + rest, '/');
      && Resolve(base, if final == "" then "." else final) == Abs(bd[..|bd| - k] + rest)
      && (final != "" ==> !IsAbsolute(final))
  {
    FirstOfParts(k, rest);
    if k == 0 && rest == [""] {
      assert bd[..|bd|] == bd;
      ResolveDot(base, bd, bl);
    } else {
      ResolveParts(base, bd, bl, k, rest, Join(Repeat("..", k) + rest, '/'));
    }
  }

  /** The exceptional targets by their segments. */
  lemma {:induction false} WhenEmptyFollows(base: string, targ: string, bd: seq<string>, bl: string, td: seq<string>,
                                            tl: string)
    requires base == Abs(bd + [bl]) && targ == Abs(td + [tl])
    requires forall s :: s in bd + [bl] || s in td + [tl] ==> '/' !in s
    ensures var c := CommonPrefix(bd, td);
      EmptySegmentAfterBase(base, targ) <==> c == |bd| && c < |td| && td[c] == ""
  {
    var c := CommonPrefix(bd, td);
    CommonPrefixIsLongest(bd, td);
    assert bl in bd + [bl] && forall s :: s in bd ==> s in bd + [bl];
    DropLast(bd, bl);
    assert Dir(base) + "/" == Abs(bd) + "//";
    PrefixBySegments(bd, td + [tl]);
    if c < |bd| < |td| {
      assert (td + [tl])[..|bd|][c] == td[c] != bd[c];
    }
    if c == |bd| < |td| {
      assert (td + [tl])[..|bd|] == td[..c] == bd;
    }
  }

  lemma PlainPieces(bd: seq<string>, bl: string, td: seq<string>, tl: string, c: nat)
    requires Plain(bd + [bl]) && Plain(td + [tl]) && c <= |td|
    ensures Plain(bd) && '/' !in bl && Plain(td[c..] + [tl])
  {
    assert forall s :: s in bd ==> s in bd + [bl];
    assert bl in bd + [bl];
    assert forall s :: s in td[c..] + [tl] ==> s in td + [tl];
  }

  lemma ExampleParts()
    ensures DirParts("/") == [""] && DirParts("//b") == ["", ""] && LastPart("//b") == "b"
  {
    assert "//b"[1..] == "/b" && "/b"[1..] == "b" && "/"[1..] == "";
    assert IndexOf("b", '/') == 1;
    assert Split("b", '/') == ["b"] && Split("", '/') == [""];
    assert Split("/b", '/') == [""] + Split("b", '/');
    assert Split("//b", '/') == [""] + Split("/b", '/');
    assert Split("/", '/') == [""] + Split("", '/');
  }

  /** The smallest such target: from "/" the path "//b" is reached by "/b", which is absolute. */
  lemma EmptySegmentExample(base: string, targ: string)
    requires base == "/" && targ == "//b"
    ensures EmptySegmentAfterBase(base, targ) && Relative(base, targ) == "/b"
  {
    ExampleParts();
    assert LastIndexOf(base, '/') == 0;
    assert targ[..2] == "//";
    CommonRoot([""], ["", ""], [], [""]);
    var parts := RelativeParts([""], ["", ""], "b");
    assert parts == ["", "b"];
    assert Join(parts[1..], '/') == "b";
  }
}
