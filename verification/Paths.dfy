/** Path canonicalisation and mount-point selection of `FileManager`. */
module Paths {

  type Name = string
  type Path = seq<Name>

  /** `split("/")`: always at least one component. */
  function Split(s: string): (cs: seq<Name>)
    ensures |cs| >= 1
  {
    if s == "" then [""] else Prepend(s[0], Split(s[1..]))
  }

  function Prepend(c: char, rest: seq<Name>): (cs: seq<Name>)
    requires |rest| >= 1
    ensures |cs| >= 1
  {
    if c == '/' then [""] + rest else [[c] + rest[0]] + rest[1..]
  }

  function Push(acc: Path, c: Name): Path {
    if c == "" || c == "." then acc
    else if c == ".." then if acc == [] then [] else acc[..|acc| - 1]
    else acc + [c]
  }

  /** Walking the components from `base`. */
  function Fold(base: Path, cs: seq<Name>): Path {
    if cs == [] then base else Push(Fold(base, cs[..|cs| - 1]), cs[|cs| - 1])
  }

  function Absolute(base: string, path: string): string {
    if path != "" && path[0] == '/' then path else base + "/" + path
  }

  /** The loop of `_canonical_path_components`. */
  method CanonicalPathComponents(base: string, path: string) returns (cs: Path)
    ensures cs == Canon(base, path) && ProperPath(cs)
  {
    var parts := Split(Absolute(base, path));
    cs := [];
    for i := 0 to |parts|
      invariant cs == Fold([], parts[..i])
    {
      assert parts[..i + 1][..i] == parts[..i];
      var c := parts[i];
      if c == "" || c == "." {
      } else if c == ".." {
        if cs != [] { cs := cs[..|cs| - 1]; }
      } else {
        cs := cs + [c];
      }
    }
    assert parts[..|parts|] == parts;
    CanonIsProper(base, path);
  }

  function Canon(base: string, path: string): Path { Fold([], Split(Absolute(base, path))) }

  function Glue(cs: Path): string {
    if cs == [] then "" else if |cs| == 1 then cs[0] else cs[0] + "/" + Glue(cs[1..])
  }

  /** `_join_path`. */
  function Join(cs: Path): string { "/" + Glue(cs) }

  /** The form that prefixes are compared in; the root becomes "//". */
  function Closed(cs: Path): string { Join(cs) + "/" }

  predicate SlashFree(c: Name) { '/' !in c }

  predicate Proper(c: Name) { c != "" && c != "." && c != ".." && SlashFree(c) }

  predicate ProperPath(cs: Path) { forall i :: 0 <= i < |cs| ==> Proper(cs[i]) }

  // ---- canonical paths ----

  lemma {:induction false} SplitIsSlashFree(s: string)
    ensures forall i :: 0 <= i < |Split(s)| ==> SlashFree(Split(s)[i])
  {
    if s != "" { SplitIsSlashFree(s[1..]); }
  }

  lemma {:induction false} FoldIsProper(base: Path, cs: seq<Name>)
    requires ProperPath(base) && forall i :: 0 <= i < |cs| ==> SlashFree(cs[i])
    ensures ProperPath(Fold(base, cs))
  {
    if cs != [] { FoldIsProper(base, cs[..|cs| - 1]); }
  }

  /** No empty, "." or ".." component survives. */
  lemma CanonIsProper(base: string, path: string)
    ensures ProperPath(Canon(base, path))
  {
    SplitIsSlashFree(Absolute(base, path));
    FoldIsProper([], Split(Absolute(base, path)));
  }

  lemma {:induction false} SplitSlashFree(s: string)
    requires SlashFree(s)
    ensures Split(s) == [s]
  {
    if s != "" {
      assert s == [s[0]] + s[1..] && s[0] in s;
      SplitSlashFree(s[1..]);
    }
  }

  lemma {:induction false} SplitAppend(a: string, b: string)
    ensures Split(a + "/" + b) == Split(a) + Split(b)
  {
    hide Prepend;
    var s := a + "/" + b;
    if a == "" {
      assert s[1..] == b;
      PrependSlash(Split(b));
    } else {
      SplitAppend(a[1..], b);
      assert s[0] == a[0] && s[1..] == a[1..] + "/" + b;
      PrependAppend(a[0], Split(a[1..]), Split(b));
    }
  }

  lemma PrependSlash(rest: seq<Name>)
    requires |rest| >= 1
    ensures Prepend('/', rest) == [""] + rest
  {
  }

  lemma PrependAppend(c: char, r: seq<Name>, t: seq<Name>)
    requires |r| >= 1
    ensures Prepend(c, r + t) == Prepend(c, r) + t
  {
    assert (r + t)[0] == r[0] && (r + t)[1..] == r[1..] + t;
  }

  lemma {:induction false} FoldAppend(base: Path, xs: seq<Name>, ys: seq<Name>)
    ensures Fold(base, xs + ys) == Fold(Fold(base, xs), ys)
  {
    if ys == [] {
      assert xs + ys == xs;
    } else {
      var zs := xs + ys;
      FoldAppend(base, xs, ys[..|ys| - 1]);
      assert zs[..|zs| - 1] == xs + ys[..|ys| - 1];
    }
  }

  lemma {:induction false} FoldProper(base: Path, cs: Path)
    requires ProperPath(cs)
    ensures Fold(base, cs) == base + cs
  {
    if cs != [] {
      FoldProper(base, cs[..|cs| - 1]);
    }
  }

  lemma {:induction false} SplitGlue(cs: Path)
    requires ProperPath(cs)
    ensures Split(Glue(cs)) == if cs == [] then [""] else cs
  {
    if |cs| == 1 {
      SplitSlashFree(cs[0]);
    } else if |cs| > 1 {
      SplitSlashFree(cs[0]);
      SplitAppend(cs[0], Glue(cs[1..]));
      SplitGlue(cs[1..]);
    }
  }

  lemma SplitJoin(cs: Path)
    requires ProperPath(cs)
    ensures Fold([], Split(Join(cs))) == cs
  {
    SplitAppend("", Glue(cs));
    assert Join(cs) == "" + "/" + Glue(cs);
    SplitGlue(cs);
    FoldAppend([], [""], Split(Glue(cs)));
    if cs != [] { FoldProper([], cs); }
    assert Fold([], [""]) == [];
  }

  /** Re-canonicalising a joined path, closed or not, is the identity from any base. */
  lemma CanonJoin(base: string, cs: Path)
    requires ProperPath(cs)
    ensures Canon(base, Join(cs)) == cs && Canon(base, Closed(cs)) == cs
  {
    SplitJoin(cs);
    SplitAppend(Join(cs), "");
    assert Closed(cs) == Join(cs) + "/" + "";
    FoldAppend([], Split(Join(cs)), [""]);
    assert Fold(cs, [""]) == cs by { assert [""][..0] == []; }
  }

  /** A relative path is its components walked from the base. */
  lemma CanonRelative(base: Path, path: string)
    requires ProperPath(base) && (path == "" || path[0] != '/')
    ensures Canon(Join(base), path) == Fold(base, Split(path))
  {
    SplitAppend(Join(base), path);
    FoldAppend([], Split(Join(base)), Split(path));
    SplitJoin(base);
  }

  // ---- what the components mean ----

  /** The components that the loop has in front of what follows `a` and a slash. */
  function Upto(cwd: string, a: string): Path { Fold([], Split(if a == "" then "" else Absolute(cwd, a))) }

  lemma CanonFrom(cwd: string, a: string, x: string)
    ensures Canon(cwd, a + "/" + x) == Fold(Upto(cwd, a), Split(x))
    ensures a != "" ==> Canon(cwd, a) == Upto(cwd, a)
  {
    var front := if a == "" then "" else Absolute(cwd, a);
    assert Absolute(cwd, a + "/" + x) == front + "/" + x by {
      if a != "" && a[0] != '/' { assert cwd + "/" + (a + "/" + x) == cwd + "/" + a + "/" + x; }
    }
    SplitAppend(front, x);
    FoldAppend([], Split(front), Split(x));
  }

  lemma FoldOne(base: Path, c: Name)
    ensures Fold(base, [c]) == Push(base, c)
  {
    assert [c][..0] == [] && Fold(base, []) == base;
  }

  /** A component followed by the rest is one step and then the rest. */
  lemma FoldSplit(base: Path, c: Name, b: string)
    requires SlashFree(c)
    ensures Fold(base, Split(c + "/" + b)) == Fold(Push(base, c), Split(b))
    ensures Fold(base, Split(c)) == Push(base, c)
  {
    SplitAppend(c, b);
    SplitSlashFree(c);
    FoldAppend(base, [c], Split(b));
    FoldOne(base, c);
  }

  /** An empty component or "." can be left out anywhere. */
  lemma EmptyAndDotAreNothing(cwd: string, a: string, c: Name, b: string)
    requires c == "" || c == "."
    ensures Canon(cwd, a + "/" + c + "/" + b) == Canon(cwd, a + "/" + b)
    ensures a != "" ==> Canon(cwd, a + "/" + c) == Canon(cwd, a)
  {
    hide Canon, Fold, Split, Upto;
    CanonFrom(cwd, a, b);
    CanonFrom(cwd, a, c + "/" + b);
    CanonFrom(cwd, a, c);
    assert a + "/" + (c + "/" + b) == a + "/" + c + "/" + b;
    FoldSplit(Upto(cwd, a), c, b);
  }

  /** A component and the ".." behind it cancel. */
  lemma DotDotCancels(cwd: string, a: string, c: Name, b: string)
    requires Proper(c)
    ensures Canon(cwd, a + "/" + c + "/../" + b) == Canon(cwd, a + "/" + b)
    ensures a != "" ==> Canon(cwd, a + "/" + c + "/..") == Canon(cwd, a)
  {
    hide Canon, Fold, Split, Upto;
    var up := Upto(cwd, a);
    CanonFrom(cwd, a, b);
    CanonFrom(cwd, a, c + "/" + ("../" + b));
    CanonFrom(cwd, a, c + "/" + "..");
    assert a + "/" + (c + "/" + ("../" + b)) == a + "/" + c + "/../" + b;
    assert a + "/" + (c + "/" + "..") == a + "/" + c + "/..";
    FoldSplit(up, c, ".." + "/" + b);
    FoldSplit(up, c, "..");
    FoldSplit(up + [c], "..", b);
    assert ".." + "/" + b == "../" + b;
    assert (up + [c])[..|up|] == up;
  }

  /** From a canonical directory: up to its parent, the root being its own, down to a child, or
      nowhere; and from the root whatever the directory. */
  lemma OneStep(base: Path, c: Name, cwd: string, cwd': string, p: string)
    requires ProperPath(base) && Proper(c)
    ensures Canon(Join(base), c) == base + [c] && Canon(Join(base), "") == Canon(Join(base), ".") == base
    ensures Canon(Join(base), "..") == if base == [] then [] else base[..|base| - 1]
    ensures Canon(cwd, "/" + p) == Canon(cwd', "/" + p) && Canon(cwd, "/") == []
  {
    hide Canon;
    StepFrom(base, c);
    StepFrom(base, "");
    StepFrom(base, ".");
    StepFrom(base, "..");
    FromRoot(cwd, cwd', p);
    hide Join;
  }

  lemma StepFrom(base: Path, c: Name)
    requires ProperPath(base) && SlashFree(c)
    ensures Canon(Join(base), c) == Push(base, c)
  {
    hide Canon, Join, Fold, Split, ProperPath, Push;
    if c != "" { assert c[0] in c; }
    CanonRelative(base, c);
    FoldSplit(base, c, "");
  }

  lemma FromRoot(cwd: string, cwd': string, p: string)
    ensures Canon(cwd, "/" + p) == Canon(cwd', "/" + p) && Canon(cwd, "/") == []
  {
    CanonJoin(cwd, []);
    assert Join([]) == "/";
    hide Fold, Split, Join;
  }

  /** Walking in two steps is walking the joined path. */
  lemma CanonComposes(cwd: string, a: string, b: string)
    requires a != "" && (b == "" || b[0] != '/')
    ensures Canon(Join(Canon(cwd, a)), b) == Canon(cwd, a + "/" + b)
  {
    CanonIsProper(cwd, a);
    CanonRelative(Canon(cwd, a), b);
    CanonFrom(cwd, a, b);
  }

  // ---- prefixes ----

  predicate StartsWith(s: string, p: string) { |p| <= |s| && s[..|p|] == p }

  /** The components with a slash after each. */
  function Slashed(cs: Path): string { if cs == [] then "" else cs[0] + "/" + Slashed(cs[1..]) }

  lemma {:induction false} GlueSlashed(cs: Path)
    requires cs != []
    ensures Glue(cs) + "/" == Slashed(cs)
  {
    if |cs| > 1 {
      GlueSlashed(cs[1..]);
      assert Glue(cs) + "/" == cs[0] + "/" + (Glue(cs[1..]) + "/");
    }
  }

  /** Two slash-terminated components that agree as strings agree. */
  lemma {:induction false} SameHead(a: Name, x: string, b: Name, y: string)
    requires SlashFree(a) && SlashFree(b) && StartsWith(b + "/" + y, a + "/" + x)
    ensures a == b && StartsWith(y, x)
  {
    var s, p := b + "/" + y, a + "/" + x;
    assert b != "" ==> s[0] == b[0] && b[0] in b;
    if a == "" {
      assert p[0] == '/' && s[..|p|][0] == '/';
      if b == "" { assert s[..|p|][1..] == p[1..] && p[1..] == x && s[1..] == y; }
    } else {
      assert s[..|p|][0] == p[0] == a[0] && a[0] in a;
      assert b != "" && b[0] == a[0];
      assert s[1..] == b[1..] + "/" + y && p[1..] == a[1..] + "/" + x;
      assert s[..|p|][1..] == p[1..];
      SameHead(a[1..], x, b[1..], y);
      assert a == [a[0]] + a[1..] && b == [b[0]] + b[1..];
    }
  }

  lemma {:induction false} SlashedPrefix(a: Path, b: Path)
    requires ProperPath(a) && ProperPath(b)
    ensures StartsWith(Slashed(b), Slashed(a)) <==> a <= b
  {
    if a != [] && b != [] {
      SlashedPrefix(a[1..], b[1..]);
      if StartsWith(Slashed(b), Slashed(a)) {
        SameHead(a[0], Slashed(a[1..]), b[0], Slashed(b[1..]));
        assert a == [a[0]] + a[1..] && b == [b[0]] + b[1..];
      }
      if a <= b {
        assert a[1..] <= b[1..];
        var s, p := Slashed(b), Slashed(a);
        assert s[|a[0]| + 1..] == Slashed(b[1..]) && p[|a[0]| + 1..] == Slashed(a[1..]);
        assert s[..|p|] == p;
      }
    }
  }

  lemma ClosedSlashed(cs: Path)
    ensures cs != [] ==> Closed(cs) == "/" + Slashed(cs)
    ensures cs == [] ==> Closed(cs) == "//"
  {
    if cs != [] { GlueSlashed(cs); assert Closed(cs) == "/" + (Glue(cs) + "/"); }
  }

  /** What `rename` relies on: comparing closed strings compares components, except that the
      closed root is a prefix of nothing but itself. */
  lemma ClosedPrefix(a: Path, b: Path)
    requires ProperPath(a) && ProperPath(b)
    ensures StartsWith(Closed(b), Closed(a)) <==> if a == [] then b == [] else a <= b
    ensures Closed(a) == Closed(b) <==> a == b
  {
    HalfClosedPrefix(a, b);
    HalfClosedPrefix(b, a);
    if Closed(a) == Closed(b) { assert StartsWith(Closed(b), Closed(a)) && StartsWith(Closed(a), Closed(b)); }
  }

  lemma HalfClosedPrefix(a: Path, b: Path)
    requires ProperPath(a) && ProperPath(b)
    ensures StartsWith(Closed(b), Closed(a)) <==> if a == [] then b == [] else a <= b
  {
    ClosedSlashed(a);
    ClosedSlashed(b);
    SlashedPrefix(a, b);
    if b != [] { NoLeadingSlash(b); }
    if a != [] { NoLeadingSlash(a); }
    var s, p := Closed(b), Closed(a);
    if a != [] && b != [] {
      assert s[1..] == Slashed(b) && p[1..] == Slashed(a);
      if StartsWith(s, p) { assert s[1..][..|p| - 1] == s[..|p|][1..]; }
      if StartsWith(s[1..], p[1..]) { assert s[..|p|] == [s[0]] + s[1..][..|p| - 1]; }
    } else if b != [] {
      assert s[1] != '/' && p[1] == '/';
      assert |p| <= |s| ==> s[..|p|][1] == s[1];
    } else if a != [] {
      assert |s| < |p|;
    }
  }

  lemma NoLeadingSlash(cs: Path)
    requires ProperPath(cs) && cs != []
    ensures |Slashed(cs)| >= 2 && Slashed(cs)[0] != '/'
  {
    assert Proper(cs[0]) && cs[0][0] in cs[0];
  }

  // ---- mount points ----

  /** Mount keys end in a slash; the root's is a single one. */
  function Key(cs: Path): string { if cs == [] then "/" else Closed(cs) }

  predicate Before(a: string, b: string) {
    if a == "" then b != "" else b != "" && (a[0] < b[0] || (a[0] == b[0] && Before(a[1..], b[1..])))
  }

  /** A mount key is found only at a component boundary. */
  lemma KeyMatches(mount: Path, p: Path)
    requires ProperPath(mount) && ProperPath(p)
    ensures StartsWith(Closed(p), Key(mount)) <==> mount <= p
  {
    if mount != [] { ClosedPrefix(mount, p); } else { assert Closed(p)[..1] == "/"; }
  }

  lemma {:induction false} PrefixIsBefore(a: string, b: string)
    ensures |a| < |b| && b[..|a|] == a ==> Before(a, b)
    ensures !Before(a, a)
  {
    if a != "" && b != "" {
      PrefixIsBefore(a[1..], b[1..]);
      if |a| < |b| && b[..|a|] == a { assert b[1..][..|a[1..]|] == a[1..] && b[0] == a[0]; }
    } else if a != "" {
      PrefixIsBefore(a[1..], "");
    }
  }

  lemma {:induction false} BeforeIsAsymmetric(a: string, b: string)
    ensures !(Before(a, b) && Before(b, a))
  {
    if a != "" && b != "" { BeforeIsAsymmetric(a[1..], b[1..]); }
  }

  lemma {:induction false} BeforeIsTotal(a: string, b: string)
    ensures a == b || Before(a, b) || Before(b, a)
  {
    if a != "" && b != "" {
      BeforeIsTotal(a[1..], b[1..]);
      assert a == [a[0]] + a[1..] && b == [b[0]] + b[1..];
    }
  }

  lemma {:induction false} BeforeIsTransitive(a: string, b: string, c: string)
    requires Before(a, b) && Before(b, c)
    ensures Before(a, c)
  {
    if a != "" && a[0] == b[0] == c[0] { BeforeIsTransitive(a[1..], b[1..], c[1..]); }
  }

  /** Of two keys that both match, the later in the order is the longer. */
  lemma LaterIsLonger(s: string, a: string, b: string)
    requires StartsWith(s, a) && StartsWith(s, b)
    ensures Before(a, b) <==> |a| < |b|
  {
    BeforeIsAsymmetric(a, b);
    PrefixIsBefore(a, b);
    PrefixIsBefore(b, a);
    if |a| < |b| { assert b[..|a|] == s[..|b|][..|a|] == a; }
    if |b| < |a| { assert a[..|b|] == s[..|a|][..|b|] == b; }
    if |a| == |b| { assert a == b; }
  }

  predicate Ordered(keys: seq<string>) { forall i, j :: 0 <= i < j < |keys| ==> Before(keys[i], keys[j]) }

  /** A new key takes its place in the order. */
  method Insert(keys: seq<string>, key: string) returns (r: seq<string>)
    requires Ordered(keys)
    ensures Ordered(r) && forall k :: k in r <==> k in keys || k == key
  {
    if key in keys { return keys; }
    var i := 0;
    while i < |keys| && Before(keys[i], key)
      invariant 0 <= i <= |keys| && forall j :: 0 <= j < i ==> Before(keys[j], key)
    {
      i := i + 1;
    }
    r := keys[..i] + [key] + keys[i..];
    forall j | i <= j < |keys| ensures Before(key, keys[j]) {
      BeforeIsTotal(key, keys[i]);
      if j > i { BeforeIsTransitive(key, keys[i], keys[j]); }
    }
    assert keys == keys[..i] + keys[i..];
  }

  /** The keys, in their order, searched from the last: the key found is the longest that
      matches, and none is found only if none matches. */
  method FindMount(keys: seq<string>, s: string) returns (found: bool, key: string)
    requires Ordered(keys)
    ensures found <==> exists k :: k in keys && StartsWith(s, k)
    ensures found ==> key in keys && StartsWith(s, key)
    ensures found ==> forall k :: k in keys && StartsWith(s, k) ==> |k| <= |key| && (|k| == |key| ==> k == key)
  {
    var i := |keys|;
    while i > 0
      invariant 0 <= i <= |keys| && forall j :: i <= j < |keys| ==> !StartsWith(s, keys[j])
    {
      i := i - 1;
      if StartsWith(s, keys[i]) {
        forall k | k in keys && StartsWith(s, k) ensures |k| <= |keys[i]| && (|k| == |keys[i]| ==> k == keys[i]) {
          var j :| 0 <= j < |keys| && keys[j] == k;
          LaterIsLonger(s, keys[j], keys[i]);
        }
        return true, keys[i];
      }
    }
    return false, "";
  }

  lemma TailFrom(x: string, y: string)
    requires x != "" && x[|x| - 1] == '/'
    ensures (x + y)[|x| - 1..] == "/" + y
  {
  }

  lemma KeySlashed(mount: Path)
    ensures Key(mount) == "/" + Slashed(mount) && Key(mount)[|Key(mount)| - 1] == '/'
  {
    ClosedSlashed(mount);
    if mount != [] { SlashedEnds(mount); }
  }

  lemma ClosedSplit(mount: Path, p: Path)
    requires ProperPath(mount) && ProperPath(p) && mount <= p
    ensures |Key(mount)| <= |Closed(p)|
    ensures Closed(p)[|Key(mount)| - 1..] == if p == [] then "//" else "/" + Slashed(p[|mount|..])
  {
    hide Slashed, ProperPath, StartsWith;
    ClosedSlashed(p);
    if p == [] {
      assert Closed(p)[0..] == "//";
    } else {
      hide Key, Closed;
      var x, y := Key(mount), Slashed(p[|mount|..]);
      KeySlashed(mount);
      SlashedAppend(mount, p[|mount|..]);
      assert p == mount + p[|mount|..];
      assert Closed(p) == x + y;
      TailFrom(x, y);
    }
  }

  lemma {:induction false} SlashedAppend(a: Path, b: Path)
    ensures Slashed(a + b) == Slashed(a) + Slashed(b)
  {
    if a == [] {
      assert a + b == b;
    } else {
      assert (a + b)[1..] == a[1..] + b;
      SlashedAppend(a[1..], b);
    }
  }

  lemma {:induction false} SlashedEnds(a: Path)
    requires a != []
    ensures |Slashed(a)| >= 1 && Slashed(a)[|Slashed(a)| - 1] == '/'
  {
    if |a| > 1 { SlashedEnds(a[1..]); }
  }

  lemma {:induction false} SplitSlashed(cs: Path)
    requires ProperPath(cs)
    ensures Split(Slashed(cs)) == cs + [""]
  {
    if cs != [] {
      SplitAppend(cs[0], Slashed(cs[1..]));
      SplitSlashFree(cs[0]);
      SplitSlashed(cs[1..]);
      assert cs == [cs[0]] + cs[1..];
    }
  }

  /** What is left of the path below the mount point: the components after its own. */
  lemma ResolvedBelowMount(mount: Path, p: Path)
    requires ProperPath(mount) && ProperPath(p) && mount <= p
    ensures |Key(mount)| <= |Closed(p)|
    ensures Canon("/", Closed(p)[|Key(mount)| - 1..]) == p[|mount|..]
  {
    ClosedSplit(mount, p);
    if p == [] { CanonJoin("/", []); assert Closed([]) == "//"; } else { CanonSlashed(p[|mount|..]); }
    hide Closed, Key, Canon, Slashed;
  }

  lemma CanonSlashed(rest: Path)
    requires ProperPath(rest)
    ensures Canon("/", "/" + Slashed(rest)) == rest
  {
    var s := "/" + Slashed(rest);
    SplitAppend("", Slashed(rest));
    assert s == "" + "/" + Slashed(rest);
    SplitSlashed(rest);
    assert Split(s) == [""] + rest + [""];
    hide Split, Slashed, ProperPath;
    FoldAppend([], [""] + rest, [""]);
    FoldAppend([], [""], rest);
    FoldProper([], rest);
    FoldEmpty([]);
    FoldEmpty(rest);
    assert [] + rest == rest;
  }

  lemma FoldEmpty(base: Path)
    ensures Fold(base, [""]) == base
  {
    assert [""][..0] == [];
  }
}
