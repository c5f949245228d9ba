/** POSIX path handling as the shell uses it through Node's `path` module:
    path.isAbsolute, path.resolve, path.join (via path.normalize) and
    path.dirname. The functions follow Node's posix implementation of each;
    they are the model's stated assumption about that library. */
module Paths {
  import opened Strings

  /** A location as a sequence of segments; the root directory is []. */
  type Path = seq<string>

  /** path.isAbsolute on POSIX. */
  predicate IsAbsolute(s: string) {
    |s| > 0 && s[0] == '/'
  }

  /** A segment that names a directory entry. */
  predicate IsName(seg: string) {
    seg != "" && seg != "." && seg != ".." && '/' !in seg
  }

  /** A path all of whose segments are names: the normal form of a location. */
  predicate IsCanonical(p: Path) {
    forall i :: 0 <= i < |p| ==> IsName(p[i])
  }

  predicate NoSlash(segs: seq<string>) {
    forall i :: 0 <= i < |segs| ==> '/' !in segs[i]
  }

  /** The parent location; the root is its own parent. */
  function Up(p: Path): (r: Path)
    ensures p != [] ==> |r| == |p| - 1
  {
    if p == [] then [] else p[..|p| - 1]
  }

  /** The string form of a location: "/" for the root, "/a/b" otherwise. */
  function Render(p: Path): (r: string)
    ensures IsAbsolute(r)
  {
    "/" + JoinWith(p, '/')
  }

  /** Node's normalizeString for an absolute path: empty and "." segments
      vanish, ".." removes the previous segment and is dropped at the root. */
  function NormaliseFrom(acc: Path, segs: seq<string>): (r: Path)
    requires IsCanonical(acc) && NoSlash(segs)
    ensures IsCanonical(r)
    decreases |segs|
  {
    if segs == [] then acc
    else if segs[0] == "" || segs[0] == "." then NormaliseFrom(acc, segs[1..])
    else if segs[0] == ".." then NormaliseFrom(Up(acc), segs[1..])
    else NormaliseFrom(acc + [segs[0]], segs[1..])
  }

  /** The location an absolute path string denotes lexically. */
  function Key(s: string): (r: Path)
    ensures IsCanonical(r)
  {
    NormaliseFrom([], Split(s, '/'))
  }

  /** path.resolve(cur, s) for an absolute cur and a relative s. */
  function Resolve(cur: string, s: string): (r: string)
    ensures IsAbsolute(r)
  {
    Render(Key(cur + "/" + s))
  }

  /** getAbsolutePath (src/index.js:12-18). */
  function GetAbsolutePath(cur: string, s: string): (r: string)
    ensures IsAbsolute(r)
    ensures IsAbsolute(s) ==> r == s
  {
    if IsAbsolute(s) then s else Resolve(cur, s)
  }

  /** path.normalize for an absolute string: the canonical rendering, with a
      trailing separator kept when the input has one. */
  function NormalizeAbsolute(x: string): (r: string)
    requires IsAbsolute(x)
    ensures IsAbsolute(r)
  {
    var p := Key(x);
    if p == [] then "/"
    else Render(p) + (if x[|x| - 1] == '/' then "/" else "")
  }

  /** path.join(cur, name) for an absolute cur: empty arguments are skipped,
      the rest joined with "/" and normalised. */
  function Join(cur: string, name: string): (r: string)
    requires IsAbsolute(cur)
    ensures IsAbsolute(r)
  {
    NormalizeAbsolute(if name == "" then cur else cur + "/" + name)
  }

  /** The index Node's path.dirname cuts at: scanning from index i down to
      index 1, the first "/" met after a non-"/" character, or -1. */
  function CutIndex(s: string, i: int, matchedSlash: bool): (j: int)
    requires 0 <= i < |s|
    ensures j == -1 || (1 <= j <= i && s[j] == '/')
    ensures matchedSlash && j != -1 ==> j < i
    decreases i
  {
    if i < 1 then -1
    else if s[i] == '/' then (if !matchedSlash then i else CutIndex(s, i - 1, true))
    else CutIndex(s, i - 1, false)
  }

  /** path.dirname on POSIX. */
  function Dirname(s: string): (r: string) {
    if |s| == 0 then "."
    else
      var end := CutIndex(s, |s| - 1, true);
      if end == -1 then (if s[0] == '/' then "/" else ".")
      else if s[0] == '/' && end == 1 then "//"
      else s[..end]
  }

  // ---------------------------------------------------------------------
  // Normalisation

  /** Normalising a concatenation is normalising its two halves in turn. */
  lemma {:induction false} NormaliseAppend(acc: Path, a: seq<string>, b: seq<string>)
    requires IsCanonical(acc) && NoSlash(a) && NoSlash(b)
    ensures NoSlash(a + b)
    ensures NormaliseFrom(acc, a + b) == NormaliseFrom(NormaliseFrom(acc, a), b)
    decreases |a|
  {
    assert NoSlash(a + b) by {
      forall i | 0 <= i < |a + b| ensures '/' !in (a + b)[i] {
        if i >= |a| { assert (a + b)[i] == b[i - |a|]; }
      }
    }
    if a == [] {
      assert a + b == b;
    } else {
      assert (a + b)[0] == a[0] && (a + b)[1..] == a[1..] + b;
      var next := if a[0] == "" || a[0] == "." then acc
                  else if a[0] == ".." then Up(acc)
                  else acc + [a[0]];
      assert NormaliseFrom(acc, a + b) == NormaliseFrom(next, a[1..] + b);
      assert NormaliseFrom(acc, a) == NormaliseFrom(next, a[1..]);
      NormaliseAppend(next, a[1..], b);
    }
  }

  /** A canonical path is appended unchanged. */
  lemma {:induction false} NormaliseCanonical(acc: Path, p: Path)
    requires IsCanonical(acc) && IsCanonical(p)
    ensures NoSlash(p)
    ensures NormaliseFrom(acc, p) == acc + p
    decreases |p|
  {
    if p != [] {
      NormaliseCanonical(acc + [p[0]], p[1..]);
      assert acc + [p[0]] + p[1..] == acc + p;
    }
  }

  /** Without ".." segments normalisation never climbs above where it starts. */
  lemma {:induction false} NormaliseStaysBelow(acc: Path, segs: seq<string>)
    requires IsCanonical(acc) && NoSlash(segs)
    requires forall i :: 0 <= i < |segs| ==> segs[i] != ".."
    ensures |acc| <= |NormaliseFrom(acc, segs)|
    ensures NormaliseFrom(acc, segs)[..|acc|] == acc
    decreases |segs|
  {
    if segs != [] {
      var next := if segs[0] == "" || segs[0] == "." then acc else acc + [segs[0]];
      NormaliseStaysBelow(next, segs[1..]);
      assert next[..|acc|] == acc;
    }
  }

  lemma JoinWithSnoc(q: Path, n: string)
    requires q != []
    ensures JoinWith(q + [n], '/') == JoinWith(q, '/') + "/" + n
    decreases |q|
  {
    if |q| > 1 {
      assert (q + [n])[1..] == q[1..] + [n];
      JoinWithSnoc(q[1..], n);
    }
  }

  /** The pieces of a rendered location: one empty piece for the root
      separator, then the segments. */
  lemma SplitRender(p: Path)
    requires IsCanonical(p)
    ensures Split(Render(p), '/') == if p == [] then ["", ""] else [""] + p
  {
    SplitAtSep("", JoinWith(p, '/'), '/');
    assert Render(p) == "" + ['/'] + JoinWith(p, '/');
    if p != [] {
      SplitJoin(p, '/');
    }
  }

  /** Rendering a canonical location and reading it back yields the location. */
  lemma KeyRender(p: Path)
    requires IsCanonical(p)
    ensures Key(Render(p)) == p
  {
    SplitRender(p);
    if p == [] {
      assert NormaliseFrom([], ["", ""]) == NormaliseFrom([], [""]) == NormaliseFrom([], []);
    } else {
      NormaliseAppend([], [""], p);
      assert NormaliseFrom([], [""]) == NormaliseFrom([], []) == [];
      NormaliseCanonical([], p);
    }
  }

  /** The lexical location of cur + "/" + s: s's pieces normalised on top of
      cur's location. */
  lemma KeyOfJoined(cur: string, s: string)
    ensures Key(cur + "/" + s) == NormaliseFrom(Key(cur), Split(s, '/'))
  {
    SplitAtSep(cur, s, '/');
    NormaliseAppend([], Split(cur, '/'), Split(s, '/'));
  }

  /** A rendered location with a separator appended denotes the same place. */
  lemma KeyRenderSlash(p: Path)
    requires IsCanonical(p)
    ensures Key(Render(p) + "/") == p
  {
    SplitAtSep(Render(p), "", '/');
    assert Render(p) + "/" == Render(p) + ['/'] + "";
    NormaliseAppend([], Split(Render(p), '/'), [""]);
    KeyRender(p);
  }

  /** path.normalize keeps the location it is given. */
  lemma KeyNormalize(x: string)
    requires IsAbsolute(x)
    ensures Key(NormalizeAbsolute(x)) == Key(x)
  {
    var p := Key(x);
    if p == [] {
      assert Render([]) == "/";
      KeyRender([]);
    } else if x[|x| - 1] == '/' {
      KeyRenderSlash(p);
    } else {
      assert NormalizeAbsolute(x) == Render(p) + "" == Render(p);
      KeyRender(p);
    }
  }

  // ---------------------------------------------------------------------
  // getAbsolutePath

  /** getAbsolutePath returns an absolute input verbatim and resolves a
      relative one by normalising its pieces on top of the current
      directory's location; the relative result is in normal form. */
  lemma GetAbsolutePathLocation(cur: string, s: string)
    ensures IsAbsolute(s) ==> GetAbsolutePath(cur, s) == s
    ensures !IsAbsolute(s) ==>
      && Key(GetAbsolutePath(cur, s)) == NormaliseFrom(Key(cur), Split(s, '/'))
      && GetAbsolutePath(cur, s) == Render(Key(GetAbsolutePath(cur, s)))
  {
    if !IsAbsolute(s) {
      KeyOfJoined(cur, s);
      KeyRender(Key(cur + "/" + s));
    }
  }

  /** Applying getAbsolutePath twice is applying it once. */
  lemma GetAbsolutePathIdempotent(cur: string, s: string)
    ensures GetAbsolutePath(cur, GetAbsolutePath(cur, s)) == GetAbsolutePath(cur, s)
  {
  }

  /** From a canonical current directory, resolving ".." and then the name
      of the directory just left returns to the starting string. */
  lemma ResolveUpThenDown(p: Path, n: string)
    requires IsCanonical(p) && IsName(n)
    ensures IsCanonical(p + [n])
    ensures GetAbsolutePath(Render(p + [n]), "..") == Render(p)
    ensures GetAbsolutePath(Render(p), n) == Render(p + [n])
  {
    var cur := Render(p + [n]);
    KeyOfJoined(cur, "..");
    KeyRender(p + [n]);
    SplitNoSep("..", '/');
    assert Up(p + [n]) == p;
    assert GetAbsolutePath(cur, "..") == Render(p);
    KeyOfJoined(Render(p), n);
    KeyRender(p);
    SplitNoSep(n, '/');
  }

  // ---------------------------------------------------------------------
  // path.join

  /** The location path.join(cur, name) denotes: name's pieces normalised on
      top of cur's location, whether or not name starts with "/". */
  lemma JoinLocation(cur: string, name: string)
    requires IsAbsolute(cur) && name != ""
    ensures Key(Join(cur, name)) == NormaliseFrom(Key(cur), Split(name, '/'))
  {
    KeyNormalize(cur + "/" + name);
    KeyOfJoined(cur, name);
  }

  /** p is q or lies inside it. */
  predicate Below(p: Path, q: Path) {
    |q| <= |p| && p[..|q|] == q
  }

  /** A relative or absolute name none of whose pieces is "..". */
  predicate Descends(name: string) {
    forall i :: 0 <= i < |Split(name, '/')| ==> Split(name, '/')[i] != ".."
  }

  /** A name without ".." pieces joined to cur lands at or below cur, even
      when it is absolute. */
  lemma JoinStaysUnder(cur: string, name: string)
    requires IsAbsolute(cur) && Descends(name)
    ensures Below(Key(Join(cur, name)), Key(cur))
  {
    if name == "" {
      KeyNormalize(cur);
    } else {
      JoinLocation(cur, name);
      NormaliseStaysBelow(Key(cur), Split(name, '/'));
    }
  }

  /** A ".." piece lets a joined name climb out: from the directory p + [n],
      the name "../m" lands at p + [m], beside the current directory and not
      under it unless m is n. */
  lemma JoinCanClimb(p: Path, n: string, m: string)
    requires IsCanonical(p) && IsName(n) && IsName(m)
    ensures IsCanonical(p + [n])
    ensures Key(Join(Render(p + [n]), "../" + m)) == p + [m]
    ensures m != n ==> !Below(p + [m], p + [n])
  {
    var cur := Render(p + [n]);
    assert IsCanonical(p + [n]);
    KeyRender(p + [n]);
    var dots := "..";
    assert "../" + m == dots + ['/'] + m;
    SplitAtSep(dots, m, '/');
    SplitNoSep(dots, '/');
    SplitNoSep(m, '/');
    JoinLocation(cur, "../" + m);
    assert Split("../" + m, '/') == [dots, m];
    assert Up(p + [n]) == p;
    assert [dots, m][1..] == [m];
    assert NormaliseFrom(p + [n], [dots, m]) == NormaliseFrom(p, [m]);
    NormaliseCanonical(p, [m]);
    if m != n {
      assert (p + [m])[|p|] != (p + [n])[|p|];
    }
  }

  /** Joining a single name to any absolute current directory, or
      resolving it there, renders the child of the directory's location. */
  lemma JoinName(cur: string, n: string)
    requires IsAbsolute(cur) && IsName(n)
    ensures IsCanonical(Key(cur) + [n])
    ensures Join(cur, n) == Render(Key(cur) + [n])
    ensures GetAbsolutePath(cur, n) == Render(Key(cur) + [n])
  {
    KeyOfJoined(cur, n);
    SplitNoSep(n, '/');
    NormaliseCanonical(Key(cur), [n]);
    var x := cur + "/" + n;
    assert Key(x) == Key(cur) + [n];
    KeyNormalize(x);
    assert x[|x| - 1] == n[|n| - 1];
  }

  // ---------------------------------------------------------------------
  // path.dirname

  /** dirname of an absolute path is absolute. */
  lemma DirnameAbsolute(s: string)
    requires IsAbsolute(s)
    ensures IsAbsolute(Dirname(s))
  {
  }

  /** The current directory is its own dirname exactly at the root "/". */
  lemma DirnameFixedIffRoot(s: string)
    requires IsAbsolute(s)
    ensures Dirname(s) == s <==> s == "/"
  {
    var end := CutIndex(s, |s| - 1, true);
    if end != -1 {
      assert |Dirname(s)| < |s|;
    }
  }

  lemma {:induction false} CutThroughName(s: string, x: int, i: int, b: bool)
    requires 0 <= x < i < |s|
    requires forall k :: x < k < |s| ==> s[k] != '/'
    ensures CutIndex(s, i, b) == CutIndex(s, x, false)
    decreases i
  {
    if i - 1 > x {
      CutThroughName(s, x, i - 1, false);
    }
  }

  /** dirname of a path string ending in "/" and a piece cuts at that "/". */
  lemma DirnameOfChild(x: string, n: string)
    requires n != "" && '/' !in n
    requires x == "" || (|x| >= 2 && x[0] == '/')
    ensures Dirname(x + "/" + n) == if x == "" then "/" else x
  {
    var s := x + "/" + n;
    assert s[|x|] == '/';
    assert forall k :: |x| < k < |s| ==> s[k] == n[k - |x| - 1];
    CutThroughName(s, |x|, |s| - 1, true);
    if x != "" {
      assert s[0] == '/' && s[..|x|] == x;
    }
  }

  /** dirname of a rendered location drops its last segment. */
  lemma DirnameRender(p: Path)
    requires IsCanonical(p) && p != []
    ensures Dirname(Render(p)) == Render(Up(p))
  {
    var q, n := Up(p), p[|p| - 1];
    assert p == q + [n];
    if q == [] {
      assert Render(p) == "" + "/" + n;
      DirnameOfChild("", n);
    } else {
      JoinWithSnoc(q, n);
      assert Render(p) == Render(q) + "/" + n;
      assert |Render(q)| >= 2 by {
        assert IsName(q[0]);
        if |q| > 1 {
          assert JoinWith(q, '/') == q[0] + ['/'] + JoinWith(q[1..], '/');
        }
      }
      DirnameOfChild(Render(q), n);
    }
  }
}
