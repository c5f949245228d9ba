/** The filesystem the shell works on, as the operating system presents it
    through Node's `fs` calls: a map from locations to directories and
    regular files. Path strings are resolved the way the kernel resolves
    them (without symbolic links): every component before the last must be
    an existing directory, "" and "." stay put, ".." climbs (and stays at
    the root). */
module FileSystem {
  import opened Options
  import opened Strings
  import opened Paths
  import opened Order

  newtype byte = x: int | 0 <= x < 256

  datatype Node = Dir | File(bytes: seq<byte>)

  type Fs = map<Path, Node>

  predicate IsDir(fs: Fs, p: Path) {
    p in fs && fs[p].Dir?
  }

  predicate IsFile(fs: Fs, p: Path) {
    p in fs && fs[p].File?
  }

  /** A tree: the root is a directory, every location is canonical and
      every entry other than the root sits in a directory. */
  predicate Valid(fs: Fs) {
    && IsDir(fs, [])
    && forall p :: p in fs ==> IsCanonical(p) && (p != [] ==> IsDir(fs, Up(p)))
  }

  /** An entry exists at p, or could be created there. */
  predicate Placed(fs: Fs, p: Path) {
    p in fs || (p != [] && IsDir(fs, Up(p)))
  }

  /** The two filesystems have the same directories. */
  ghost predicate SameDirs(fs: Fs, fs': Fs) {
    forall p :: IsDir(fs, p) <==> IsDir(fs', p)
  }

  /** One step of path resolution from the directory at. */
  function Next(at: Path, seg: string): Path {
    if seg == "" || seg == "." then at
    else if seg == ".." then Up(at)
    else at + [seg]
  }

  /** Resolves the pieces segs from at; None when a component that must be
      a directory is not one (ENOENT or ENOTDIR). */
  function Walk(fs: Fs, at: Path, segs: seq<string>): Option<Path>
    decreases |segs|
  {
    if segs == [] then Some(at)
    else if !IsDir(fs, at) then None
    else Walk(fs, Next(at, segs[0]), segs[1..])
  }

  /** The location an absolute path string reaches, if any. */
  function Lookup(fs: Fs, s: string): Option<Path>
    requires IsAbsolute(s)
  {
    Walk(fs, [], Split(s, '/'))
  }

  /** fs.existsSync(s) && fs.statSync(s).isFile() */
  predicate IsFileAt(fs: Fs, s: string)
    requires IsAbsolute(s)
  {
    Lookup(fs, s).Some? && IsFile(fs, Lookup(fs, s).value)
  }

  /** fs.existsSync(s) && fs.statSync(s).isDirectory() */
  predicate IsDirAt(fs: Fs, s: string)
    requires IsAbsolute(s)
  {
    Lookup(fs, s).Some? && IsDir(fs, Lookup(fs, s).value)
  }

  /** The bytes of the regular file at s. */
  function BytesAt(fs: Fs, s: string): seq<byte>
    requires IsAbsolute(s) && IsFileAt(fs, s)
  {
    fs[Lookup(fs, s).value].bytes
  }

  // ---------------------------------------------------------------------
  // The system calls. None stands for the call throwing.

  /** fs.writeFileSync(s, data): creates or truncates a regular file;
      fails when s cannot be reached or names a directory. */
  function WriteFile(fs: Fs, s: string, data: seq<byte>): Option<Fs>
    requires IsAbsolute(s)
  {
    match Lookup(fs, s)
    case None => None
    case Some(k) => if IsDir(fs, k) then None else Some(fs[k := File(data)])
  }

  /** fs.renameSync(from, to) for a regular file: replaces a file at to;
      fails when to cannot be reached or names a directory. */
  function Rename(fs: Fs, from: string, to: string): Option<Fs>
    requires IsAbsolute(from) && IsAbsolute(to) && IsFileAt(fs, from)
  {
    var k := Lookup(fs, from).value;
    match Lookup(fs, to)
    case None => None
    case Some(d) => if IsDir(fs, d) then None else Some((fs - {k})[d := fs[k]])
  }

  /** fs.copyFileSync(from, to) for a regular file: same failure cases as
      Rename; copying a file onto itself changes nothing. */
  function CopyFile(fs: Fs, from: string, to: string): Option<Fs>
    requires IsAbsolute(from) && IsAbsolute(to) && IsFileAt(fs, from)
  {
    var k := Lookup(fs, from).value;
    match Lookup(fs, to)
    case None => None
    case Some(d) => if IsDir(fs, d) then None else Some(fs[d := fs[k]])
  }

  /** fs.unlinkSync(s) for a regular file. */
  function Unlink(fs: Fs, s: string): Fs
    requires IsAbsolute(s) && IsFileAt(fs, s)
  {
    fs - {Lookup(fs, s).value}
  }

  /** The names of the entries directly inside the directory k. */
  function Children(fs: Fs, k: Path): set<string> {
    set p | p in fs && |p| == |k| + 1 && p[..|k|] == k :: p[|k|]
  }

  /** fs.readdirSync(s) for a directory: the names of its entries, each
      once, in an order the operating system chooses (here, whichever name
      is picked first). */
  method ReadDir(fs: Fs, s: string) returns (entries: seq<string>)
    requires IsAbsolute(s) && IsDirAt(fs, s)
    ensures Distinct(entries)
    ensures forall n :: n in entries <==> n in Children(fs, Lookup(fs, s).value)
  {
    var all := Children(fs, Lookup(fs, s).value);
    var left := all;
    entries := [];
    while left != {}
      invariant Distinct(entries)
      invariant left <= all
      invariant forall n :: n in entries ==> n in all && n !in left
      invariant forall n :: n in all ==> n in entries || n in left
      decreases |left|
    {
      var n :| n in left;
      entries := entries + [n];
      left := left - {n};
    }
  }

  // ---------------------------------------------------------------------
  // Path resolution

  /** Resolution agrees with lexical normalisation whenever it succeeds. */
  lemma {:induction false} WalkLexical(fs: Fs, at: Path, segs: seq<string>)
    requires IsCanonical(at) && NoSlash(segs) && Walk(fs, at, segs).Some?
    ensures Walk(fs, at, segs).value == NormaliseFrom(at, segs)
    decreases |segs|
  {
    if segs != [] {
      WalkLexical(fs, Next(at, segs[0]), segs[1..]);
    }
  }

  /** A path string reaches the location it denotes lexically, or nothing. */
  lemma LookupIsKey(fs: Fs, s: string)
    requires IsAbsolute(s) && Lookup(fs, s).Some?
    ensures Lookup(fs, s).value == Key(s)
  {
    WalkLexical(fs, [], Split(s, '/'));
  }

  /** Resolution only ever reaches places where an entry is or can be. */
  lemma {:induction false} WalkPlaced(fs: Fs, at: Path, segs: seq<string>)
    requires Valid(fs) && Placed(fs, at) && Walk(fs, at, segs).Some?
    ensures Placed(fs, Walk(fs, at, segs).value)
    decreases |segs|
  {
    if segs != [] {
      var n := Next(at, segs[0]);
      if n == Up(at) && at != [] {
        assert IsDir(fs, Up(at));
      }
      WalkPlaced(fs, n, segs[1..]);
    }
  }

  lemma LookupPlaced(fs: Fs, s: string)
    requires Valid(fs) && IsAbsolute(s) && Lookup(fs, s).Some?
    ensures Placed(fs, Lookup(fs, s).value)
  {
    WalkPlaced(fs, [], Split(s, '/'));
  }

  /** Resolution depends only on which locations are directories. */
  lemma {:induction false} WalkSameDirs(fs: Fs, fs': Fs, at: Path, segs: seq<string>)
    requires SameDirs(fs, fs')
    ensures Walk(fs, at, segs) == Walk(fs', at, segs)
    decreases |segs|
  {
    if segs != [] {
      assert IsDir(fs, at) == IsDir(fs', at);
      WalkSameDirs(fs, fs', Next(at, segs[0]), segs[1..]);
    }
  }

  lemma LookupSameDirs(fs: Fs, fs': Fs, s: string)
    requires SameDirs(fs, fs') && IsAbsolute(s)
    ensures Lookup(fs, s) == Lookup(fs', s)
  {
    WalkSameDirs(fs, fs', [], Split(s, '/'));
  }

  /** Resolving a concatenation resolves its first part, then its second. */
  lemma {:induction false} WalkAppend(fs: Fs, at: Path, a: seq<string>, b: seq<string>)
    ensures Walk(fs, at, a + b) ==
      match Walk(fs, at, a) case None => None case Some(m) => Walk(fs, m, b)
    decreases |a|
  {
    if a == [] {
      assert a + b == b;
    } else {
      assert (a + b)[0] == a[0] && (a + b)[1..] == a[1..] + b;
      WalkAppend(fs, Next(at, a[0]), a[1..], b);
    }
  }

  /** Every ancestor of an entry is a directory. */
  lemma {:induction false} AncestorsAreDirs(fs: Fs, p: Path, i: nat)
    requires Valid(fs) && p in fs && i < |p|
    ensures IsDir(fs, p[..i])
    decreases |p| - i
  {
    if i + 1 < |p| {
      AncestorsAreDirs(fs, p, i + 1);
      assert Up(p[..i + 1]) == p[..i];
    } else {
      assert Up(p) == p[..i];
    }
  }

  /** Every proper prefix of a placed location is a directory. */
  lemma PrefixIsDir(fs: Fs, p: Path, i: nat)
    requires Valid(fs) && Placed(fs, p) && i < |p|
    ensures IsDir(fs, p[..i])
  {
    if p in fs {
      AncestorsAreDirs(fs, p, i);
    } else if i + 1 < |p| {
      AncestorsAreDirs(fs, Up(p), i);
      assert Up(p)[..i] == p[..i];
    } else {
      assert Up(p) == p[..i];
    }
  }

  /** Resolving the rest of a canonical path whose proper prefixes are
      directories reaches it. */
  lemma {:induction false} WalkDown(fs: Fs, p: Path, i: nat)
    requires IsCanonical(p) && i <= |p|
    requires forall j :: i <= j < |p| ==> IsDir(fs, p[..j])
    ensures Walk(fs, p[..i], p[i..]) == Some(p)
    decreases |p| - i
  {
    if i < |p| {
      var at, segs := p[..i], p[i..];
      assert IsDir(fs, at);
      assert IsName(p[i]);
      assert segs[0] == p[i] && segs[1..] == p[i + 1..];
      assert Next(at, segs[0]) == p[..i + 1];
      WalkDown(fs, p, i + 1);
    } else {
      assert p[..i] == p;
    }
  }

  /** The canonical rendering of an existing or creatable location reaches it. */
  lemma LookupRender(fs: Fs, p: Path)
    requires Valid(fs) && Placed(fs, p) && IsCanonical(p)
    ensures Lookup(fs, Render(p)) == Some(p)
  {
    forall j | 0 <= j < |p| ensures IsDir(fs, p[..j]) {
      PrefixIsDir(fs, p, j);
    }
    SplitRender(p);
    WalkDown(fs, p, 0);
    if p == [] {
      assert Walk(fs, [], [""]) == Walk(fs, [], []);
    } else {
      assert Split(Render(p), '/')[1..] == p;
    }
  }

  /** The parent string of a directory's path string is again a directory:
      path.dirname of a path that resolves to a directory resolves to one. */
  lemma DirnameIsDir(fs: Fs, s: string)
    requires Valid(fs) && IsAbsolute(s) && IsDirAt(fs, s)
    ensures IsAbsolute(Dirname(s)) && IsDirAt(fs, Dirname(s))
  {
    DirnameAbsolute(s);
    var end := CutIndex(s, |s| - 1, true);
    var d := Dirname(s);
    if end == -1 || end == 1 {
      assert d == "/" || d == "//";
      assert Split("/", '/') == ["", ""];
      assert Split("//", '/') == ["", "", ""];
      assert Walk(fs, [], ["", "", ""]) == Walk(fs, [], ["", ""]) == Walk(fs, [], [""])
          == Walk(fs, [], []) == Some([]);
    } else {
      assert d == s[..end];
      var rest := s[end + 1..];
      assert s == d + [s[end]] + rest;
      SplitAtSep(d, rest, '/');
      WalkAppend(fs, [], Split(d, '/'), Split(rest, '/'));
    }
  }

  // ---------------------------------------------------------------------
  // Effects of the system calls

  /** Everything outside the locations in ks is as it was. */
  ghost predicate Unchanged(fs: Fs, fs': Fs, ks: set<Path>) {
    forall p :: p !in ks ==> (p in fs <==> p in fs') && (p in fs ==> fs[p] == fs'[p])
  }

  /** writeFileSync fails exactly when the path cannot be reached or names a
      directory; otherwise the path holds a regular file with the data, and
      nothing else changes. */
  lemma WriteFileEffect(fs: Fs, s: string, data: seq<byte>)
    requires Valid(fs) && IsAbsolute(s)
    ensures WriteFile(fs, s, data).None? <==> Lookup(fs, s).None? || IsDirAt(fs, s)
    ensures WriteFile(fs, s, data).Some? ==>
      var fs' := WriteFile(fs, s, data).value;
      && Valid(fs') && SameDirs(fs, fs')
      && IsFileAt(fs', s) && BytesAt(fs', s) == data
      && Unchanged(fs, fs', {Key(s)})
  {
    if WriteFile(fs, s, data).Some? {
      var k := Lookup(fs, s).value;
      var fs' := WriteFile(fs, s, data).value;
      LookupIsKey(fs, s);
      LookupPlaced(fs, s);
      assert SameDirs(fs, fs');
      LookupSameDirs(fs, fs', s);
    }
  }

  /** copyFileSync fails exactly when the destination cannot be reached or
      names a directory; otherwise the source keeps its bytes, the
      destination holds a copy of them, and nothing else changes. */
  lemma CopyFileEffect(fs: Fs, from: string, to: string)
    requires Valid(fs) && IsAbsolute(from) && IsAbsolute(to) && IsFileAt(fs, from)
    ensures CopyFile(fs, from, to).None? <==> Lookup(fs, to).None? || IsDirAt(fs, to)
    ensures CopyFile(fs, from, to).Some? ==>
      var fs' := CopyFile(fs, from, to).value;
      && Valid(fs') && SameDirs(fs, fs')
      && IsFileAt(fs', from) && BytesAt(fs', from) == BytesAt(fs, from)
      && IsFileAt(fs', to) && BytesAt(fs', to) == BytesAt(fs, from)
      && Unchanged(fs, fs', {Key(to)})
  {
    if CopyFile(fs, from, to).Some? {
      var fs' := CopyFile(fs, from, to).value;
      LookupIsKey(fs, to);
      LookupPlaced(fs, to);
      assert SameDirs(fs, fs');
      LookupSameDirs(fs, fs', from);
      LookupSameDirs(fs, fs', to);
    }
  }

  /** renameSync fails exactly when the destination cannot be reached or
      names a directory; otherwise the destination holds the source's bytes,
      the source is gone (unless both name the same place), and nothing else
      changes. */
  lemma RenameEffect(fs: Fs, from: string, to: string)
    requires Valid(fs) && IsAbsolute(from) && IsAbsolute(to) && IsFileAt(fs, from)
    ensures Rename(fs, from, to).None? <==> Lookup(fs, to).None? || IsDirAt(fs, to)
    ensures Rename(fs, from, to).Some? ==>
      var fs' := Rename(fs, from, to).value;
      && Valid(fs') && SameDirs(fs, fs')
      && IsFileAt(fs', to) && BytesAt(fs', to) == BytesAt(fs, from)
      && (Key(from) != Key(to) ==> Lookup(fs', from) == Some(Key(from)) && Key(from) !in fs')
      && Unchanged(fs, fs', {Key(from), Key(to)})
  {
    if Rename(fs, from, to).Some? {
      var k, d := Lookup(fs, from).value, Lookup(fs, to).value;
      var fs' := Rename(fs, from, to).value;
      LookupIsKey(fs, from);
      LookupIsKey(fs, to);
      LookupPlaced(fs, to);
      assert Valid(fs') by {
        forall p | p in fs' && p != [] ensures IsDir(fs', Up(p)) {
          assert IsDir(fs, Up(p));
        }
      }
      assert SameDirs(fs, fs');
      LookupSameDirs(fs, fs', from);
      LookupSameDirs(fs, fs', to);
    }
  }

  /** unlinkSync removes the regular file and nothing else; it never removes
      a directory. */
  lemma UnlinkEffect(fs: Fs, s: string)
    requires Valid(fs) && IsAbsolute(s) && IsFileAt(fs, s)
    ensures var fs' := Unlink(fs, s);
      && Valid(fs') && SameDirs(fs, fs')
      && Lookup(fs', s) == Some(Key(s)) && Key(s) !in fs'
      && Unchanged(fs, fs', {Key(s)})
  {
    var fs' := Unlink(fs, s);
    LookupIsKey(fs, s);
    assert Valid(fs') by {
      forall p | p in fs' && p != [] ensures IsDir(fs', Up(p)) {
        assert IsDir(fs, Up(p));
      }
    }
    assert SameDirs(fs, fs');
    LookupSameDirs(fs, fs', s);
  }

  /** The names listed for k are exactly those of its entries. */
  lemma ChildrenExact(fs: Fs, k: Path, n: string)
    ensures n in Children(fs, k) <==> k + [n] in fs
  {
    if k + [n] in fs {
      var p := k + [n];
      assert p[..|k|] == k && p[|k|] == n;
    }
    if n in Children(fs, k) {
      var p :| p in fs && |p| == |k| + 1 && p[..|k|] == k && p[|k|] == n;
      assert p == k + [n];
    }
  }
}
