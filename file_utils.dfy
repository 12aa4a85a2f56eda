/** Path helpers of the converter: the `.dcm` test, the output name and the target
    filter. Paths follow Windows rules, where both `\` and `/` end a component. */
module FileUtils {
  import opened Wrappers
  import opened Collections

  /** The component separators, and the extension separator. */
  const Seps: set<char> := {'/', '\\'}
  const Dots: set<char> := {'.'}

  predicate IsSep(c: char)
  {
    c in Seps
  }

  predicate IsDot(c: char)
  {
    c in Dots
  }

  /** `str.rfind` for a set of characters: the last index holding one, or -1. */
  function LastIndex(s: string, cs: set<char>): (r: int)
    ensures -1 <= r < |s|
    ensures r >= 0 ==> s[r] in cs
    ensures forall j :: r < j < |s| ==> s[j] !in cs
  {
    if s == [] then -1
    else if s[|s| - 1] in cs then |s| - 1
    else LastIndex(s[..|s| - 1], cs)
  }

  /** Cutting off a stretch without any such character leaves the last index alone. */
  lemma LastIndexSkip(s: string, k: nat, cs: set<char>)
    requires k <= |s|
    requires forall j :: k <= j < |s| ==> s[j] !in cs
    ensures LastIndex(s[..k], cs) == LastIndex(s, cs)
  {
  }

  /** The last component: what follows the last separator. */
  function Tail(s: string): string
  {
    s[LastIndex(s, Seps) + 1..]
  }

  /** The last component is a separator-free suffix behind a separator, if any. */
  lemma TailShape(s: string)
    ensures |Tail(s)| <= |s| && Tail(s) == s[|s| - |Tail(s)|..]
    ensures forall j :: 0 <= j < |Tail(s)| ==> !IsSep(Tail(s)[j])
    ensures |Tail(s)| < |s| ==> IsSep(s[|s| - |Tail(s)| - 1])
  {
  }

  /** The directory part: everything up to and including the last separator. */
  function Directory(s: string): string
  {
    s[..LastIndex(s, Seps) + 1]
  }

  /** A path is its directory part followed by its last component. */
  lemma DirectoryAndTail(s: string)
    ensures s == Directory(s) + Tail(s)
    ensures Directory(s) == [] || IsSep(Directory(s)[|Directory(s)| - 1])
  {
    var k := LastIndex(s, Seps) + 1;
    assert s == s[..k] + s[k..];
  }

  predicate HasNonDot(s: string)
  {
    exists i :: 0 <= i < |s| && s[i] != '.'
  }

  /** The dot at d starts an extension: no separator or dot follows it, and the
      component in front of it is not made of dots alone (`.profile` has none). */
  predicate IsExtensionAt(p: string, d: int)
  {
    && 0 <= d < |p|
    && p[d] == '.'
    && (forall j :: d < j < |p| ==> !IsSep(p[j]) && !IsDot(p[j]))
    && HasNonDot(Tail(p[..d]))
  }

  /** A dot that starts an extension is the last dot and follows the last separator. */
  lemma ExtensionAtLastDot(p: string, d: int)
    ensures IsExtensionAt(p, d) ==>
      && d == LastIndex(p, Dots) && LastIndex(p, Seps) < d
      && Tail(p[..d]) == p[LastIndex(p, Seps) + 1..d]
  {
    if IsExtensionAt(p, d) {
      LastIndexSkip(p, d, Seps);
    }
  }

  /** At most one dot starts an extension. */
  lemma ExtensionUnique(p: string, d1: int, d2: int)
    requires IsExtensionAt(p, d1) && IsExtensionAt(p, d2)
    ensures d1 == d2
  {
    ExtensionAtLastDot(p, d1);
    ExtensionAtLastDot(p, d2);
  }

  /** `os.path.splitext`: the root and the extension, which is empty or starts at the
      one dot that starts an extension. */
  function SplitExt(p: string): (r: (string, string))
    ensures r.0 + r.1 == p
    ensures r.1 != "" ==> IsExtensionAt(p, |r.0|)
    ensures r.1 == "" ==> forall d :: 0 <= d < |p| ==> !IsExtensionAt(p, d)
  {
    var sep := LastIndex(p, Seps);
    var dot := LastIndex(p, Dots);
    if dot > sep && HasNonDot(p[sep + 1..dot]) then
      LastIndexSkip(p, dot, Seps);
      (p[..dot], p[dot..])
    else
      assert forall d :: 0 <= d < |p| ==> !IsExtensionAt(p, d) by {
        forall d | 0 <= d < |p|
          ensures IsExtensionAt(p, d) ==> d == dot && sep < d && Tail(p[..d]) == p[sep + 1..d]
        {
          ExtensionAtLastDot(p, d);
        }
      }
      (p, "")
  }

  /** ASCII lower-casing; other characters are kept. */
  function LowerChar(c: char): char
  {
    if 'A' <= c <= 'Z' then (c as int - 'A' as int + 'a' as int) as char else c
  }

  function AsciiLower(s: string): (r: string)
    ensures |r| == |s|
    ensures forall i :: 0 <= i < |s| ==> r[i] == LowerChar(s[i])
  {
    seq(|s|, i requires 0 <= i < |s| => LowerChar(s[i]))
  }

  /** Lower-casing leaves separators and dots where they are. */
  lemma LowerKeepsPunctuation(c: char)
    ensures IsSep(LowerChar(c)) <==> IsSep(c)
    ensures IsDot(LowerChar(c)) <==> IsDot(c)
  {
  }

  /** The path ends in `.dcm` in any letter case, after a name that is not all dots. */
  predicate IsDcmName(p: string)
  {
    |p| >= 4 && AsciiLower(p[|p| - 4..]) == ".dcm" && HasNonDot(Tail(p[..|p| - 4]))
  }

  /** The four characters of a `.dcm` ending in any case are a dot and three
      characters that are neither separators nor dots. */
  lemma DcmNameExtension(p: string)
    requires IsDcmName(p)
    ensures IsExtensionAt(p, |p| - 4)
  {
    var d := |p| - 4;
    var low := AsciiLower(p[d..]);
    assert low[0] == '.' && low[1] == 'd' && low[2] == 'c' && low[3] == 'm';
    LowerKeepsPunctuation(p[d]);
    LowerKeepsPunctuation(p[d + 1]);
    LowerKeepsPunctuation(p[d + 2]);
    LowerKeepsPunctuation(p[d + 3]);
    forall j | d < j < |p|
      ensures !IsSep(p[j]) && !IsDot(p[j])
    {
      assert j == d + 1 || j == d + 2 || j == d + 3;
    }
  }

  lemma DcmExtensionForward(p: string)
    requires AsciiLower(SplitExt(p).1) == ".dcm"
    ensures IsDcmName(p)
  {
    var (root, ext) := SplitExt(p);
    assert |ext| == 4 && |root| == |p| - 4;
    assert p[..|p| - 4] == root && p[|p| - 4..] == ext;
  }

  lemma DcmExtensionBackward(p: string)
    requires IsDcmName(p)
    ensures AsciiLower(SplitExt(p).1) == ".dcm"
  {
    var (root, ext) := SplitExt(p);
    DcmNameExtension(p);
    ExtensionUnique(p, |p| - 4, |root|);
    assert ext == p[|p| - 4..];
  }

  lemma DcmExtension(p: string)
    ensures AsciiLower(SplitExt(p).1) == ".dcm" <==> IsDcmName(p)
  {
    if AsciiLower(SplitExt(p).1) == ".dcm" {
      DcmExtensionForward(p);
    }
    if IsDcmName(p) {
      DcmExtensionBackward(p);
    }
  }

  /** `identify_dcm`: the path itself when its extension is `.dcm` in any case. */
  function IdentifyDcm(path: string): (r: Option<string>)
    ensures r.Some? ==> r.value == path
    ensures r.Some? <==> IsDcmName(path)
  {
    DcmExtension(path);
    if AsciiLower(SplitExt(path).1) == ".dcm" then Some(path) else None
  }

  /** `get_stl_output_path`: the extension replaced by `.stl`, or `.stl` appended when
      there is none. */
  function StlOutputPath(path: string): (r: string)
    ensures |r| >= 4 && r[|r| - 4..] == ".stl"
    ensures SplitExt(path).1 == "" ==> r == path + ".stl"
    ensures IdentifyDcm(path).Some? ==> r == path[..|path| - 4] + ".stl"
  {
    DcmExtension(path);
    SplitExt(path).0 + ".stl"
  }

  /** The output file lies in the input's directory. */
  lemma OutputSameDirectory(path: string)
    ensures Directory(StlOutputPath(path)) == Directory(path)
  {
    RootDirectory(path);
  }

  lemma RootDirectory(path: string)
    ensures Directory(SplitExt(path).0 + ".stl") == Directory(path)
  {
    var (root, ext) := SplitExt(path);
    assert Directory(root + ".stl") == Directory(root) by {
      DirectoryAppend(root, ".stl");
    }
    assert Directory(root + ext) == Directory(root) by {
      DirectoryAppend(root, ext);
    }
  }

  /** Text without separators added at the end keeps the directory part. */
  lemma DirectoryAppend(a: string, b: string)
    requires forall j :: 0 <= j < |b| ==> !IsSep(b[j])
    ensures Directory(a + b) == Directory(a)
  {
    assert (a + b)[..|a|] == a;
    LastIndexSkip(a + b, |a|, Seps);
  }

  /** The output path is never itself taken for a DCM file. */
  lemma OutputNotDcm(path: string)
    ensures IdentifyDcm(StlOutputPath(path)).None?
  {
    var r := StlOutputPath(path);
    assert AsciiLower(r[|r| - 4..])[1] == 's';
  }

  /** The output's extension is `.stl` exactly when the input's last component has a
      character other than a dot. */
  lemma OutputExtension(path: string)
    ensures SplitExt(StlOutputPath(path)).1 == ".stl" <==> HasNonDot(Tail(path))
  {
    var (root, ext) := SplitExt(path);
    var r := StlOutputPath(path);
    var n := |root|;
    assert r[..n] == root;
    forall j | n < j < |r|
      ensures !IsSep(r[j]) && !IsDot(r[j])
    {
      assert j == n + 1 || j == n + 2 || j == n + 3;
    }
    if ext != "" {
      ExtensionStemInTail(path, n);
      assert IsExtensionAt(r, n);
      ExtensionUnique(r, n, |SplitExt(r).0|);
    } else if HasNonDot(Tail(path)) {
      assert IsExtensionAt(r, n);
      ExtensionUnique(r, n, |SplitExt(r).0|);
    } else {
      assert SplitExt(r).1 == ".stl" ==> IsExtensionAt(r, n);
    }
  }

  /** The name in front of an extension lies inside the last component. */
  lemma ExtensionStemInTail(path: string, n: int)
    requires IsExtensionAt(path, n)
    ensures HasNonDot(Tail(path))
  {
    ExtensionAtLastDot(path, n);
    var sep := LastIndex(path, Seps);
    var stem := path[sep + 1..n];
    var i :| 0 <= i < |stem| && stem[i] != '.';
    var tail := path[sep + 1..];
    assert Tail(path) == tail;
    assert stem[i] == path[sep + 1 + i] == tail[i];
  }

  /** The last component of a path whose separator-free end starts at k. */
  lemma TailFrom(s: string, k: nat)
    requires 1 <= k <= |s| && IsSep(s[k - 1])
    requires forall j :: k <= j < |s| ==> !IsSep(s[j])
    ensures Tail(s) == s[k..]
  {
    LastIndexSkip(s, k, Seps);
  }

  /** `ntpath.basename`: the last component, after a drive prefix such as `C:`. */
  function Basename(p: string): (r: string)
    ensures |r| <= |p| && r == p[|p| - |r|..]
    ensures forall j :: 0 <= j < |r| ==> !IsSep(r[j])
    ensures |r| < |p| ==> IsSep(p[|p| - |r| - 1]) || (|p| - |r| == 2 && p[1] == ':')
  {
    if |p| >= 2 && p[1] == ':' then
      var r := Tail(p[2..]);
      TailShape(p[2..]);
      assert p[2..][|p| - 2 - |r|..] == p[|p| - |r|..];
      r
    else
      TailShape(p);
      Tail(p)
  }

  /** Behind a separator, a name without separators is the basename. */
  lemma BasenameAfterSep(dir: string, name: string)
    requires |dir| >= 1 && IsSep(dir[|dir| - 1])
    requires forall j :: 0 <= j < |name| ==> !IsSep(name[j])
    requires |dir + name| < 2 || (dir + name)[1] != ':'
    ensures Basename(dir + name) == name
  {
    var p := dir + name;
    assert p[..|dir|] == dir;
    LastIndexSkip(p, |dir|, Seps);
  }

  predicate IsTarget(targets: seq<string>, f: string)
  {
    Basename(f) in targets
  }

  function TargetTest(targets: seq<string>): string -> bool
  {
    f => IsTarget(targets, f)
  }

  /** `filter_target_files`: the files whose basename is a target, in their order. */
  function FilterTargetFiles(files: seq<string>, targets: seq<string>): (r: seq<string>)
    ensures IsSubsequence(r, files)
    ensures forall f :: f in r <==> f in files && Basename(f) in targets
    ensures targets == [] ==> r == []
  {
    var keep := TargetTest(targets);
    FilterIsSubsequence(files, keep);
    if targets == [] then
      FilterNone(files, keep);
      Filter(files, keep)
    else
      Filter(files, keep)
  }

  lemma ScanIsDcm()
    ensures IsDcmName("/path/to/scan.dcm")
  {
    var p := "/path/to/scan.dcm";
    assert p[..13] == "/path/to/scan";
    ScanStem();
    assert p[13..] == ".dcm";
    LowerDcm();
  }

  lemma ScanStem()
    ensures HasNonDot(Tail("/path/to/scan"))
  {
    TailFrom("/path/to/scan", 9);
    assert Tail("/path/to/scan")[0] == 's';
  }

  lemma LowerDcm()
    ensures AsciiLower(".dcm") == ".dcm"
  {
    var low := AsciiLower(".dcm");
    assert low[0] == '.' && low[1] == 'd' && low[2] == 'c' && low[3] == 'm';
  }

  /** The documented example of `get_stl_output_path`. */
  lemma OutputPathExample()
    ensures StlOutputPath("/path/to/scan.dcm") == "/path/to/scan.stl"
  {
    ScanIsDcm();
    assert "/path/to/scan.dcm"[..13] + ".stl" == "/path/to/scan.stl";
  }

  lemma FooBarBasenames()
    ensures Basename("/a/b/foo.dcm") == "foo.dcm"
    ensures Basename("/a/b/bar.dcm") == "bar.dcm"
  {
    BasenameAfterFour("/a/b/foo.dcm");
    BasenameAfterFour("/a/b/bar.dcm");
  }

  /** A path `/a/b/` followed by a separator-free name has that name as its basename. */
  lemma BasenameAfterFour(p: string)
    requires |p| > 5 && p[..5] == "/a/b/" && forall j :: 5 <= j < |p| ==> !IsSep(p[j])
    ensures Basename(p) == p[5..]
  {
    assert p[1] == 'a' && p[4] == '/';
    TailFrom(p, 5);
  }

  /** The documented example of `filter_target_files`: one of two files is kept. */
  lemma FilterExample()
    ensures FilterTargetFiles(["/a/b/foo.dcm", "/a/b/bar.dcm"], ["foo.dcm"]) == ["/a/b/foo.dcm"]
  {
    var foo, bar := "/a/b/foo.dcm", "/a/b/bar.dcm";
    var targets := ["foo.dcm"];
    var keep := TargetTest(targets);
    assert IsTarget(targets, foo) by {
      FooBarBasenames();
    }
    assert !IsTarget(targets, bar) by {
      FooBarBasenames();
      assert "bar.dcm"[0] != "foo.dcm"[0];
      assert targets[0] != "bar.dcm";
    }
    assert keep(foo) && !keep(bar);
    FilterPair(foo, bar, keep);
  }
}
