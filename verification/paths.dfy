/**
 * Unix path strings as Rust's `std::path` treats them where the build tool
 * relies on it: `Path::join`, `file_name`, `file_stem`, `parent`, and the
 * segment-wise normalisation that both CMake converters perform by hand
 * (`..` drops the previously kept segment, empty and `.` segments vanish).
 */
module Paths {
  import opened Wrappers
  import Strings

  const Sep: char := '/'

  /** A Unix path is absolute when it starts with the separator. */
  predicate IsAbsolute(p: string) {
    |p| > 0 && p[0] == Sep
  }

  /** `push` inserts a separator unless the base is empty or already ends with one. */
  predicate NeedsSeparator(base: string) {
    |base| > 0 && base[|base| - 1] != Sep
  }

  /** The separator `push` inserts between a base and a relative path. */
  function SeparatorFor(base: string): string {
    if NeedsSeparator(base) then [Sep] else []
  }

  /** Rust's `Path::join` (`PathBuf::push`) on Unix: an absolute right-hand side replaces the base. */
  function Join(base: string, p: string): (r: string)
    ensures IsAbsolute(p) ==> r == p
    ensures !IsAbsolute(p) ==> |r| == |base| + |p| + |SeparatorFor(base)|
  {
    if IsAbsolute(p) then p else base + SeparatorFor(base) + p
  }

  /**
   * A relative path joined onto a base starts with the base, ends with the
   * path, and has a separator between the two exactly when the base is
   * non-empty and does not already end with one.
   */
  lemma JoinParts(base: string, p: string)
    requires !IsAbsolute(p)
    ensures var r := Join(base, p);
      && Strings.StartsWith(r, base) && Strings.EndsWith(r, p)
      && (NeedsSeparator(base) ==> r[|base|] == Sep)
      && (!NeedsSeparator(base) ==> |r| == |base| + |p|)
  {
    var r := Join(base, p);
    assert r[..|base|] == base;
    assert r[|r| - |p|..] == p;
  }

  /** Joining a relative path in two steps is joining the two pieces first. */
  lemma JoinAssociative(a: string, b: string, c: string)
    requires !IsAbsolute(b) && !IsAbsolute(c)
    requires |b| > 0
    ensures Join(Join(a, b), c) == Join(a, Join(b, c))
  {
    var sa := SeparatorFor(a);
    var sb := SeparatorFor(b);
    var ab := a + sa + b;
    assert ab[|ab| - 1] == b[|b| - 1];
    assert SeparatorFor(ab) == sb;
    var bc := b + sb + c;
    assert bc[0] == b[0];
    assert ab + sb + c == a + sa + bc;
  }

  // ---------------------------------------------------------------------------
  // Segment normalisation
  // ---------------------------------------------------------------------------

  /** A segment that names a directory entry: not empty, not `.`, not `..`. */
  predicate IsNormalSegment(s: string) {
    s != "" && s != "." && s != ".."
  }

  /**
   * The kept segments after reading `parts` from left to right: `..` drops
   * the last kept segment (and is ignored when none is kept), empty and `.`
   * segments are skipped, every other segment is kept.
   */
  function ResolveSegments(parts: seq<string>): (r: seq<string>)
    ensures |r| <= |parts|
    ensures forall i :: 0 <= i < |r| ==> IsNormalSegment(r[i])
    ensures forall x :: x in r ==> x in parts
    decreases |parts|
  {
    if |parts| == 0 then []
    else
      var front := parts[..|parts| - 1];
      var last := parts[|parts| - 1];
      var prev := ResolveSegments(front);
      assert forall x :: x in front ==> x in parts;
      if last == ".." then (if |prev| == 0 then [] else prev[..|prev| - 1])
      else if IsNormalSegment(last) then prev + [last]
      else prev
  }

  /** A trailing `..` removes exactly the last kept segment. */
  lemma ResolveParent(parts: seq<string>)
    ensures ResolveSegments(parts + [".."]) ==
      (var prev := ResolveSegments(parts); if |prev| == 0 then [] else prev[..|prev| - 1])
  {
    assert (parts + [".."])[..|parts|] == parts;
  }

  /** The normal segments of `parts`, in order: the reference for inputs without `..`. */
  function NormalSegments(parts: seq<string>): (r: seq<string>)
    decreases |parts|
  {
    if |parts| == 0 then []
    else
      var prev := NormalSegments(parts[..|parts| - 1]);
      if IsNormalSegment(parts[|parts| - 1]) then prev + [parts[|parts| - 1]] else prev
  }

  /** Without `..`, resolving just drops the empty and `.` segments. */
  lemma {:induction false} ResolveWithoutParent(parts: seq<string>)
    requires ".." !in parts
    ensures ResolveSegments(parts) == NormalSegments(parts)
    decreases |parts|
  {
    if |parts| > 0 {
      var front := parts[..|parts| - 1];
      assert forall x :: x in front ==> x in parts;
      ResolveWithoutParent(front);
    }
  }

  /** A sequence of normal segments is its own normal part. */
  lemma {:induction false} NormalSegmentsOfNormal(parts: seq<string>)
    requires forall i :: 0 <= i < |parts| ==> IsNormalSegment(parts[i])
    ensures NormalSegments(parts) == parts
    decreases |parts|
  {
    if |parts| > 0 {
      NormalSegmentsOfNormal(parts[..|parts| - 1]);
      assert parts[..|parts| - 1] + [parts[|parts| - 1]] == parts;
    }
  }

  /** Segments joined back with `/`; nothing kept gives `.`. */
  function Normalize(p: string): (r: string)
    ensures r != ""
    ensures r == "." || forall i :: 0 <= i < |Strings.Split(r, Sep)| ==> IsNormalSegment(Strings.Split(r, Sep)[i])
  {
    var parts := Strings.Split(p, Sep);
    var segs := ResolveSegments(parts);
    if |segs| == 0 then "."
    else
      SegmentsSplitBack(parts, segs);
      Strings.Join(segs, [Sep])
  }

  /** Kept segments hold no separator, so joining and splitting them gives them back. */
  lemma SegmentsSplitBack(parts: seq<string>, segs: seq<string>)
    requires forall i :: 0 <= i < |parts| ==> Sep !in parts[i]
    requires forall x :: x in segs ==> x in parts
    requires |segs| >= 1
    ensures Strings.Split(Strings.Join(segs, [Sep]), Sep) == segs
  {
    forall i | 0 <= i < |segs| ensures Sep !in segs[i] {
      assert segs[i] in parts;
    }
    Strings.SplitJoin(segs, Sep);
  }

  /** Normalising twice is normalising once. */
  lemma NormalizeIdempotent(p: string)
    ensures Normalize(Normalize(p)) == Normalize(p)
  {
    var parts := Strings.Split(p, Sep);
    var segs := ResolveSegments(parts);
    if |segs| == 0 {
      Strings.SplitNoSep(".", Sep);
      assert ResolveSegments(["."]) == [];
    } else {
      SegmentsSplitBack(parts, segs);
      assert ".." !in segs by {
        forall i | 0 <= i < |segs| ensures segs[i] != ".." {
          assert IsNormalSegment(segs[i]);
        }
      }
      ResolveWithoutParent(segs);
      NormalSegmentsOfNormal(segs);
    }
  }

  // ---------------------------------------------------------------------------
  // Splitting on the separator
  // ---------------------------------------------------------------------------

  /** Splitting at a separator splits both sides independently. */
  lemma {:induction false} SplitConcat(a: string, b: string, sep: char)
    ensures Strings.Split(a + [sep] + b, sep) == Strings.Split(a, sep) + Strings.Split(b, sep)
    decreases |a|
  {
    if |a| == 0 {
      assert a + [sep] + b == [sep] + b;
      assert ([sep] + b)[1..] == b;
    } else {
      assert (a + [sep] + b)[1..] == a[1..] + [sep] + b;
      SplitConcat(a[1..], b, sep);
    }
  }

  /** The last separator of a string, if any. */
  function LastIndexOf(s: string, c: char): (r: Option<nat>)
    ensures r.None? ==> c !in s
    ensures r.Some? ==> r.value < |s| && s[r.value] == c && c !in s[r.value + 1..]
    decreases |s|
  {
    if |s| == 0 then None
    else if s[|s| - 1] == c then
      assert s[|s|..] == [];
      Some(|s| - 1)
    else
      var r := LastIndexOf(s[..|s| - 1], c);
      assert s == s[..|s| - 1] + [s[|s| - 1]];
      match r
      case None => None
      case Some(k) =>
        assert s[k + 1..] == s[..|s| - 1][k + 1..] + [s[|s| - 1]];
        Some(k)
  }

  /** The last occurrence in `a + [c] + b` is the inserted one when `b` has none. */
  lemma LastIndexOfSuffix(a: string, b: string, c: char)
    requires c !in b
    ensures LastIndexOf(a + [c] + b, c) == Some(|a|)
  {
    var s := a + [c] + b;
    assert s[|a|] == c;
  }

  // ---------------------------------------------------------------------------
  // file_name, file_stem, parent
  // ---------------------------------------------------------------------------

  /** The segments that carry a name: Rust's components without root and `.` entries. */
  function NamedSegments(parts: seq<string>): (r: seq<string>)
    ensures forall x :: x in r ==> x in parts && x != "" && x != "."
    decreases |parts|
  {
    if |parts| == 0 then []
    else
      var rest := NamedSegments(parts[1..]);
      if parts[0] == "" || parts[0] == "." then rest else [parts[0]] + rest
  }

  lemma {:induction false} NamedSegmentsConcat(a: seq<string>, b: seq<string>)
    ensures NamedSegments(a + b) == NamedSegments(a) + NamedSegments(b)
    decreases |a|
  {
    if |a| == 0 {
      assert a + b == b;
    } else {
      assert (a + b)[1..] == a[1..] + b;
      NamedSegmentsConcat(a[1..], b);
    }
  }

  /** Rust's `Path::file_name`: the last component when it is a normal one. */
  function FileName(p: string): (r: Option<string>)
    ensures r.Some? ==> IsNormalSegment(r.value) && Sep !in r.value
  {
    var parts := Strings.Split(p, Sep);
    var named := NamedSegments(parts);
    if |named| == 0 || named[|named| - 1] == ".." then None
    else
      assert named[|named| - 1] in parts;
      Some(named[|named| - 1])
  }

  /** Joining a single normal name onto any directory gives a path whose file name is that name. */
  lemma FileNameOfJoin(dir: string, name: string)
    requires IsNormalSegment(name) && Sep !in name
    ensures FileName(Join(dir, name)) == Some(name)
  {
    Strings.SplitNoSep(name, Sep);
    var j := Join(dir, name);
    if NeedsSeparator(dir) {
      SplitConcat(dir, name, Sep);
      NamedSegmentsConcat(Strings.Split(dir, Sep), [name]);
    } else if |dir| == 0 {
      assert j == name;
    } else {
      var front := dir[..|dir| - 1];
      assert dir == front + [Sep];
      assert j == front + [Sep] + name;
      SplitConcat(front, name, Sep);
      NamedSegmentsConcat(Strings.Split(front, Sep), [name]);
    }
  }

  /**
   * Rust's `file_stem` of a file name: the part before the last `.`, unless
   * that `.` is the first character or there is none (then the whole name).
   */
  function Stem(name: string): (r: string)
    ensures |r| <= |name| && name[..|r|] == r
    ensures r == name || (|r| > 0 && name[|r|] == '.' && '.' !in name[|r| + 1..])
  {
    match LastIndexOf(name, '.')
    case None => name
    case Some(k) => if k == 0 then name else name[..k]
  }

  /** Adding an extension to a dot-free name and taking the stem gives the name back. */
  lemma StemOfExtension(name: string, ext: string)
    requires |name| > 0 && '.' !in name && '.' !in ext
    ensures Stem(name + "." + ext) == name
  {
    LastIndexOfSuffix(name, ext, '.');
    assert (name + "." + ext)[..|name|] == name;
  }

  /** Rust's `Path::file_stem`. */
  function FileStem(p: string): (r: Option<string>)
    ensures r.Some? <==> FileName(p).Some?
    ensures r.Some? ==> r.value == Stem(FileName(p).value)
  {
    match FileName(p)
    case None => None
    case Some(name) => Some(Stem(name))
  }

  /** `s` without its trailing separators. */
  function TrimTrailingSeparators(s: string): (r: string)
    ensures |r| <= |s| && s[..|r|] == r
    ensures r == [] || r[|r| - 1] != Sep
    ensures forall i :: |r| <= i < |s| ==> s[i] == Sep
    decreases |s|
  {
    if |s| > 0 && s[|s| - 1] == Sep then TrimTrailingSeparators(s[..|s| - 1]) else s
  }

  /**
   * Rust's `Path::parent` for paths without `.` components or doubled
   * separators: everything before the last component, `""` for a bare name,
   * `/` for a name directly under the root, and nothing for the root itself.
   */
  function Parent(p: string): (r: Option<string>)
    ensures r.None? <==> forall i :: 0 <= i < |p| ==> p[i] == Sep
    ensures r.Some? ==> |r.value| < |p|
  {
    var t := TrimTrailingSeparators(p);
    if |t| == 0 then
      assert forall i :: 0 <= i < |p| ==> p[i] == Sep;
      None
    else
      assert p[|t| - 1] != Sep;
      match LastIndexOf(t, Sep)
      case None => Some("")
      case Some(k) =>
        var h := TrimTrailingSeparators(t[..k]);
        if |h| == 0 then Some("/") else Some(h)
  }

  /** The parent of `dir` joined with a name is `dir` itself. */
  lemma ParentOfJoin(dir: string, name: string)
    requires NeedsSeparator(dir)
    requires |name| > 0 && Sep !in name
    ensures Parent(Join(dir, name)) == Some(dir)
  {
    var j := Join(dir, name);
    assert j == dir + [Sep] + name;
    LastIndexOfSuffix(dir, name, Sep);
    assert (dir + [Sep] + name)[..|dir|] == dir;
  }
}
