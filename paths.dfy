/** Filesystem paths as the scripts use them through `pathlib` and `os.walk`:
    a path is the sequence of its segments, the filesystem is the set of paths
    that exist, and a walk is the sequence of files it visits. */
module Paths {
  import opened Strings

  type Path = seq<string>

  /** A file that the walk visits: its directory, its name and its text. */
  datatype Entry = Entry(dir: Path, name: string, content: string)

  /** The path of a visited file (`Path(root) / file`). */
  function FilePath(e: Entry): Path {
    e.dir + [e.name]
  }

  /** The bookkeeping of a walk over files at `paths` that rewrites the
      `i`-th file to `texts[i]` exactly when `rewrite[i]`, after `n` files:
      every write is counted, every written path holds the new text of a
      rewritten file, and every rewritten file was written. */
  ghost predicate Accounted(paths: seq<Path>, rewrite: seq<bool>, texts: seq<string>, n: nat,
                            written: map<Path, string>, count: nat)
    requires n <= |paths| == |rewrite| == |texts|
  {
    |written| <= count && Origins(paths, rewrite, texts, n, written) && Covered(paths, rewrite, n, written)
  }

  ghost predicate Origins(paths: seq<Path>, rewrite: seq<bool>, texts: seq<string>, n: nat,
                          written: map<Path, string>)
    requires n <= |paths| == |rewrite| == |texts|
  {
    forall p :: p in written ==>
      exists i :: 0 <= i < n && rewrite[i] && paths[i] == p && written[p] == texts[i]
  }

  ghost predicate Covered(paths: seq<Path>, rewrite: seq<bool>, n: nat, written: map<Path, string>)
    requires n <= |paths| == |rewrite|
  {
    forall i :: 0 <= i < n && rewrite[i] ==> paths[i] in written
  }

  /** A walk over files at `paths` that rewrites the `i`-th file to
      `texts[i]` exactly when `rewrite[i]`: what it has written and how many
      files it has counted after `n` files. */
  function Walk(paths: seq<Path>, rewrite: seq<bool>, texts: seq<string>, n: nat): (map<Path, string>, nat)
    requires n <= |paths| == |rewrite| == |texts|
  {
    if n == 0 then (map[], 0)
    else
      var before := Walk(paths, rewrite, texts, n - 1);
      if rewrite[n - 1] then (before.0[paths[n - 1] := texts[n - 1]], before.1 + 1) else before
  }

  lemma {:induction false} WalkAccounted(paths: seq<Path>, rewrite: seq<bool>, texts: seq<string>, n: nat)
    requires n <= |paths| == |rewrite| == |texts|
    ensures Accounted(paths, rewrite, texts, n, Walk(paths, rewrite, texts, n).0, Walk(paths, rewrite, texts, n).1)
  {
    if n > 0 {
      var before := Walk(paths, rewrite, texts, n - 1);
      WalkAccounted(paths, rewrite, texts, n - 1);
      AccountedStep(paths, rewrite, texts, n - 1, before.0, before.1);
    }
  }

  /** One more file keeps the walk accounted for: it is written and counted
      if it is rewritten, and left alone otherwise. */
  lemma AccountedStep(paths: seq<Path>, rewrite: seq<bool>, texts: seq<string>, k: nat,
                      written: map<Path, string>, count: nat)
    requires k < |paths| == |rewrite| == |texts|
    requires Accounted(paths, rewrite, texts, k, written, count)
    ensures rewrite[k] ==> Accounted(paths, rewrite, texts, k + 1, written[paths[k] := texts[k]], count + 1)
    ensures !rewrite[k] ==> Accounted(paths, rewrite, texts, k + 1, written, count)
  {
    if rewrite[k] {
      MapUpdateCard(written, paths[k], texts[k]);
      OriginsWrite(paths, rewrite, texts, k, written);
      CoveredWrite(paths, rewrite, texts, k, written);
    } else {
      OriginsSkip(paths, rewrite, texts, k, written);
      CoveredSkip(paths, rewrite, k, written);
    }
  }

  lemma MapUpdateCard(m: map<Path, string>, k: Path, v: string)
    ensures |m[k := v]| <= |m| + 1
  {
    assert m[k := v].Keys == m.Keys + {k};
  }

  lemma OriginsWrite(paths: seq<Path>, rewrite: seq<bool>, texts: seq<string>, k: nat,
                     written: map<Path, string>)
    requires k < |paths| == |rewrite| == |texts| && rewrite[k]
    requires Origins(paths, rewrite, texts, k, written)
    ensures Origins(paths, rewrite, texts, k + 1, written[paths[k] := texts[k]])
  {
    var after := written[paths[k] := texts[k]];
    forall p | p in after
      ensures exists i :: 0 <= i < k + 1 && rewrite[i] && paths[i] == p && after[p] == texts[i]
    {
      if p != paths[k] {
        var i :| 0 <= i < k && rewrite[i] && paths[i] == p && written[p] == texts[i];
        assert after[p] == texts[i];
      }
    }
  }

  lemma OriginsSkip(paths: seq<Path>, rewrite: seq<bool>, texts: seq<string>, k: nat,
                    written: map<Path, string>)
    requires k < |paths| == |rewrite| == |texts|
    requires Origins(paths, rewrite, texts, k, written)
    ensures Origins(paths, rewrite, texts, k + 1, written)
  {
    forall p | p in written
      ensures exists i :: 0 <= i < k + 1 && rewrite[i] && paths[i] == p && written[p] == texts[i]
    {
      var i :| 0 <= i < k && rewrite[i] && paths[i] == p && written[p] == texts[i];
    }
  }

  lemma CoveredWrite(paths: seq<Path>, rewrite: seq<bool>, texts: seq<string>, k: nat,
                     written: map<Path, string>)
    requires k < |paths| == |rewrite| == |texts| && Covered(paths, rewrite, k, written)
    ensures Covered(paths, rewrite, k + 1, written[paths[k] := texts[k]])
  {
  }

  lemma CoveredSkip(paths: seq<Path>, rewrite: seq<bool>, k: nat, written: map<Path, string>)
    requires k < |paths| == |rewrite| && !rewrite[k] && Covered(paths, rewrite, k, written)
    ensures Covered(paths, rewrite, k + 1, written)
  {
  }

  /** The directory as the walk's `root` string renders it. */
  function Render(p: Path): string {
    Join(p, '/')
  }

  /** The scripts skip every directory whose path text contains `node_modules`
      or `.git` (so `.github` is skipped too). */
  predicate SkippedDir(dir: Path) {
    Contains(Render(dir), "node_modules") || Contains(Render(dir), ".git")
  }

  /** Index of the last `c` in `s` (`str.rfind`), or -1. */
  function LastIndexOf(s: string, c: char): (i: int)
    ensures -1 <= i < |s|
    ensures i >= 0 ==> s[i] == c
    ensures forall j :: i < j < |s| ==> s[j] != c
    decreases |s|
  {
    if s == [] then -1
    else if s[|s| - 1] == c then |s| - 1
    else LastIndexOf(s[..|s| - 1], c)
  }

  /** `PurePath.suffix` of a file name: from the last dot, unless that dot
      starts the name or ends it. */
  function Suffix(name: string): (x: string)
    ensures x == [] || (x[0] == '.' && |x| >= 2 && '.' !in x[1..])
    ensures |x| <= |name| && x == name[|name| - |x|..]
    ensures x != [] ==> |x| < |name|
    // the suffix is non-empty exactly when the last dot is strictly inside
    ensures x != [] <==> exists i :: 0 < i < |name| - 1 && name[i] == '.' && '.' !in name[i + 1..]
  {
    var i := LastIndexOf(name, '.');
    if 0 < i < |name| - 1 then
      var tail := name[i + 1..];
      assert '.' !in tail by {
        forall k | 0 <= k < |tail| ensures tail[k] != '.' {
          assert tail[k] == name[i + 1 + k];
        }
      }
      name[i..]
    else
      assert forall d :: 0 < d < |name| - 1 && name[d] == '.' ==> '.' in name[d + 1..] by {
        forall d | 0 < d < |name| - 1 && name[d] == '.' ensures '.' in name[d + 1..] {
          LastDotAfter(name, d, i);
        }
      }
      []
  }

  /** A dot at `d` that is not the last one has another dot after it. */
  lemma LastDotAfter(name: string, d: nat, i: int)
    requires d < |name| && name[d] == '.' && i == LastIndexOf(name, '.')
    requires !(0 < i < |name| - 1) && 0 < d < |name| - 1
    ensures '.' in name[d + 1..]
  {
    assert i >= d;
    assert name[d + 1..][i - d - 1] == name[i];
  }

  /** `PurePath.suffix` on names with a dot at the start or the end, and with
      several dots. */
  lemma SuffixExamples()
    ensures Suffix("a.b.") == [] && Suffix(".png") == [] && Suffix("a.") == []
    ensures Suffix("archive.tar.gz") == ".gz" && Suffix("a.PNG") == ".PNG"
  {
    assert LastIndexOf("a.b.", '.') == 3;
    assert ".png"[..3] == ".pn" && ".pn"[..2] == ".p" && ".p"[..1] == ".";
    assert LastIndexOf(".png", '.') == 0;
    assert LastIndexOf("archive.tar.gz", '.') == 11;
    assert "a.PNG"[..4] == "a.PN" && "a.PN"[..3] == "a.P" && "a.P"[..2] == "a.";
    assert LastIndexOf("a.PNG", '.') == 1;
  }

  /** The last segment (`PurePath.name`). */
  function Name(p: Path): string
    requires p != []
  {
    p[|p| - 1]
  }

  /** A suffix that `with_suffix` accepts and that `Suffix` reads back. */
  predicate ValidSuffix(ext: string) {
    |ext| >= 2 && ext[0] == '.' && '.' !in ext[1..]
  }

  /** The part of a file name before its suffix (`PurePath.stem`). */
  function Stem(name: string): string {
    name[..|name| - |Suffix(name)|]
  }

  /** `PurePath.with_suffix(ext)`: the last segment loses its suffix and gains
      `ext`; the parent directory is kept. */
  function WithSuffix(p: Path, ext: string): (q: Path)
    requires p != []
    ensures |q| == |p| && q[..|p| - 1] == p[..|p| - 1]
  {
    p[..|p| - 1] + [Stem(Name(p)) + ext]
  }

  /** A file name splits into its stem and its suffix. */
  lemma StemSuffix(name: string)
    ensures Stem(name) + Suffix(name) == name
  {
  }

  /** After `with_suffix(ext)` the suffix is `ext`, for a non-empty name. */
  lemma {:induction false} SuffixOfWithSuffix(p: Path, ext: string)
    requires p != [] && Name(p) != [] && ValidSuffix(ext)
    ensures Suffix(Name(WithSuffix(p, ext))) == ext
  {
    var name := Name(p);
    var stem := Stem(name);
    var n := stem + ext;
    assert Name(WithSuffix(p, ext)) == n;
    assert |stem| > 0 by {
      if Suffix(name) != [] {
        var i := LastIndexOf(name, '.');
        assert 0 < i < |name| - 1;
      }
    }
    forall j | |stem| < j < |n| ensures n[j] != '.' {
      assert n[j] == ext[j - |stem|] && ext[j - |stem|] in ext[1..];
    }
    assert n[|stem|] == '.';
    assert LastIndexOf(n, '.') == |stem|;
    assert n[|stem|..] == ext;
  }

  /** Swapping the suffix and swapping it back returns the original path. */
  lemma {:induction false} WithSuffixRoundTrip(p: Path, ext: string)
    requires p != [] && ValidSuffix(ext) && Suffix(Name(p)) != []
    ensures WithSuffix(WithSuffix(p, ext), Suffix(Name(p))) == p
  {
    var name := Name(p);
    var q := WithSuffix(p, ext);
    SuffixOfWithSuffix(p, ext);
    var n := Name(q);
    assert n == Stem(name) + ext;
    assert Stem(n) == Stem(name);
    StemSuffix(name);
    assert WithSuffix(q, Suffix(name)) == p[..|p| - 1] + [name];
    assert p == p[..|p| - 1] + [name];
  }

  /** The segments `pathlib` keeps from a relative string: it splits on `/`
      and drops empty and `.` segments (`..` is kept as a name). */
  function Segments(rel: string): (q: Path)
    ensures forall i :: 0 <= i < |q| ==> q[i] != [] && q[i] != "."
  {
    KeepNames(Split(rel, '/'))
  }

  function KeepNames(parts: seq<string>): (q: Path)
    ensures forall i :: 0 <= i < |q| ==> q[i] != [] && q[i] != "."
    ensures forall x :: x in q ==> x in parts
    decreases |parts|
  {
    if parts == [] then []
    else if parts[0] == [] || parts[0] == "." then KeepNames(parts[1..])
    else [parts[0]] + KeepNames(parts[1..])
  }

  /** `Path(dir) / rel` for a relative `rel` (an absolute one would replace
      `dir`, which is why callers strip leading slashes first). */
  function JoinPath(dir: Path, rel: string): (q: Path)
    requires rel == [] || rel[0] != '/'
    ensures dir <= q
  {
    dir + Segments(rel)
  }

  lemma {:induction false} SplitNoSep(s: string, c: char)
    requires c !in s
    ensures Split(s, c) == [s]
    decreases |s|
  {
    if s != [] {
      SplitNoSep(s[1..], c);
      SplitCons(s[0], s[1..], c);
      assert [s[0]] + s[1..] == s;
    }
  }

  /** Splitting at one separator splits the two sides independently. */
  lemma {:induction false} SplitAround(a: string, b: string, c: char)
    ensures Split(a + [c] + b, c) == Split(a, c) + Split(b, c)
    decreases |a|
  {
    if a == [] {
      assert a + [c] + b == [c] + b;
      SplitSep(b, c);
    } else {
      SplitAround(a[1..], b, c);
      assert a == [a[0]] + a[1..];
      if a[0] == c {
        SplitAroundSep(a[1..], b, c);
      } else {
        SplitAroundCons(a[0], a[1..], b, c);
      }
    }
  }

  /** `SplitAround` when `a` starts with the separator. */
  lemma SplitAroundSep(rest: string, b: string, c: char)
    requires Split(rest + [c] + b, c) == Split(rest, c) + Split(b, c)
    ensures Split([c] + rest + [c] + b, c) == Split([c] + rest, c) + Split(b, c)
  {
    assert [c] + rest + [c] + b == [c] + (rest + [c] + b);
    SplitSepJoined(rest + [c] + b, Split(rest, c), Split(b, c), c);
    SplitSep(rest, c);
  }

  /** A leading separator opens an empty first piece. */
  lemma SplitSepJoined(t: string, sr: seq<string>, sb: seq<string>, c: char)
    requires Split(t, c) == sr + sb
    ensures Split([c] + t, c) == [[]] + sr + sb
  {
    SplitSep(t, c);
  }

  /** `SplitAround` when `a` starts with another character. */
  lemma SplitAroundCons(x: char, rest: string, b: string, c: char)
    requires x != c
    requires Split(rest + [c] + b, c) == Split(rest, c) + Split(b, c)
    ensures Split([x] + rest + [c] + b, c) == Split([x] + rest, c) + Split(b, c)
  {
    assert [x] + rest + [c] + b == [x] + (rest + [c] + b);
    SplitConsJoined(x, rest + [c] + b, Split(rest, c), Split(b, c), c);
    SplitCons(x, rest, c);
  }

  /** A character other than the separator joins the first piece. */
  lemma SplitConsJoined(x: char, t: string, sr: seq<string>, sb: seq<string>, c: char)
    requires x != c && sr != [] && Split(t, c) == sr + sb
    ensures Split([x] + t, c) == [[x] + sr[0]] + sr[1..] + sb
  {
    SplitCons(x, t, c);
    assert (sr + sb)[0] == sr[0] && (sr + sb)[1..] == sr[1..] + sb;
  }

  lemma {:induction false} KeepNamesConcat(x: seq<string>, y: seq<string>)
    ensures KeepNames(x + y) == KeepNames(x) + KeepNames(y)
    decreases |x|
  {
    if x != [] {
      assert (x + y)[1..] == x[1..] + y;
      KeepNamesConcat(x[1..], y);
    } else {
      assert x + y == y;
    }
  }

  /** The last segment of a relative path is the text after its last slash,
      unless that text is empty or `.`. */
  lemma {:induction false} SegmentsName(rel: string)
    requires var i := LastIndexOf(rel, '/'); rel[i + 1..] != [] && rel[i + 1..] != "."
    ensures Segments(rel) != [] && Name(Segments(rel)) == rel[LastIndexOf(rel, '/') + 1..]
  {
    var i := LastIndexOf(rel, '/');
    var tail := rel[i + 1..];
    assert '/' !in tail;
    SplitNoSep(tail, '/');
    assert KeepNames([tail]) == [tail];
    if i < 0 {
      assert tail == rel;
    } else {
      assert rel == rel[..i] + ['/'] + tail;
      SplitAround(rel[..i], tail, '/');
      KeepNamesConcat(Split(rel[..i], '/'), [tail]);
    }
  }

  /** Leading slashes only contribute empty segments. */
  lemma {:induction false} SegmentsStripSlashes(rel: string)
    ensures Segments(StripLeading(rel, '/')) == Segments(rel)
    decreases |rel|
  {
    if rel != [] && rel[0] == '/' {
      SegmentsStripSlashes(rel[1..]);
      StripSlashStep(rel);
    }
  }

  /** One leading slash: stripped, or dropped as an empty segment. */
  lemma StripSlashStep(rel: string)
    requires rel != [] && rel[0] == '/'
    requires Segments(StripLeading(rel[1..], '/')) == Segments(rel[1..])
    ensures Segments(StripLeading(rel, '/')) == Segments(rel)
  {
    assert StripLeading(rel, '/') == StripLeading(rel[1..], '/');
    SegmentsSlash(rel);
  }

  lemma SegmentsSlash(rel: string)
    requires rel != [] && rel[0] == '/'
    ensures Segments(rel) == Segments(rel[1..])
  {
    assert Split(rel, '/') == [[]] + Split(rel[1..], '/') by {
      assert rel == ['/'] + rel[1..];
      SplitSep(rel[1..], '/');
    }
    assert ([[]] + Split(rel[1..], '/'))[1..] == Split(rel[1..], '/');
  }
}
