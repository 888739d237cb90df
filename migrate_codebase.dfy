/** The WebP migration: every legacy image extension in the site's text
    files is rewritten to `.webp`, then every legacy image that has a `.webp`
    sibling is deleted. */
module ReferenceMigrator {
  import opened Strings
  import opened Paths
  import opened ReplaceChains

  /** The extensions rewritten and cleaned up, in the order they are
      replaced (case-sensitive, so `.Png` is not one of them). */
  const LegacyExtensions: seq<string> := [".png", ".jpg", ".jpeg", ".PNG", ".JPG", ".JPEG"]

  /** The suffixes of the files whose text is rewritten. */
  const TextExtensions: seq<string> := [".html", ".css", ".js", ".json", ".xml", ".txt", ".md"]

  /** Each extension, paired with `.webp`. */
  function ToWebp(exts: seq<string>): (pairs: seq<(string, string)>)
    ensures |pairs| == |exts|
    ensures forall i :: 0 <= i < |exts| ==> pairs[i] == (exts[i], ".webp")
  {
    if exts == [] then [] else [(exts[0], ".webp")] + ToWebp(exts[1..])
  }

  const MigrationPairs: seq<(string, string)> := ToWebp(LegacyExtensions)

  /** `.webp` cannot complete a legacy extension, whatever surrounds it. */
  lemma {:induction false} MigrationPairsSafe()
    ensures ValidPairs(MigrationPairs) && CannotCreate(MigrationPairs)
  {
    forall i, k | 0 <= i < |MigrationPairs| && 0 <= k < |MigrationPairs|
      ensures NoOverlap(MigrationPairs[i].1, MigrationPairs[k].0)
    {
      var ext := LegacyExtensions[k];
      DifferAt(".webp", ext, 1);
      MarkerNoOverlap(".webp", ext);
    }
  }

  /** Every pair rewrites a non-empty legacy extension to `.webp`. */
  lemma MigrationPairsValid()
    ensures ValidPairs(MigrationPairs) && |MigrationPairs| == |LegacyExtensions|
    ensures forall i :: 0 <= i < |MigrationPairs| ==> MigrationPairs[i] == (LegacyExtensions[i], ".webp")
  {
    MigrationPairsSafe();
  }

  /** The text after the replacement loop. */
  function Migrated(content: string): string {
    MigrationPairsSafe();
    Chain(content, MigrationPairs)
  }

  predicate HasLegacyReference(content: string) {
    exists k :: 0 <= k < |LegacyExtensions| && Contains(content, LegacyExtensions[k])
  }

  /** No legacy extension is left, the text changes exactly when it had
      one, and a second run changes nothing. */
  lemma MigratedClean(content: string)
    ensures forall k :: 0 <= k < |LegacyExtensions| ==> !Contains(Migrated(content), LegacyExtensions[k])
    ensures Migrated(content) != content <==> HasLegacyReference(content)
    ensures Migrated(Migrated(content)) == Migrated(content)
  {
    MigrationPairsSafe();
    ChainRemoves(content, MigrationPairs);
    ChainChangesIff(content, MigrationPairs);
    ChainIdempotent(content, MigrationPairs);
  }

  /** The loop over the extensions, one `replace` each. */
  method MigrateText(content: string) returns (newContent: string)
    ensures newContent == Migrated(content)
  {
    MigrationPairsValid();
    newContent := content;
    for i := 0 to |LegacyExtensions|
      invariant newContent == Chain(content, MigrationPairs[..i])
    {
      ChainExtend(content, MigrationPairs, i);
      newContent := ReplaceAll(newContent, LegacyExtensions[i], ".webp");
    }
    assert MigrationPairs[..|LegacyExtensions|] == MigrationPairs;
  }

  // ---------------------------------------------------------------------------
  // The text pass over the walk
  // ---------------------------------------------------------------------------

  predicate Eligible(e: Entry) {
    !SkippedDir(e.dir) && Suffix(e.name) in TextExtensions
  }

  datatype TextSummary = TextSummary(written: map<Path, string>, filesModified: nat)

  /** One visited file: rewritten and counted when its text changes. */
  function Visit(e: Entry, before: TextSummary): TextSummary {
    if Eligible(e) && Migrated(e.content) != e.content then
      TextSummary(before.written[FilePath(e) := Migrated(e.content)], before.filesModified + 1)
    else before
  }

  /** The text pass over the first `n` visited files: only eligible files
      that referred to a legacy image are written, and at most one count per
      visited file. */
  function MigrateAll(entries: seq<Entry>, n: nat): (r: TextSummary)
    requires n <= |entries|
    ensures r.filesModified <= n
    ensures forall p :: p in r.written ==>
      exists i :: 0 <= i < n && Eligible(entries[i]) && HasLegacyReference(entries[i].content) &&
        FilePath(entries[i]) == p
  {
    if n == 0 then TextSummary(map[], 0)
    else
      MigratedClean(entries[n - 1].content);
      Visit(entries[n - 1], MigrateAll(entries, n - 1))
  }

  /** Where each visited file lives, whether the walk rewrites it, and its
      rewritten text. */
  function FilePaths(entries: seq<Entry>): seq<Path> {
    seq(|entries|, i requires 0 <= i < |entries| => FilePath(entries[i]))
  }

  function Rewrites(entries: seq<Entry>): seq<bool> {
    seq(|entries|, i requires 0 <= i < |entries| => Eligible(entries[i]) && HasLegacyReference(entries[i].content))
  }

  function Outputs(entries: seq<Entry>): seq<string> {
    seq(|entries|, i requires 0 <= i < |entries| => Migrated(entries[i].content))
  }

  /** Every write of the walk is counted; a path is written only with the
      rewritten text of an eligible file that had something to rewrite, and
      every such file is written. */
  lemma MigrateAllWrites(entries: seq<Entry>, n: nat)
    requires n <= |entries|
    ensures Accounted(FilePaths(entries), Rewrites(entries), Outputs(entries), n,
                      MigrateAll(entries, n).written, MigrateAll(entries, n).filesModified)
  {
    MigrateAllIsWalk(entries, n);
    WalkAccounted(FilePaths(entries), Rewrites(entries), Outputs(entries), n);
  }

  /** The walk over the visited files is the generic walk that rewrites
      exactly the eligible files holding something to rewrite. */
  lemma {:induction false} MigrateAllIsWalk(entries: seq<Entry>, n: nat)
    requires n <= |entries|
    ensures var w := Walk(FilePaths(entries), Rewrites(entries), Outputs(entries), n);
      MigrateAll(entries, n) == TextSummary(w.0, w.1)
    decreases n
  {
    if n > 0 {
      MigrateAllIsWalk(entries, n - 1);
      VisitRewrites(entries, n - 1, MigrateAll(entries, n - 1));
    }
  }

  /** A visited file is written, with its rewritten text, exactly when the
      walk rewrites it. */
  lemma VisitRewrites(entries: seq<Entry>, k: nat, before: TextSummary)
    requires k < |entries|
    ensures Rewrites(entries)[k] ==>
      Visit(entries[k], before) ==
        TextSummary(before.written[FilePaths(entries)[k] := Outputs(entries)[k]], before.filesModified + 1)
    ensures !Rewrites(entries)[k] ==> Visit(entries[k], before) == before
  {
    MigratedClean(entries[k].content);
  }

  method VisitFile(e: Entry, written: map<Path, string>, filesModified: nat)
    returns (written': map<Path, string>, filesModified': nat)
    ensures TextSummary(written', filesModified') == Visit(e, TextSummary(written, filesModified))
  {
    written', filesModified' := written, filesModified;
    if Eligible(e) {
      var newContent := MigrateText(e.content);
      if newContent != e.content {
        written' := written'[FilePath(e) := newContent];
        filesModified' := filesModified' + 1;
      }
    }
  }

  /** Step 2 of `update_references_and_cleanup`. */
  method UpdateReferences(entries: seq<Entry>) returns (written: map<Path, string>, filesModified: nat)
    ensures TextSummary(written, filesModified) == MigrateAll(entries, |entries|)
  {
    written, filesModified := map[], 0;
    for n := 0 to |entries|
      invariant TextSummary(written, filesModified) == MigrateAll(entries, n)
    {
      written, filesModified := VisitFile(entries[n], written, filesModified);
    }
  }

  // ---------------------------------------------------------------------------
  // The cleanup pass over the walk
  // ---------------------------------------------------------------------------

  /** A visited file and its size in bytes. */
  datatype FileStat = FileStat(dir: Path, name: string, size: nat)

  function StatPath(f: FileStat): Path {
    f.dir + [f.name]
  }

  /** A legacy image is deleted when its `.webp` sibling exists. The walk
      never deletes a `.webp`, so the existing files can be read from the
      state before the pass. */
  predicate Deletes(fs: set<Path>, f: FileStat) {
    Suffix(f.name) in LegacyExtensions && WithSuffix(StatPath(f), ".webp") in fs
  }

  /** The files deleted among the first `n` visited. */
  function Deleted(fs: set<Path>, files: seq<FileStat>, n: nat): (d: seq<FileStat>)
    requires n <= |files|
    ensures |d| <= n
    decreases n
  {
    if n == 0 then []
    else if Deletes(fs, files[n - 1]) then Deleted(fs, files, n - 1) + [files[n - 1]]
    else Deleted(fs, files, n - 1)
  }

  function TotalSize(d: seq<FileStat>): nat
    decreases |d|
  {
    if d == [] then 0 else TotalSize(d[..|d| - 1]) + d[|d| - 1].size
  }

  /** A visited file is deleted exactly when it is a legacy image with a
      `.webp` sibling; one without a sibling, and every other file, is kept. */
  lemma {:induction false} DeletedExactly(fs: set<Path>, files: seq<FileStat>, n: nat)
    requires n <= |files|
    ensures forall f :: f in Deleted(fs, files, n) <==> f in files[..n] && Deletes(fs, f)
    decreases n
  {
    if n > 0 {
      DeletedExactly(fs, files, n - 1);
      assert files[..n] == files[..n - 1] + [files[n - 1]];
    }
  }

  /** Step 3 of `update_references_and_cleanup`: deletes, counts and sums
      the sizes of the legacy images that have a `.webp` sibling. */
  method Cleanup(fs: set<Path>, files: seq<FileStat>)
    returns (deleted: seq<FileStat>, deletedCount: nat, savedSpace: nat)
    ensures deleted == Deleted(fs, files, |files|)
    ensures deletedCount == |deleted| && savedSpace == TotalSize(deleted)
  {
    deleted, deletedCount, savedSpace := [], 0, 0;
    for n := 0 to |files|
      invariant deleted == Deleted(fs, files, n)
      invariant deletedCount == |deleted| && savedSpace == TotalSize(deleted)
    {
      var f := files[n];
      if Suffix(f.name) in LegacyExtensions {
        var webpCandidate := WithSuffix(StatPath(f), ".webp");
        if webpCandidate in fs {
          deleted := deleted + [f];
          assert deleted[..|deleted| - 1] == Deleted(fs, files, n);
          deletedCount := deletedCount + 1;
          savedSpace := savedSpace + f.size;
        }
      }
    }
  }
}
