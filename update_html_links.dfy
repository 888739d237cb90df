/** Points the site's HTML pages at the minified stylesheet and scripts: three
    fixed original paths are replaced, in order, by their `.min` versions. */
module HtmlLinkUpdater {
  import opened Strings
  import opened Paths
  import opened ReplaceChains

  /** The replacements, in the order the dictionary lists them. */
  const LinkPairs: seq<(string, string)> := [
    ("assets/css/style.css", "assets/css/style.min.css"),
    ("assets/js/main.js", "assets/js/main.min.js"),
    ("assets/js/app-loader.js", "assets/js/app-loader.min.js")
  ]

  /** No minified path can complete an original one: they all begin with
      `as`, which starts no later position of any of them. */
  lemma {:induction false} LinkPairsSafe()
    ensures ValidPairs(LinkPairs) && CannotCreate(LinkPairs)
  {
    OriginalsStartAsOnce();
    MinifiedStartAsOnce();
    MinifiedDiffer();
    forall i, k | 0 <= i < |LinkPairs| && 0 <= k < |LinkPairs|
      ensures NoOverlap(LinkPairs[i].1, LinkPairs[k].0)
    {
      PairNoOverlap(LinkPairs[i].1, LinkPairs[k].0);
    }
  }

  /** `s` begins with `as` and no later position does. */
  predicate StartsAsOnce(s: string) {
    |s| >= 2 && s[0] == 'a' && s[1] == 's' && s[|s| - 1] != 'a' &&
    forall k :: 1 <= k < |s| - 1 ==> s[k] != 'a' || s[k + 1] != 's'
  }

  lemma OriginalsStartAsOnce()
    ensures forall j :: 0 <= j < |LinkPairs| ==> StartsAsOnce(LinkPairs[j].0)
  {
    assert StartsAsOnce(LinkPairs[0].0);
    assert StartsAsOnce(LinkPairs[1].0);
    assert StartsAsOnce(LinkPairs[2].0);
  }

  lemma MinifiedStartAsOnce()
    ensures forall j :: 0 <= j < |LinkPairs| ==> StartsAsOnce(LinkPairs[j].1)
  {
    assert StartsAsOnce(LinkPairs[0].1);
    assert StartsAsOnce(LinkPairs[1].1);
    assert StartsAsOnce(LinkPairs[2].1);
  }

  /** No minified path is an original one or a prefix of one, nor the other
      way round. */
  lemma MinifiedDiffer()
    ensures forall i, k :: 0 <= i < |LinkPairs| && 0 <= k < |LinkPairs| ==>
      !Comparable(LinkPairs[i].1, LinkPairs[k].0)
  {
    var style, main, loader := LinkPairs[0].1, LinkPairs[1].1, LinkPairs[2].1;
    DifferAt(style, LinkPairs[0].0, 17);
    DifferAt(style, LinkPairs[1].0, 7);
    DifferAt(style, LinkPairs[2].0, 7);
    DifferAt(main, LinkPairs[0].0, 7);
    DifferAt(main, LinkPairs[1].0, 15);
    DifferAt(main, LinkPairs[2].0, 10);
    DifferAt(loader, LinkPairs[0].0, 7);
    DifferAt(loader, LinkPairs[1].0, 10);
    DifferAt(loader, LinkPairs[2].0, 21);
  }

  /** The page text after the loop over the replacements. */
  function Updated(content: string): string {
    LinkPairsSafe();
    Chain(content, LinkPairs)
  }

  predicate HasOriginalPath(content: string) {
    exists k :: 0 <= k < |LinkPairs| && Contains(content, LinkPairs[k].0)
  }

  /** No original path is left, the page changes exactly when it held one,
      and a second run changes nothing. */
  lemma UpdatedClean(content: string)
    ensures forall k :: 0 <= k < |LinkPairs| ==> !Contains(Updated(content), LinkPairs[k].0)
    ensures Updated(content) != content <==> HasOriginalPath(content)
    ensures Updated(Updated(content)) == Updated(content)
  {
    LinkPairsSafe();
    ChainRemoves(content, LinkPairs);
    ChainChangesIff(content, LinkPairs);
    ChainIdempotent(content, LinkPairs);
  }

  /** The loop over the replacements: each is applied only when its
      original occurs in the text so far, and `modified` records that one
      was. */
  method UpdateText(content: string) returns (newContent: string, modified: bool)
    ensures newContent == Updated(content)
    ensures modified <==> newContent != content
  {
    LinkPairsSafe();
    newContent := content;
    modified := false;
    for i := 0 to |LinkPairs|
      invariant newContent == Chain(content, LinkPairs[..i])
      invariant modified <==> newContent != content
    {
      ChainExtend(content, LinkPairs, i);
      var original, minified := LinkPairs[i].0, LinkPairs[i].1;
      if Contains(newContent, original) {
        ChainStepChanges(content, LinkPairs, i);
        newContent := ReplaceAll(newContent, original, minified);
        modified := true;
      } else {
        ReplaceAllAbsent(newContent, original, minified);
      }
    }
    assert LinkPairs[..|LinkPairs|] == LinkPairs;
  }

  // ---------------------------------------------------------------------------
  // The walk
  // ---------------------------------------------------------------------------

  /** Pages outside skipped directories whose name ends in `.html`. */
  predicate Eligible(e: Entry) {
    !SkippedDir(e.dir) && EndsWith(e.name, ".html")
  }

  datatype LinkSummary = LinkSummary(written: map<Path, string>, filesModified: nat)

  function Visit(e: Entry, before: LinkSummary): LinkSummary {
    if Eligible(e) && Updated(e.content) != e.content then
      LinkSummary(before.written[FilePath(e) := Updated(e.content)], before.filesModified + 1)
    else before
  }

  /** The walk over the first `n` visited files: only eligible pages that
      held an original path are written, and each at most once counted. */
  function UpdateAll(entries: seq<Entry>, n: nat): (r: LinkSummary)
    requires n <= |entries|
    ensures r.filesModified <= n
    ensures forall p :: p in r.written ==>
      exists i :: 0 <= i < n && Eligible(entries[i]) && HasOriginalPath(entries[i].content) &&
        FilePath(entries[i]) == p
  {
    if n == 0 then LinkSummary(map[], 0)
    else
      UpdatedClean(entries[n - 1].content);
      Visit(entries[n - 1], UpdateAll(entries, n - 1))
  }

  /** Where each visited file lives, whether the walk rewrites it, and its
      rewritten text. */
  function FilePaths(entries: seq<Entry>): seq<Path> {
    seq(|entries|, i requires 0 <= i < |entries| => FilePath(entries[i]))
  }

  function Rewrites(entries: seq<Entry>): seq<bool> {
    seq(|entries|, i requires 0 <= i < |entries| => Eligible(entries[i]) && HasOriginalPath(entries[i].content))
  }

  function Outputs(entries: seq<Entry>): seq<string> {
    seq(|entries|, i requires 0 <= i < |entries| => Updated(entries[i].content))
  }

  /** Every write of the walk is counted; a path is written only with the
      rewritten text of an eligible file that had something to rewrite, and
      every such file is written. */
  lemma UpdateAllWrites(entries: seq<Entry>, n: nat)
    requires n <= |entries|
    ensures Accounted(FilePaths(entries), Rewrites(entries), Outputs(entries), n,
                      UpdateAll(entries, n).written, UpdateAll(entries, n).filesModified)
  {
    UpdateAllIsWalk(entries, n);
    WalkAccounted(FilePaths(entries), Rewrites(entries), Outputs(entries), n);
  }

  /** The walk over the visited files is the generic walk that rewrites
      exactly the eligible files holding something to rewrite. */
  lemma {:induction false} UpdateAllIsWalk(entries: seq<Entry>, n: nat)
    requires n <= |entries|
    ensures var w := Walk(FilePaths(entries), Rewrites(entries), Outputs(entries), n);
      UpdateAll(entries, n) == LinkSummary(w.0, w.1)
    decreases n
  {
    if n > 0 {
      UpdateAllIsWalk(entries, n - 1);
      VisitRewrites(entries, n - 1, UpdateAll(entries, n - 1));
    }
  }

  /** A visited file is written, with its rewritten text, exactly when the
      walk rewrites it. */
  lemma VisitRewrites(entries: seq<Entry>, k: nat, before: LinkSummary)
    requires k < |entries|
    ensures Rewrites(entries)[k] ==>
      Visit(entries[k], before) ==
        LinkSummary(before.written[FilePaths(entries)[k] := Outputs(entries)[k]], before.filesModified + 1)
    ensures !Rewrites(entries)[k] ==> Visit(entries[k], before) == before
  {
    UpdatedClean(entries[k].content);
  }

  method VisitFile(e: Entry, written: map<Path, string>, filesModified: nat)
    returns (written': map<Path, string>, filesModified': nat)
    ensures LinkSummary(written', filesModified') == Visit(e, LinkSummary(written, filesModified))
  {
    written', filesModified' := written, filesModified;
    if Eligible(e) {
      var newContent, modified := UpdateText(e.content);
      if modified {
        written' := written'[FilePath(e) := newContent];
        filesModified' := filesModified' + 1;
      }
    }
  }

  /** `update_html_links` */
  method UpdateHtmlLinks(entries: seq<Entry>) returns (written: map<Path, string>, filesModified: nat)
    ensures LinkSummary(written, filesModified) == UpdateAll(entries, |entries|)
  {
    written, filesModified := map[], 0;
    for n := 0 to |entries|
      invariant LinkSummary(written, filesModified) == UpdateAll(entries, n)
    {
      written, filesModified := VisitFile(entries[n], written, filesModified);
    }
  }
}
