/** The repair pass that follows the WebP migration: it finds every quoted
    reference ending in `.webp` in the site's text files and reverts the ones
    that cannot resolve — external URLs, and local files whose `.webp` is
    missing while a `.png`, `.jpg` or `.jpeg` sibling (or a favicon) suggests
    what the reference used to be. */
module WebpLinkFixer {
  import opened Strings
  import opened Paths

  /** The suffixes of the files the pass opens. */
  const TextExtensions: seq<string> := [".html", ".css", ".js", ".json", ".xml"]

  /** The original extensions tried, in this order, when a `.webp` is missing. */
  const Originals: seq<string> := [".png", ".jpg", ".jpeg"]

  predicate IsQuote(c: char) { c == '"' || c == '\'' }

  /** What the pattern `["']([^"']+\.webp)["']` captures: at least one
      character before `.webp` and no quote. */
  predicate IsRef(m: string) {
    |m| >= 6 && EndsWith(m, ".webp") && forall k :: 0 <= k < |m| ==> !IsQuote(m[k])
  }

  predicate AllRefs(ms: seq<string>) {
    forall k :: 0 <= k < |ms| ==> IsRef(ms[k])
  }

  /** The first quote at or after `i`, or `|s|` when there is none. */
  function NextQuote(s: string, i: nat): (j: nat)
    requires i <= |s|
    ensures i <= j <= |s| && (j < |s| ==> IsQuote(s[j]))
    ensures forall k :: i <= k < j ==> !IsQuote(s[k])
    decreases |s| - i
  {
    if i == |s| || IsQuote(s[i]) then i else NextQuote(s, i + 1)
  }

  /** `re.findall` of the pattern above from position `i`: a match opens at
      a quote, runs to the next quote and consumes it; where the text
      between two quotes does not end in `.webp`, the search moves on one
      character. */
  function FindRefs(s: string, i: nat): (refs: seq<string>)
    requires i <= |s|
    ensures AllRefs(refs)
    ensures forall k :: 0 <= k < |refs| ==> Contains(s, refs[k])
    decreases |s| - i
  {
    if i == |s| then []
    else if !IsQuote(s[i]) then FindRefs(s, i + 1)
    else
      var j := NextQuote(s, i + 1);
      var inner := s[i + 1..j];
      if j < |s| && |inner| >= 6 && EndsWith(inner, ".webp") then
        ContainsAt(s, inner, i + 1);
        [inner] + FindRefs(s, j + 1)
      else FindRefs(s, i + 1)
  }

  /** `order` lists the set of references found (`list(set(...))`): each
      once, in an order the model leaves open. */
  predicate Enumerates(order: seq<string>, found: seq<string>) {
    Distinct(order) && (forall x :: x in order ==> x in found) && (forall x :: x in found ==> x in order)
  }

  /** The file a local reference names: from the scan root when it starts
      with `/` (after `lstrip('/')`), otherwise from the referring file's
      directory. */
  function Resolve(root: Path, dir: Path, ref: string): (target: Path)
  {
    if StartsWith(ref, "/") then JoinPath(root, StripLeading(ref, '/'))
    else JoinPath(dir, ref)
  }

  /** Stripping the slashes loses nothing but empty segments, and a
      reference always names a file whose name ends in `.webp`. */
  lemma {:induction false} ResolveTarget(root: Path, dir: Path, ref: string)
    requires IsRef(ref)
    ensures StartsWith(ref, "/") ==> Resolve(root, dir, ref) == root + Segments(ref)
    ensures !StartsWith(ref, "/") ==> Resolve(root, dir, ref) == dir + Segments(ref)
    ensures Resolve(root, dir, ref) != []
    ensures EndsWith(Name(Resolve(root, dir, ref)), ".webp")
  {
    SegmentsStripSlashes(ref);
    RefName(ref);
    SegmentsName(ref);
  }

  /** The text after a reference's last slash ends in `.webp`. */
  lemma RefName(ref: string)
    requires EndsWith(ref, ".webp")
    ensures var tail := ref[LastIndexOf(ref, '/') + 1..];
      tail != [] && tail != "." && EndsWith(tail, ".webp")
  {
    WebpEndNoSlash(ref);
    EndsWithDrop(ref, LastIndexOf(ref, '/') + 1, ".webp");
  }

  /** The last five characters of a `.webp` name hold no slash. */
  lemma WebpEndNoSlash(s: string)
    requires EndsWith(s, ".webp")
    ensures forall j :: |s| - 5 <= j < |s| ==> s[j] != '/'
  {
    forall j | |s| - 5 <= j < |s| ensures s[j] != '/' {
      assert s[j] == s[|s| - 5..][j - (|s| - 5)];
    }
  }

  /** Dropping a prefix that leaves the ending in place keeps the ending. */
  lemma EndsWithDrop(s: string, k: nat, p: string)
    requires k + |p| <= |s| && EndsWith(s, p)
    ensures EndsWith(s[k..], p)
  {
    assert s[k..][|s| - k - |p|..] == s[|s| - |p|..];
  }

  /** A reference that `with_suffix` can work on. */
  function Target(root: Path, dir: Path, ref: string): (target: Path)
    requires IsRef(ref)
    ensures target != []
  {
    ResolveTarget(root, dir, ref);
    Resolve(root, dir, ref)
  }

  datatype Action = Keep | Revert(ext: string)

  /** `Originals[k]` is the first original extension whose file exists. */
  predicate FirstOriginal(fs: set<Path>, target: Path, k: nat)
    requires target != [] && k < |Originals|
  {
    WithSuffix(target, Originals[k]) in fs &&
    forall j :: 0 <= j < k ==> WithSuffix(target, Originals[j]) !in fs
  }

  predicate NoOriginal(fs: set<Path>, target: Path)
    requires target != []
  {
    forall k :: 0 <= k < |Originals| ==> WithSuffix(target, Originals[k]) !in fs
  }

  /** What the pass does with one reference, given the files that exist. */
  function Decide(fs: set<Path>, root: Path, dir: Path, ref: string): (a: Action)
    requires IsRef(ref)
    ensures a.Revert? ==> a.ext in Originals
    // an external URL is always reverted to `.png`
    ensures StartsWith(ref, "http") ==> a == Revert(".png")
    // a local `.webp` that exists is never touched
    ensures !StartsWith(ref, "http") && Target(root, dir, ref) in fs ==> a == Keep
    // a missing local `.webp` goes back to the first original that exists
    ensures !StartsWith(ref, "http") && Target(root, dir, ref) !in fs ==>
      forall k :: 0 <= k < |Originals| && FirstOriginal(fs, Target(root, dir, ref), k) ==>
        a == Revert(Originals[k])
    // with no original either, only a favicon is reverted
    ensures !StartsWith(ref, "http") && Target(root, dir, ref) !in fs && NoOriginal(fs, Target(root, dir, ref)) ==>
      a == (if Contains(ref, "favicon") then Revert(".png") else Keep)
  {
    if StartsWith(ref, "http") then Revert(".png")
    else
      var target := Target(root, dir, ref);
      if target in fs then Keep
      else if WithSuffix(target, ".png") in fs then Revert(".png")
      else if WithSuffix(target, ".jpg") in fs then Revert(".jpg")
      else if WithSuffix(target, ".jpeg") in fs then Revert(".jpeg")
      else if Contains(ref, "favicon") then Revert(".png")
      else Keep
  }

  /** `match.replace('.webp', ext)` */
  function Reverted(ref: string, ext: string): string {
    ReplaceAll(ref, ".webp", ext)
  }

  /** A reverted reference holds no `.webp` any more, so it differs from the
      reference it replaces. */
  lemma {:induction false} RevertedClean(ref: string, ext: string)
    requires IsRef(ref) && ext in Originals
    ensures !Contains(Reverted(ref, ext), ".webp")
    ensures Reverted(ref, ext) != ref
  {
    DifferAt(ext, ".webp", 1);
    MarkerNoOverlap(ext, ".webp");
    ReplaceAllRemoves(ref, ".webp", ext);
    ContainsAt(ref, ".webp", |ref| - 5);
  }

  /** The file text after the references in `order` have been handled in
      turn: each reverted one is replaced everywhere in the text. */
  function Revise(fs: set<Path>, root: Path, dir: Path, content: string, order: seq<string>): string
    requires AllRefs(order)
    decreases |order|
  {
    if order == [] then content
    else
      var before := Revise(fs, root, dir, content, order[..|order| - 1]);
      var ref := order[|order| - 1];
      match Decide(fs, root, dir, ref)
      case Keep => before
      case Revert(ext) => ReplaceAll(before, ref, Reverted(ref, ext))
  }

  /** How many of the references in `order` are reverted. */
  function CountReverts(fs: set<Path>, root: Path, dir: Path, order: seq<string>): (n: nat)
    requires AllRefs(order)
    ensures n <= |order|
    decreases |order|
  {
    if order == [] then 0
    else
      CountReverts(fs, root, dir, order[..|order| - 1]) +
      (if Decide(fs, root, dir, order[|order| - 1]).Revert? then 1 else 0)
  }

  /** With nothing reverted the text is unchanged, which is why the pass
      only rewrites the files where it counted a reversion. */
  lemma {:induction false} NoRevertKeepsText(fs: set<Path>, root: Path, dir: Path, content: string, order: seq<string>)
    requires AllRefs(order)
    ensures CountReverts(fs, root, dir, order) == 0 ==> Revise(fs, root, dir, content, order) == content
    decreases |order|
  {
    if order != [] {
      NoRevertKeepsText(fs, root, dir, content, order[..|order| - 1]);
    }
  }

  /** One file: the loop over the distinct matches. */
  method FixFile(fs: set<Path>, root: Path, dir: Path, content: string, matches: seq<string>)
    returns (newContent: string, reversions: nat, changed: bool)
    requires AllRefs(matches)
    ensures newContent == Revise(fs, root, dir, content, matches)
    ensures reversions == CountReverts(fs, root, dir, matches)
    ensures changed <==> reversions > 0
  {
    newContent := content;
    reversions := 0;
    changed := false;
    for i := 0 to |matches|
      invariant newContent == Revise(fs, root, dir, content, matches[..i])
      invariant reversions == CountReverts(fs, root, dir, matches[..i])
      invariant changed <==> reversions > 0
    {
      var ref := matches[i];
      assert matches[..i + 1][..i] == matches[..i];
      var action := Decide(fs, root, dir, ref);
      if action.Revert? {
        var reverted := Reverted(ref, action.ext);
        newContent := ReplaceAll(newContent, ref, reverted);
        changed := true;
        reversions := reversions + 1;
      }
    }
    assert matches[..|matches|] == matches;
  }

  /** The pass is not idempotent: quote pairing depends on the text, so
      reverting one reference can expose another. In `"http.webp"favicon.webp"`
      only `http.webp` is matched and reverted; in the revised text the
      quote after `http.png` opens the match `favicon.webp`, which a second
      pass reverts as well, even with no file on disk. */
  lemma SecondPassReverts()
    ensures var q, a, b, c := "\"", "http.webp", "favicon.webp", "http.png";
      var s, s' := q + a + q + b + q, q + c + q + b + q;
      FindRefs(s, 0) == [a] &&
      Revise({}, [], [], s, [a]) == s' &&
      FindRefs(s', 0) == [b] &&
      CountReverts({}, [], [], [b]) == 1 &&
      Revise({}, [], [], s', [b]) != s'
  {
    var q, a, b, c := "\"", "http.webp", "favicon.webp", "http.png";
    var s, s' := q + a + q + b + q, q + c + q + b + q;
    ExampleRefs();
    ExampleSpelling();
    QuotedPairShape(a, b);
    FirstRefOnly(s, |a| + 1);
    RevertedPlain("http", ".png");
    ReviseOne({}, [], [], s, a);
    QuotedPairReplaced(a, b, c);
    QuotedPairShape(c, b);
    SecondRefOnly(s', |c| + 1);
    FaviconReverted(c, b);
  }

  /** The example's texts hold no quote, and only two are references. */
  lemma ExampleRefs()
    ensures var a, b, c := "http.webp", "favicon.webp", "http.png";
      QuoteFree(a) && QuoteFree(b) && QuoteFree(c) &&
      |a| >= 6 && EndsWith(a, ".webp") && |b| >= 6 && EndsWith(b, ".webp") && !EndsWith(c, ".webp")
  {
    var a, b, c := "http.webp", "favicon.webp", "http.png";
    assert a[4..] == ".webp" && b[7..] == ".webp" && c[3..][0] == 'p';
  }

  /** `http.webp` is an external URL that reverts to `http.png`, and its
      first letter does not occur in `favicon.webp`. */
  lemma ExampleSpelling()
    ensures var a, b, c := "http.webp", "favicon.webp", "http.png";
      a == "http" + ".webp" && c == "http" + ".png" && '.' !in "http" &&
      StartsWith(a, "http") && a[0] !in b
  {
    assert "http.webp"[0] == 'h';
  }

  /** No quote character inside. */
  predicate QuoteFree(x: string) { '"' !in x && '\'' !in x }

  /** Text without quotes is passed over. */
  lemma {:induction false} SkipPlain(s: string, i: nat, j: nat)
    requires i <= j <= |s| && QuoteFree(s[i..j])
    ensures FindRefs(s, i) == FindRefs(s, j)
    decreases j - i
  {
    if i < j {
      assert s[i] == s[i..j][0] && s[i + 1..j] == s[i..j][1..];
      SkipPlain(s, i + 1, j);
    }
  }

  /** The next quote after a quote-free stretch is the one that ends it. */
  lemma {:induction false} NextQuoteAfter(s: string, i: nat, j: nat)
    requires i <= j < |s| && QuoteFree(s[i..j]) && IsQuote(s[j])
    ensures NextQuote(s, i) == j
    decreases j - i
  {
    if i < j {
      assert s[i] == s[i..j][0] && s[i + 1..j] == s[i..j][1..];
      NextQuoteAfter(s, i + 1, j);
    }
  }

  /** A quote followed by a quote-free reference and a closing quote yields
      that reference, and the search resumes after the closing quote. */
  lemma RefAt(s: string, i: nat, j: nat)
    requires i < j < |s| && IsQuote(s[i]) && QuoteFree(s[i + 1..j]) && IsQuote(s[j])
    requires |s[i + 1..j]| >= 6 && EndsWith(s[i + 1..j], ".webp")
    ensures FindRefs(s, i) == [s[i + 1..j]] + FindRefs(s, j + 1)
  {
    NextQuoteAfter(s, i + 1, j);
  }

  /** Where the quoted text is no reference, the search moves on one
      character. */
  lemma NoRefAt(s: string, i: nat, j: nat)
    requires i < j < |s| && IsQuote(s[i]) && QuoteFree(s[i + 1..j]) && IsQuote(s[j])
    requires !(|s[i + 1..j]| >= 6 && EndsWith(s[i + 1..j], ".webp"))
    ensures FindRefs(s, i) == FindRefs(s, i + 1)
  {
    NextQuoteAfter(s, i + 1, j);
  }

  /** A quote that closes the text opens nothing. */
  lemma LastQuote(s: string)
    requires s != [] && IsQuote(s[|s| - 1])
    ensures FindRefs(s, |s| - 1) == []
  {
    assert NextQuote(s, |s|) == |s|;
  }

  /** Three quotes at `0`, `m` and the end of `s`, with quote-free text
      between them. */
  predicate ThreeQuotes(s: string, m: nat) {
    0 < m < |s| - 1 && IsQuote(s[0]) && IsQuote(s[m]) && IsQuote(s[|s| - 1]) &&
    QuoteFree(s[1..m]) && QuoteFree(s[m + 1..|s| - 1])
  }

  /** `"a"b"` has that shape. */
  lemma QuotedPairShape(a: string, b: string)
    requires QuoteFree(a) && QuoteFree(b)
    ensures var s := "\"" + a + "\"" + b + "\"";
      ThreeQuotes(s, |a| + 1) && s[1..|a| + 1] == a && s[|a| + 2..|s| - 1] == b
  {
    var s := "\"" + a + "\"" + b + "\"";
    assert s[1..|a| + 1] == a && s[|a| + 2..|s| - 1] == b;
  }

  /** When the first quoted text is a reference, it consumes its closing
      quote, so the second is never matched. */
  lemma {:induction false} FirstRefOnly(s: string, m: nat)
    requires ThreeQuotes(s, m) && |s[1..m]| >= 6 && EndsWith(s[1..m], ".webp")
    ensures FindRefs(s, 0) == [s[1..m]]
  {
    assert FindRefs(s, m + 1) == [] by {
      SkipPlain(s, m + 1, |s| - 1);
      LastQuote(s);
    }
    RefAt(s, 0, m);
  }

  /** When the first quoted text is no reference, the quote that closes it
      opens the second. */
  lemma {:induction false} SecondRefOnly(s: string, m: nat)
    requires ThreeQuotes(s, m) && !EndsWith(s[1..m], ".webp")
    requires |s[m + 1..|s| - 1]| >= 6 && EndsWith(s[m + 1..|s| - 1], ".webp")
    ensures FindRefs(s, 0) == [s[m + 1..|s| - 1]]
  {
    assert FindRefs(s, m) == [s[m + 1..|s| - 1]] by {
      RefAt(s, m, |s| - 1);
      assert FindRefs(s, |s|) == [];
    }
    assert FindRefs(s, 1) == FindRefs(s, m) by {
      SkipPlain(s, 1, m);
    }
    NoRefAt(s, 0, m);
  }

  /** A text shorter than a pattern does not contain it. */
  lemma {:induction false} ContainsNeedsLength(s: string, p: string)
    ensures Contains(s, p) ==> |p| <= |s|
    decreases |s|
  {
    if s != [] && !(p <= s) {
      ContainsNeedsLength(s[1..], p);
    }
  }

  /** A text missing the pattern's first character does not contain it. */
  lemma {:induction false} NotContainsHead(s: string, p: string)
    requires p != [] && p[0] !in s
    ensures !Contains(s, p)
    decreases |s|
  {
    if s != [] {
      assert forall x :: x in s[1..] ==> x in s;
      NotContainsHead(s[1..], p);
    }
  }

  /** Where no character before a possible start of `p` is its first one,
      `p` does not occur. */
  lemma {:induction false} NotContainsEarly(s: string, p: string)
    requires p != [] && forall i :: 0 <= i && i + |p| <= |s| ==> s[i] != p[0]
    ensures !Contains(s, p)
    decreases |s|
  {
    if s != [] {
      assert !(p <= s) by {
        if |p| <= |s| { assert s[0] != p[0]; }
      }
      assert forall i :: 0 <= i && i + |p| <= |s| - 1 ==> s[1..][i] == s[i + 1];
      NotContainsEarly(s[1..], p);
    }
  }

  /** A reference with a single dot loses its `.webp` for the original. */
  lemma RevertedPlain(h: string, ext: string)
    requires '.' !in h
    ensures Reverted(h + ".webp", ext) == h + ext
  {
    var p := ".webp";
    assert p[..|p| - 1] == ".web";
    assert forall i :: 0 <= i < |h| ==> (h + ".web")[i] == h[i];
    NotContainsEarly(h + ".web", p);
    ReplaceAllSplit(h, p, "", ext);
    assert h + p + "" == h + p;
  }

  lemma RegroupTail(x: string, y: string, z: string, u: string, v: string)
    ensures x + y + z + u + v == x + y + (z + u + v)
  {
  }

  /** Handling a single reference: replaced everywhere when it is reverted. */
  lemma ReviseOne(fs: set<Path>, root: Path, dir: Path, content: string, ref: string)
    requires IsRef(ref)
    ensures Decide(fs, root, dir, ref).Revert? ==>
      Revise(fs, root, dir, content, [ref]) == ReplaceAll(content, ref, Reverted(ref, Decide(fs, root, dir, ref).ext))
    ensures Decide(fs, root, dir, ref).Keep? ==> Revise(fs, root, dir, content, [ref]) == content
  {
    assert [ref][..0] == [];
  }

  /** Replacing `a` in `"a"b"` touches only `a`, when `b` lacks the first
      character of `a`. */
  lemma QuotedPairReplaced(a: string, b: string, r: string)
    requires a != [] && QuoteFree(a) && QuoteFree(b) && a[0] !in b
    ensures ReplaceAll("\"" + a + "\"" + b + "\"", a, r) == "\"" + r + "\"" + b + "\""
  {
    var q := "\"";
    assert !Contains(q + a[..|a| - 1], a) by {
      var x := q + a[..|a| - 1];
      assert a[0] in a && x[0] == '"';
      ContainsNeedsLength(x[1..], a);
    }
    assert ReplaceAll(q + a + q + b + q, a, r) == q + r + ReplaceAll(q + b + q, a, r) by {
      RegroupTail(q, a, q, b, q);
      ReplaceAllSplit(q, a, q + b + q, r);
    }
    RegroupTail(q, r, q, b, q);
    assert ReplaceAll(q + b + q, a, r) == q + b + q by {
      assert a[0] != '"' && a[0] in a;
      NotContainsHead(q + b + q, a);
      ReplaceAllAbsent(q + b + q, a, r);
    }
  }

  /** A favicon reference with no file on disk is reverted, and it occurs
      in `"c"b"`, so reverting it changes that text. */
  lemma FaviconReverted(c: string, b: string)
    requires b == "favicon.webp"
    ensures CountReverts({}, [], [], [b]) == 1
    ensures Revise({}, [], [], "\"" + c + "\"" + b + "\"", [b]) != "\"" + c + "\"" + b + "\""
  {
    var s := "\"" + c + "\"" + b + "\"";
    assert b[7..] == ".webp";
    assert QuoteFree(b);
    assert !StartsWith(b, "http") by { assert b[0] != "http"[0]; }
    assert "favicon" <= b;
    assert Decide({}, [], [], b) == Revert(".png");
    assert [b][..0] == [];
    RevertedClean(b, ".png");
    assert s[|c| + 2..|c| + 2 + |b|] == b;
    ContainsAt(s, b, |c| + 2);
    ReplaceAllUnchangedIff(s, b, Reverted(b, ".png"));
  }

  /** The files the pass opens: outside skipped directories, with one of the
      text suffixes. */
  predicate Eligible(e: Entry) {
    !SkippedDir(e.dir) && Suffix(e.name) in TextExtensions
  }

  /** The matches of every visited file, as the pass enumerates them. */
  predicate Enumerations(entries: seq<Entry>, orders: seq<seq<string>>) {
    |orders| == |entries| &&
    forall i :: 0 <= i < |entries| ==> Enumerates(orders[i], FindRefs(entries[i].content, 0))
  }

  predicate RefLists(orders: seq<seq<string>>) {
    forall i :: 0 <= i < |orders| ==> AllRefs(orders[i])
  }

  lemma EnumeratedRefs(entries: seq<Entry>, orders: seq<seq<string>>)
    requires Enumerations(entries, orders)
    ensures RefLists(orders)
  {
    forall i, k | 0 <= i < |orders| && 0 <= k < |orders[i]| ensures IsRef(orders[i][k]) {
      assert orders[i][k] in FindRefs(entries[i].content, 0);
    }
  }

  datatype Summary = Summary(written: map<Path, string>, filesFixed: nat, totalReversions: nat)

  /** One visited file's effect on what the pass writes and counts. */
  function Visit(fs: set<Path>, root: Path, e: Entry, order: seq<string>, before: Summary): Summary
    requires AllRefs(order)
  {
    if !Eligible(e) then before
    else
      var count := CountReverts(fs, root, e.dir, order);
      if count == 0 then before
      else
        Summary(before.written[FilePath(e) := Revise(fs, root, e.dir, e.content, order)],
                before.filesFixed + 1, before.totalReversions + count)
  }

  /** The pass over the first `n` visited files: what it writes and what it
      counts. */
  function FixAll(fs: set<Path>, root: Path, entries: seq<Entry>, orders: seq<seq<string>>, n: nat): (r: Summary)
    requires n <= |entries| == |orders| && RefLists(orders)
    ensures r.filesFixed <= r.totalReversions
    ensures forall p :: p in r.written ==> exists i :: 0 <= i < n && Eligible(entries[i]) && FilePath(entries[i]) == p
  {
    if n == 0 then Summary(map[], 0, 0)
    else Visit(fs, root, entries[n - 1], orders[n - 1], FixAll(fs, root, entries, orders, n - 1))
  }

  function FilePaths(entries: seq<Entry>): seq<Path> {
    seq(|entries|, i requires 0 <= i < |entries| => FilePath(entries[i]))
  }

  /** The files the pass rewrites: eligible ones with a reversion. */
  function Rewrites(fs: set<Path>, root: Path, entries: seq<Entry>, orders: seq<seq<string>>): seq<bool>
    requires |entries| == |orders| && RefLists(orders)
  {
    seq(|entries|, i requires 0 <= i < |entries| =>
      Eligible(entries[i]) && CountReverts(fs, root, entries[i].dir, orders[i]) > 0)
  }

  function Outputs(fs: set<Path>, root: Path, entries: seq<Entry>, orders: seq<seq<string>>): seq<string>
    requires |entries| == |orders| && RefLists(orders)
  {
    seq(|entries|, i requires 0 <= i < |entries| => Revise(fs, root, entries[i].dir, entries[i].content, orders[i]))
  }

  /** Every write of the pass is counted; a path is written only with the
      revised text of an eligible file that had a reversion, and every such
      file is written. */
  lemma FixAllWrites(fs: set<Path>, root: Path, entries: seq<Entry>, orders: seq<seq<string>>, n: nat)
    requires n <= |entries| == |orders| && RefLists(orders)
    ensures Accounted(FilePaths(entries), Rewrites(fs, root, entries, orders), Outputs(fs, root, entries, orders), n,
                      FixAll(fs, root, entries, orders, n).written, FixAll(fs, root, entries, orders, n).filesFixed)
  {
    FixAllIsWalk(fs, root, entries, orders, n);
    WalkAccounted(FilePaths(entries), Rewrites(fs, root, entries, orders), Outputs(fs, root, entries, orders), n);
  }

  /** What the pass writes and how many files it counts are the generic walk
      that rewrites exactly the eligible files with a reversion. */
  lemma {:induction false} FixAllIsWalk(fs: set<Path>, root: Path, entries: seq<Entry>, orders: seq<seq<string>>, n: nat)
    requires n <= |entries| == |orders| && RefLists(orders)
    ensures var w := Walk(FilePaths(entries), Rewrites(fs, root, entries, orders), Outputs(fs, root, entries, orders), n);
      FixAll(fs, root, entries, orders, n).written == w.0 && FixAll(fs, root, entries, orders, n).filesFixed == w.1
    decreases n
  {
    if n > 0 {
      FixAllIsWalk(fs, root, entries, orders, n - 1);
      VisitRewrites(fs, root, entries, orders, n - 1, FixAll(fs, root, entries, orders, n - 1));
    }
  }

  /** A visited file is written, with its revised text, exactly when the
      pass rewrites it. */
  lemma VisitRewrites(fs: set<Path>, root: Path, entries: seq<Entry>, orders: seq<seq<string>>, k: nat, before: Summary)
    requires k < |entries| == |orders| && RefLists(orders)
    ensures Rewrites(fs, root, entries, orders)[k] ==>
      Visit(fs, root, entries[k], orders[k], before).written ==
        before.written[FilePaths(entries)[k] := Outputs(fs, root, entries, orders)[k]] &&
      Visit(fs, root, entries[k], orders[k], before).filesFixed == before.filesFixed + 1
    ensures !Rewrites(fs, root, entries, orders)[k] ==>
      Visit(fs, root, entries[k], orders[k], before).written == before.written &&
      Visit(fs, root, entries[k], orders[k], before).filesFixed == before.filesFixed
  {
  }

  /** The body of the walk for one file: open it if eligible, fix it, and
      write it back and count it if anything was reverted. */
  method VisitFile(fs: set<Path>, root: Path, e: Entry, order: seq<string>,
                   written: map<Path, string>, filesFixed: nat, totalReversions: nat)
    returns (written': map<Path, string>, filesFixed': nat, totalReversions': nat)
    requires AllRefs(order)
    ensures Summary(written', filesFixed', totalReversions') ==
      Visit(fs, root, e, order, Summary(written, filesFixed, totalReversions))
  {
    written', filesFixed', totalReversions' := written, filesFixed, totalReversions;
    if Eligible(e) {
      var newContent, reversions, changed := FixFile(fs, root, e.dir, e.content, order);
      totalReversions' := totalReversions' + reversions;
      if changed {
        written' := written'[FilePath(e) := newContent];
        filesFixed' := filesFixed' + 1;
      }
    }
  }

  /** `fix_broken_links`: the walk over the visited files. */
  method FixBrokenLinks(fs: set<Path>, root: Path, entries: seq<Entry>, orders: seq<seq<string>>)
    returns (written: map<Path, string>, filesFixed: nat, totalReversions: nat)
    requires Enumerations(entries, orders)
    ensures RefLists(orders)
    ensures Summary(written, filesFixed, totalReversions) == FixAll(fs, root, entries, orders, |entries|)
  {
    EnumeratedRefs(entries, orders);
    written, filesFixed, totalReversions := map[], 0, 0;
    for n := 0 to |entries|
      invariant Summary(written, filesFixed, totalReversions) == FixAll(fs, root, entries, orders, n)
    {
      written, filesFixed, totalReversions :=
        VisitFile(fs, root, entries[n], orders[n], written, filesFixed, totalReversions);
    }
  }
}
