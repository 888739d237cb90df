/** Adds `loading="lazy"` to every `<img ...>` tag of the site's pages that
    does not already say how it loads. The tag pattern is
    `<img\s+([^>]+)>`, case-insensitive, and the page is rewritten by a
    left-to-right substitution. */
module LazyLoading {
  import opened Strings
  import opened Paths

  datatype Option<T> = None | Some(value: T)

  /** The attribute text captured by a match, and the length of the whole
      match. */
  datatype Tag = Tag(attrs: string, len: nat)

  /** The text the rewrite appends to a tag's attributes. */
  const LazyAttr := " loading=\"lazy\""

  /** The number of whitespace characters starting at `k`. */
  function SpaceRun(t: string, k: nat): (n: nat)
    requires k <= |t|
    ensures k + n <= |t|
    ensures forall i :: k <= i < k + n ==> IsSpace(t[i])
    ensures k + n == |t| || !IsSpace(t[k + n])
    decreases |t| - k
  {
    if k < |t| && IsSpace(t[k]) then 1 + SpaceRun(t, k + 1) else 0
  }

  /** The first `>` at or after `k`, or `|t|` when there is none. */
  function GtFrom(t: string, k: nat): (g: nat)
    requires k <= |t|
    ensures k <= g <= |t| && (g < |t| ==> t[g] == '>')
    ensures forall i :: k <= i < g ==> t[i] != '>'
    decreases |t| - k
  {
    if k == |t| || t[k] == '>' then k else GtFrom(t, k + 1)
  }

  /** `t` starts with `<img` in any case. */
  predicate OpensImg(t: string) {
    |t| >= 4 && t[0] == '<' && LowerChar(t[1]) == 'i' && LowerChar(t[2]) == 'm' && LowerChar(t[3]) == 'g'
  }

  /** The match of `<img\s+([^>]+)>` at the start of `t`. The greedy `\s+`
      takes the whole whitespace run and `[^>]+` the text up to the next
      `>`; when that text is empty, `\s+` gives back its last character,
      which then is the whole capture. */
  function MatchAt(t: string): (m: Option<Tag>)
    ensures m.Some? ==> 6 <= m.value.len <= |t| && t[m.value.len - 1] == '>'
    ensures m.Some? ==> m.value.attrs != [] && '>' !in m.value.attrs
    ensures m.Some? ==> |m.value.attrs| == 1 || !IsSpace(m.value.attrs[0])
  {
    if !OpensImg(t) then None
    else
      var w := SpaceRun(t, 4);
      if w == 0 then None else Capture(t, 4 + w, GtFrom(t, 4 + w))
  }

  /** Where a match lies in the text: `<img` in any case, a whitespace run
      from index 4, the capture right after it, and the closing `>`, which
      is the first `>` of the text. */
  lemma MatchAtSpan(t: string)
    ensures MatchAt(t).Some? ==>
      var m := MatchAt(t).value;
      var a := m.len - 1 - |m.attrs|;
      OpensImg(t) && 5 <= a && m.attrs == t[a..m.len - 1] &&
      (forall i :: 4 <= i < a ==> IsSpace(t[i])) &&
      (forall i :: 0 <= i < m.len - 1 ==> t[i] != '>')
  {
    if MatchAt(t).Some? {
      var j := 4 + SpaceRun(t, 4);
      var g := GtFrom(t, j);
      assert LowerChar('>') == '>';
      assert forall i :: 4 <= i < j ==> t[i] != '>';
      if g == j {
        assert MatchAt(t).value == Tag(t[j - 1..j], j + 1);
      } else {
        assert MatchAt(t).value == Tag(t[j..g], g + 1);
      }
    }
  }

  /** The rest of the match once the whitespace run ends at `j > 4` and the
      next `>` is at `g`. */
  function Capture(t: string, j: nat, g: nat): (m: Option<Tag>)
    requires 5 <= j <= g <= |t| && (g < |t| ==> t[g] == '>')
    requires forall i :: j <= i < g ==> t[i] != '>'
    requires IsSpace(t[j - 1]) && (j == |t| || !IsSpace(t[j]))
    ensures m.Some? ==> 6 <= m.value.len <= |t| && t[m.value.len - 1] == '>'
    ensures m.Some? ==> m.value.attrs != [] && '>' !in m.value.attrs
    ensures m.Some? ==> |m.value.attrs| == 1 || !IsSpace(m.value.attrs[0])
  {
    if g == |t| then None
    else if g > j then Some(Tag(t[j..g], g + 1))
    else if j >= 6 then Some(Tag(t[j - 1..j], j + 1))
    else None
  }

  /** The replacement function: a tag whose attributes mention `loading=`
      in any case is kept, any other one is rebuilt. */
  predicate HasLoading(attrs: string) {
    Contains(Lower(attrs), "loading=")
  }

  function Rewrite(attrs: string): string {
    "<img " + attrs + LazyAttr + ">"
  }

  datatype Patched = Patched(text: string, count: nat)

  /** `img_pattern.sub(replacement, t)`, with the number of tags rebuilt. */
  function Patch(t: string): (p: Patched)
    decreases |t|
  {
    if t == [] then Patched([], 0)
    else
      match MatchAt(t)
      case None =>
        var rest := Patch(t[1..]);
        Patched([t[0]] + rest.text, rest.count)
      case Some(tag) =>
        var rest := Patch(t[tag.len..]);
        if HasLoading(tag.attrs) then Patched(t[..tag.len] + rest.text, rest.count)
        else Patched(Rewrite(tag.attrs) + rest.text, rest.count + 1)
  }

  // ---------------------------------------------------------------------------
  // Scanning facts
  // ---------------------------------------------------------------------------

  /** `t` and `u` agree on their first `q` characters. */
  predicate Agree(t: string, u: string, q: nat) {
    q <= |t| && q <= |u| && forall i :: 0 <= i < q ==> t[i] == u[i]
  }

  lemma {:induction false} SpaceRunAgree(t: string, u: string, k: nat, q: nat)
    requires Agree(t, u, q) && k <= q && k + SpaceRun(t, k) < q
    ensures SpaceRun(u, k) == SpaceRun(t, k)
    decreases q - k
  {
    if IsSpace(t[k]) {
      SpaceRunAgree(t, u, k + 1, q);
    }
  }

  lemma {:induction false} GtFromAgree(t: string, u: string, k: nat, q: nat)
    requires Agree(t, u, q) && k <= q
    ensures GtFrom(t, k) < q ==> GtFrom(u, k) == GtFrom(t, k)
    ensures GtFrom(t, k) >= q ==> GtFrom(u, k) >= q
    decreases q - k
  {
    if k < q {
      if t[k] != '>' {
        GtFromAgree(t, u, k + 1, q);
      }
    }
  }

  /** A match only looks as far as its closing `>`, so what follows does
      not matter. */
  lemma MatchLocal(t: string, x: string)
    requires MatchAt(t).Some?
    ensures MatchAt(t[..MatchAt(t).value.len] + x) == MatchAt(t)
  {
    var len := MatchAt(t).value.len;
    var u := t[..len] + x;
    assert Agree(t, u, len);
    SpaceRunAgree(t, u, 4, len);
    GtFromAgree(t, u, 4 + SpaceRun(t, 4), len);
    MatchSame(t, u);
  }

  /** Two texts with the same opening, the same whitespace run and the same
      characters up to the next `>` match alike. */
  lemma MatchSame(t: string, u: string)
    requires OpensImg(t) && OpensImg(u) && SpaceRun(t, 4) == SpaceRun(u, 4)
    requires var j := 4 + SpaceRun(t, 4);
      GtFrom(t, j) < |t| && GtFrom(u, j) == GtFrom(t, j) && GtFrom(u, j) < |u| &&
      Agree(t, u, GtFrom(t, j))
    ensures MatchAt(t) == MatchAt(u)
  {
    var w := SpaceRun(t, 4);
    if w > 0 {
      CaptureSame(t, u, 4 + w, GtFrom(t, 4 + w));
    }
  }

  lemma CaptureSame(t: string, u: string, j: nat, g: nat)
    requires 5 <= j <= g < |t| && g < |u| && t[g] == '>' && u[g] == '>'
    requires forall i :: j <= i < g ==> t[i] != '>'
    requires forall i :: j <= i < g ==> u[i] != '>'
    requires IsSpace(t[j - 1]) && !IsSpace(t[j])
    requires IsSpace(u[j - 1]) && !IsSpace(u[j])
    requires Agree(t, u, g)
    ensures Capture(t, j, g) == Capture(u, j, g)
  {
    assert t[j..g] == u[j..g];
    assert t[j - 1..j] == u[j - 1..j];
  }

  /** Where the scan of `t` first finds a tag, or `|t|`. */
  function FirstTag(t: string): (p: nat)
    ensures p <= |t|
    decreases |t|
  {
    if t == [] || MatchAt(t).Some? then 0 else 1 + FirstTag(t[1..])
  }

  /** `u` copies `t` up to `p`, where both hold a `<` that a `>` closes
      later; when `p` is the end, `u` is `t`. */
  predicate Shape(t: string, u: string, p: nat) {
    Agree(t, u, p) &&
    (p == |t| ==> u == t) &&
    (p < |t| ==> p < |u| && t[p] == '<' && u[p] == '<' && GtFrom(t, p) < |t| && GtFrom(u, p) < |u|)
  }

  /** The patched text copies the input up to the first tag, which opens
      with `<` and is closed by a `>` in both; without a tag nothing
      changes. */
  lemma {:induction false} PatchShape(t: string)
    ensures Shape(t, Patch(t).text, FirstTag(t))
    decreases |t|
  {
    if t != [] {
      if MatchAt(t).Some? {
        PatchShapeTag(t);
      } else {
        PatchShape(t[1..]);
        PatchShapeStep(t);
      }
    }
  }

  lemma PatchShapeTag(t: string)
    requires MatchAt(t).Some?
    ensures FirstTag(t) == 0 && Shape(t, Patch(t).text, 0)
  {
    var tag := MatchAt(t).value;
    var rest := Patch(t[tag.len..]);
    GtFromFirst(t, 0, tag.len - 1);
    if HasLoading(tag.attrs) {
      var u := t[..tag.len] + rest.text;
      assert u[tag.len - 1] == '>';
      GtFromFirst(u, 0, tag.len - 1);
    } else {
      RewriteMatch(tag.attrs, rest.text);
    }
  }

  lemma PatchShapeStep(t: string)
    requires t != [] && MatchAt(t).None?
    requires Shape(t[1..], Patch(t[1..]).text, FirstTag(t[1..]))
    ensures Shape(t, Patch(t).text, FirstTag(t))
  {
    assert Patch(t).text == [t[0]] + Patch(t[1..]).text;
    assert FirstTag(t) == FirstTag(t[1..]) + 1;
    ShapeCons(t[0], t[1..], Patch(t[1..]).text, FirstTag(t[1..]));
    assert t == [t[0]] + t[1..];
  }

  /** Copying one more character in front keeps the shape. */
  lemma ShapeCons(c: char, z: string, y: string, p: nat)
    requires Shape(z, y, p)
    ensures Shape([c] + z, [c] + y, p + 1)
  {
    var t, u := [c] + z, [c] + y;
    forall i | 0 <= i < p + 1 ensures t[i] == u[i] {
      if i > 0 {
        assert t[i] == z[i - 1] && u[i] == y[i - 1];
      }
    }
    if p == |z| {
      assert y == z;
    } else {
      GtFromShift(c, z, p);
      GtFromShift(c, y, p);
    }
  }

  lemma {:induction false} GtFromShift(c: char, t: string, k: nat)
    requires k <= |t|
    ensures GtFrom([c] + t, k + 1) == GtFrom(t, k) + 1
    decreases |t| - k
  {
    assert ([c] + t)[k + 1..] == t[k..];
    if k < |t| && t[k] != '>' {
      GtFromShift(c, t, k + 1);
    }
  }

  /** A rebuilt tag, whatever follows it, is matched whole again and now
      mentions `loading=`. */
  lemma RewriteMatch(attrs: string, x: string)
    requires attrs != [] && '>' !in attrs
    requires |attrs| == 1 || !IsSpace(attrs[0])
    ensures var t := Rewrite(attrs) + x;
      MatchAt(t).Some? && MatchAt(t).value.len == |Rewrite(attrs)| && HasLoading(MatchAt(t).value.attrs)
  {
    var t := Rewrite(attrs) + x;
    var j, g := RewriteScan(attrs, x);
    RewriteLoading(attrs, x, j, g);
  }

  /** Where the whitespace run of a rebuilt tag ends and where its `>` is. */
  lemma RewriteScan(attrs: string, x: string) returns (j: nat, g: nat)
    requires attrs != [] && '>' !in attrs
    requires |attrs| == 1 || !IsSpace(attrs[0])
    ensures var t := Rewrite(attrs) + x;
      OpensImg(t) && j == (if IsSpace(attrs[0]) then 7 else 5) && g == |Rewrite(attrs)| - 1 &&
      SpaceRun(t, 4) == j - 4 && GtFrom(t, j) == g
  {
    j := RewriteSpaces(attrs, x);
    g := RewriteClose(attrs, x, j);
  }

  /** The whitespace run of a rebuilt tag: the space written after `<img`,
      and the captured text too when that is a single whitespace character. */
  lemma RewriteSpaces(attrs: string, x: string) returns (j: nat)
    requires attrs != []
    requires |attrs| == 1 || !IsSpace(attrs[0])
    ensures var t := Rewrite(attrs) + x;
      OpensImg(t) && j == (if IsSpace(attrs[0]) then 7 else 5) && SpaceRun(t, 4) == j - 4
  {
    var t := Rewrite(attrs) + x;
    assert t[..5] == "<img ";
    j := if IsSpace(attrs[0]) then 7 else 5;
    assert j == 7 ==> t[5..8] == attrs + " l";
    forall i | 4 <= i < j ensures IsSpace(t[i]) {
    }
    SpaceRunExact(t, 4, j);
  }

  /** The first `>` of a rebuilt tag is its last character. */
  lemma RewriteClose(attrs: string, x: string, j: nat) returns (g: nat)
    requires '>' !in attrs && 5 <= j <= 6 + |attrs|
    ensures var t := Rewrite(attrs) + x; g == |Rewrite(attrs)| - 1 && GtFrom(t, j) == g
  {
    var t := Rewrite(attrs) + x;
    var n := |attrs|;
    g := 5 + n + |LazyAttr|;
    assert t[g] == '>';
    forall i | j <= i < g ensures t[i] != '>' {
      if i < 5 + n {
        assert t[i] == attrs[i - 5];
      } else {
        assert t[i] == LazyAttr[i - 5 - n];
      }
    }
    GtFromExact(t, j, g);
  }

  lemma {:induction false} RewriteLoading(attrs: string, x: string, j: nat, g: nat)
    requires attrs != [] && j == (if IsSpace(attrs[0]) then 7 else 5)
    requires |attrs| == 1 || !IsSpace(attrs[0])
    requires g == |Rewrite(attrs)| - 1
    ensures var t := Rewrite(attrs) + x; j <= g && HasLoading(t[j..g])
  {
    var t := Rewrite(attrs) + x;
    var n := |attrs|;
    var at := if j == 5 then n + 1 else 0;
    assert Contains(t[j..g], "loading=") by {
      forall k | 0 <= k < 8 ensures t[j..g][at + k] == "loading="[k] {
        LoadingAt(attrs, x, k);
      }
      assert t[j..g][at..at + 8] == "loading=";
      ContainsAt(t[j..g], "loading=", at);
    }
    LowerLoading();
    LowerContains(t[j..g], "loading=");
  }

  /** The characters of `loading=` in a rebuilt tag. */
  lemma LoadingAt(attrs: string, x: string, k: nat)
    requires k < 8
    ensures (Rewrite(attrs) + x)[6 + |attrs| + k] == "loading="[k]
  {
    assert (Rewrite(attrs) + x)[6 + |attrs| + k] == LazyAttr[1 + k];
  }

  lemma LowerLoading()
    ensures Lower("loading=") == "loading="
  {
    var loading := "loading=";
    forall i | 0 <= i < |loading| ensures LowerChar(loading[i]) == loading[i] {
    }
  }

  lemma {:induction false} SpaceRunExact(t: string, k: nat, e: nat)
    requires k <= e < |t|
    requires forall i :: k <= i < e ==> IsSpace(t[i])
    requires !IsSpace(t[e])
    ensures SpaceRun(t, k) == e - k
    decreases e - k
  {
    if k < e {
      SpaceRunExact(t, k + 1, e);
    }
  }

  lemma {:induction false} GtFromExact(t: string, k: nat, g: nat)
    requires k <= g < |t| && t[g] == '>'
    requires forall i :: k <= i < g ==> t[i] != '>'
    ensures GtFrom(t, k) == g
    decreases g - k
  {
    if k < g {
      GtFromExact(t, k + 1, g);
    }
  }

  /** A position where the pattern fails still fails once the text after it
      has been patched. */
  lemma {:induction false} NoMatchKept(c: char, z: string)
    requires MatchAt([c] + z).None?
    ensures MatchAt([c] + Patch(z).text).None?
  {
    PatchShape(z);
    if FirstTag(z) == |z| {
      assert Patch(z).text == z;
    } else {
      NoMatchShape(c, z, Patch(z).text, FirstTag(z));
    }
  }

  /** The same, for any `y` that copies `z` up to a complete tag at `p`. */
  lemma NoMatchShape(c: char, z: string, y: string, p: nat)
    requires Shape(z, y, p) && p < |z|
    requires MatchAt([c] + z).None?
    ensures MatchAt([c] + y).None?
  {
    assert Agree([c] + z, [c] + y, p + 2) by {
      forall i | 0 <= i < p + 2 ensures ([c] + z)[i] == ([c] + y)[i] {
        if i > 0 {
          assert ([c] + z)[i] == z[i - 1] && ([c] + y)[i] == y[i - 1];
        }
      }
    }
    GtFromShift(c, z, p);
    GtFromShift(c, y, p);
    MatchAgreeNone([c] + z, [c] + y, p + 1);
  }

  /** Two texts that agree up to a `<` at `q > 0`, each with a `>` after it,
      both fail to match when one does: the match would have to end at a
      `>` before `q` or run past `q`, and neither depends on what differs. */
  lemma {:induction false} MatchAgreeNone(t: string, u: string, q: nat)
    requires 1 <= q && Agree(t, u, q + 1) && t[q] == '<'
    requires GtFrom(t, q) < |t| && GtFrom(u, q) < |u|
    requires MatchAt(t).None?
    ensures MatchAt(u).None?
  {
    assert u[q] == t[q];
    if q < 4 {
      NotImgAt(u, q);
    } else if OpensImg(u) {
      assert !IsSpace(t[q]);
      SpaceRunAgree(t, u, 4, q + 1);
      var j := 4 + SpaceRun(t, 4);
      GtFromAgree(t, u, j, q + 1);
      GtFromFirst(t, j, q);
      GtFromFirst(u, j, q);
      MatchSameNone(t, u);
    }
  }

  /** Whether the pattern fails depends only on the opening, the length of
      the whitespace run, and where the next `>` is relative to the run. */
  lemma MatchSameNone(t: string, u: string)
    requires OpensImg(t) && OpensImg(u) && SpaceRun(t, 4) == SpaceRun(u, 4)
    requires var j := 4 + SpaceRun(t, 4);
      GtFrom(t, j) < |t| && GtFrom(u, j) < |u| && (GtFrom(t, j) == j <==> GtFrom(u, j) == j)
    ensures MatchAt(t).None? <==> MatchAt(u).None?
  {
  }

  /** A `<` among the three characters after the first rules out `<img`. */
  lemma NotImgAt(u: string, q: nat)
    requires 1 <= q < 4 && q < |u| && u[q] == '<'
    ensures !OpensImg(u)
  {
    assert LowerChar('<') == '<';
  }

  /** The first `>` from `j` comes no later than the first from `q`. */
  lemma GtFromFirst(t: string, j: nat, q: nat)
    requires j <= q <= |t| && GtFrom(t, q) < |t|
    ensures GtFrom(t, j) < |t|
  {
    var g := GtFrom(t, q);
    assert t[g] == '>';
  }

  /** Patching the output again rebuilds nothing and changes nothing. */
  lemma {:induction false} PatchIdempotent(t: string)
    ensures Patch(Patch(t).text) == Patched(Patch(t).text, 0)
    decreases |t|
  {
    if t != [] {
      match MatchAt(t)
      case None =>
        PatchIdempotent(t[1..]);
        assert [t[0]] + t[1..] == t;
        FixedAfterPlain(t[0], t[1..]);
      case Some(tag) =>
        PatchIdempotent(t[tag.len..]);
        if HasLoading(tag.attrs) {
          FixedAfterKept(t, Patch(t[tag.len..]).text);
        } else {
          FixedAfterRebuilt(tag.attrs, Patch(t[tag.len..]).text);
        }
    }
  }

  /** A character that starts no tag, before a patched rest. */
  lemma FixedAfterPlain(c: char, z: string)
    requires MatchAt([c] + z).None?
    requires Patch(Patch(z).text) == Patched(Patch(z).text, 0)
    ensures Patch([c] + Patch(z).text) == Patched([c] + Patch(z).text, 0)
  {
    NoMatchKept(c, z);
    assert ([c] + Patch(z).text)[1..] == Patch(z).text;
  }

  /** A tag kept as it was, before a patched rest. */
  lemma FixedAfterKept(t: string, r: string)
    requires MatchAt(t).Some? && HasLoading(MatchAt(t).value.attrs)
    requires Patch(r) == Patched(r, 0)
    ensures Patch(t[..MatchAt(t).value.len] + r) == Patched(t[..MatchAt(t).value.len] + r, 0)
  {
    var len := MatchAt(t).value.len;
    var u := t[..len] + r;
    MatchLocal(t, r);
    assert u[len..] == r;
    assert u[..len] == t[..len];
  }

  /** A rebuilt tag, before a patched rest. */
  lemma FixedAfterRebuilt(attrs: string, r: string)
    requires attrs != [] && '>' !in attrs
    requires |attrs| == 1 || !IsSpace(attrs[0])
    requires Patch(r) == Patched(r, 0)
    ensures Patch(Rewrite(attrs) + r) == Patched(Rewrite(attrs) + r, 0)
  {
    var u := Rewrite(attrs) + r;
    RewriteMatch(attrs, r);
    var m := MatchAt(u).value;
    assert u[m.len..] == r;
    assert u[..m.len] == Rewrite(attrs);
  }

  /** The page text changes exactly when some tag was rebuilt. */
  lemma {:induction false} PatchChangesIff(t: string)
    ensures Patch(t).text != t <==> Patch(t).count > 0
    decreases |t|
  {
    if t != [] {
      match MatchAt(t)
      case None =>
        PatchChangesIff(t[1..]);
        assert t == [t[0]] + t[1..];
      case Some(tag) =>
        var rest := Patch(t[tag.len..]);
        PatchChangesIff(t[tag.len..]);
        assert t == t[..tag.len] + t[tag.len..];
        if !HasLoading(tag.attrs) {
          RewriteMatch(tag.attrs, rest.text);
        }
    }
  }

  /** The number of tags the pattern finds in a page, scanning as the
      substitution does. No more tags are rebuilt than there are. */
  function Tags(t: string): (n: nat)
    ensures Patch(t).count <= n
    decreases |t|
  {
    if t == [] then 0
    else
      match MatchAt(t)
      case None => Tags(t[1..])
      case Some(tag) => 1 + Tags(t[tag.len..])
  }

  /** Patching keeps every tag a tag and makes none: the patched page holds
      as many as the original. */
  lemma {:induction false} PatchKeepsTags(t: string)
    ensures Tags(Patch(t).text) == Tags(t)
    decreases |t|
  {
    if t != [] {
      match MatchAt(t)
      case None =>
        PatchKeepsTags(t[1..]);
        TagsPlainStep(t);
      case Some(tag) =>
        PatchKeepsTags(t[tag.len..]);
        TagsTagStep(t);
    }
  }

  lemma TagsPlainStep(t: string)
    requires t != [] && MatchAt(t).None?
    requires Tags(Patch(t[1..]).text) == Tags(t[1..])
    ensures Tags(Patch(t).text) == Tags(t)
  {
    assert [t[0]] + t[1..] == t;
    TagsAfterPlain(t[0], t[1..]);
  }

  lemma TagsTagStep(t: string)
    requires t != [] && MatchAt(t).Some?
    requires Tags(Patch(t[MatchAt(t).value.len..]).text) == Tags(t[MatchAt(t).value.len..])
    ensures Tags(Patch(t).text) == Tags(t)
  {
    var tag := MatchAt(t).value;
    var rest := Patch(t[tag.len..]).text;
    if HasLoading(tag.attrs) {
      TagsAfterKept(t, rest);
    } else {
      TagsAfterRebuilt(tag.attrs, rest);
    }
  }

  /** A character that starts no tag, before a patched rest. */
  lemma TagsAfterPlain(c: char, z: string)
    requires MatchAt([c] + z).None?
    ensures Tags([c] + Patch(z).text) == Tags(Patch(z).text)
  {
    NoMatchKept(c, z);
    assert ([c] + Patch(z).text)[1..] == Patch(z).text;
  }

  /** A tag kept as it was, before any rest. */
  lemma TagsAfterKept(t: string, r: string)
    requires MatchAt(t).Some?
    ensures Tags(t[..MatchAt(t).value.len] + r) == 1 + Tags(r)
  {
    var len := MatchAt(t).value.len;
    var u := t[..len] + r;
    MatchLocal(t, r);
    assert u[len..] == r;
  }

  /** A rebuilt tag, before any rest. */
  lemma TagsAfterRebuilt(attrs: string, r: string)
    requires attrs != [] && '>' !in attrs
    requires |attrs| == 1 || !IsSpace(attrs[0])
    ensures Tags(Rewrite(attrs) + r) == 1 + Tags(r)
  {
    var u := Rewrite(attrs) + r;
    RewriteMatch(attrs, r);
    assert u[|Rewrite(attrs)|..] == r;
  }

  // ---------------------------------------------------------------------------
  // The walk
  // ---------------------------------------------------------------------------

  /** Pages outside skipped directories whose name ends in `.html`. */
  predicate Eligible(e: Entry) {
    !SkippedDir(e.dir) && EndsWith(e.name, ".html")
  }

  datatype LazySummary = LazySummary(written: map<Path, string>, filesModified: nat, imagesPatched: nat)

  function Visit(e: Entry, before: LazySummary): LazySummary {
    if !Eligible(e) then before
    else
      var p := Patch(e.content);
      LazySummary(if p.text != e.content then before.written[FilePath(e) := p.text] else before.written,
                  before.filesModified + (if p.text != e.content then 1 else 0),
                  before.imagesPatched + p.count)
  }

  /** The walk over the first `n` visited files: a page is written and
      counted exactly when at least one of its tags was rebuilt, so there
      are never more modified pages than patched images. */
  function PatchAll(entries: seq<Entry>, n: nat): (r: LazySummary)
    requires n <= |entries|
    ensures r.filesModified <= r.imagesPatched
    ensures forall p :: p in r.written ==>
      exists i :: 0 <= i < n && Eligible(entries[i]) && Patch(entries[i].content).count > 0 &&
        FilePath(entries[i]) == p
  {
    if n == 0 then LazySummary(map[], 0, 0)
    else
      PatchChangesIff(entries[n - 1].content);
      Visit(entries[n - 1], PatchAll(entries, n - 1))
  }

  function FilePaths(entries: seq<Entry>): seq<Path> {
    seq(|entries|, i requires 0 <= i < |entries| => FilePath(entries[i]))
  }

  /** The pages the walk rewrites: eligible ones with a rebuilt tag. */
  function Rewrites(entries: seq<Entry>): seq<bool> {
    seq(|entries|, i requires 0 <= i < |entries| => Eligible(entries[i]) && Patch(entries[i].content).count > 0)
  }

  function Outputs(entries: seq<Entry>): seq<string> {
    seq(|entries|, i requires 0 <= i < |entries| => Patch(entries[i].content).text)
  }

  /** Every write of the walk is counted; a path is written only with the
      patched text of an eligible page that had a tag rebuilt, and every
      such page is written. */
  lemma PatchAllWrites(entries: seq<Entry>, n: nat)
    requires n <= |entries|
    ensures Accounted(FilePaths(entries), Rewrites(entries), Outputs(entries), n,
                      PatchAll(entries, n).written, PatchAll(entries, n).filesModified)
  {
    PatchAllIsWalk(entries, n);
    WalkAccounted(FilePaths(entries), Rewrites(entries), Outputs(entries), n);
    assert PatchAll(entries, n).written == Walk(FilePaths(entries), Rewrites(entries), Outputs(entries), n).0;
  }

  /** What the walk writes and how many pages it counts are the generic walk
      that rewrites exactly the eligible pages with a rebuilt tag. */
  lemma {:induction false} PatchAllIsWalk(entries: seq<Entry>, n: nat)
    requires n <= |entries|
    ensures SameWalk(PatchAll(entries, n), Walk(FilePaths(entries), Rewrites(entries), Outputs(entries), n))
    decreases n
  {
    if n > 0 {
      PatchAllIsWalk(entries, n - 1);
      WalkStep(entries, n, PatchAll(entries, n - 1));
    }
  }

  /** The walk's summary and the generic walk agree on writes and count. */
  predicate SameWalk(r: LazySummary, w: (map<Path, string>, nat)) {
    r.written == w.0 && r.filesModified == w.1
  }

  lemma WalkStep(entries: seq<Entry>, n: nat, before: LazySummary)
    requires 0 < n <= |entries|
    requires SameWalk(before, Walk(FilePaths(entries), Rewrites(entries), Outputs(entries), n - 1))
    ensures SameWalk(Visit(entries[n - 1], before), Walk(FilePaths(entries), Rewrites(entries), Outputs(entries), n))
  {
    VisitRewrites(entries, n - 1, before);
  }

  /** A visited page is written, with its patched text, exactly when the
      walk rewrites it. */
  lemma VisitRewrites(entries: seq<Entry>, k: nat, before: LazySummary)
    requires k < |entries|
    ensures Rewrites(entries)[k] ==>
      Visit(entries[k], before).written == before.written[FilePaths(entries)[k] := Outputs(entries)[k]] &&
      Visit(entries[k], before).filesModified == before.filesModified + 1
    ensures !Rewrites(entries)[k] ==>
      Visit(entries[k], before).written == before.written &&
      Visit(entries[k], before).filesModified == before.filesModified
  {
    PatchChangesIff(entries[k].content);
  }

  method VisitFile(e: Entry, written: map<Path, string>, filesModified: nat, imagesPatched: nat)
    returns (written': map<Path, string>, filesModified': nat, imagesPatched': nat)
    ensures LazySummary(written', filesModified', imagesPatched') ==
      Visit(e, LazySummary(written, filesModified, imagesPatched))
  {
    written', filesModified', imagesPatched' := written, filesModified, imagesPatched;
    if Eligible(e) {
      var p := Patch(e.content);
      imagesPatched' := imagesPatched' + p.count;
      if p.text != e.content {
        written' := written'[FilePath(e) := p.text];
        filesModified' := filesModified' + 1;
      }
    }
  }

  /** `apply_lazy_loading` */
  method ApplyLazyLoading(entries: seq<Entry>)
    returns (written: map<Path, string>, filesModified: nat, imagesPatched: nat)
    ensures LazySummary(written, filesModified, imagesPatched) == PatchAll(entries, |entries|)
  {
    written, filesModified, imagesPatched := map[], 0, 0;
    for n := 0 to |entries|
      invariant LazySummary(written, filesModified, imagesPatched) == PatchAll(entries, n)
    {
      written, filesModified, imagesPatched := VisitFile(entries[n], written, filesModified, imagesPatched);
    }
  }
}
