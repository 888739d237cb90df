// The stylesheet and script minifiers: block comments are removed by the
// lazy pattern `/\*[\s\S]*?\*/`, CSS whitespace is squeezed by a chain of
// substitutions, and JavaScript is reduced line by line.
module AssetMinifier {
  import opened Strings

  // ---------------------------------------------------------------------------
  // Block comments
  // ---------------------------------------------------------------------------

  // A `*/` starts at `i`.
  predicate ClosesAt(s: string, i: nat) {
    i + 2 <= |s| && s[i] == '*' && s[i + 1] == '/'
  }

  // The first `*/` that starts at or after `k`, or `|s|` when there is none.
  function CloseFrom(s: string, k: nat): (c: nat)
    requires k <= |s|
    ensures k <= c <= |s| && (c < |s| ==> ClosesAt(s, c))
    decreases |s| - k
  {
    if k + 2 > |s| then |s|
    else if ClosesAt(s, k) then k
    else CloseFrom(s, k + 1)
  }

  // The match is the shortest one: no `*/` comes earlier.
  lemma {:induction false} CloseFromFirst(s: string, k: nat)
    requires k <= |s|
    ensures forall i :: k <= i < CloseFrom(s, k) ==> !ClosesAt(s, i)
    decreases |s| - k
  {
    if k + 2 <= |s| && !ClosesAt(s, k) {
      CloseFromFirst(s, k + 1);
    }
  }

  // `re.sub(r'/\*[\s\S]*?\*/', '', s)`: at each position a `/*` is taken
  // together with the text up to the first `*/` after it; a `/*` that is
  // never closed does not match and stays.
  function StripComments(s: string): (r: string)
    ensures |r| <= |s|
    decreases |s|
  {
    if s == [] then []
    else if |s| >= 2 && s[0] == '/' && s[1] == '*' && CloseFrom(s, 2) < |s| then
      StripComments(s[CloseFrom(s, 2) + 2..])
    else [s[0]] + StripComments(s[1..])
  }

  // Text without a closing `*/` is kept as it is, unterminated `/*`
  // included.
  lemma {:induction false} UnclosedKept(s: string)
    requires !Contains(s, "*/")
    ensures StripComments(s) == s
    decreases |s|
  {
    if s != [] {
      if |s| >= 2 && s[0] == '/' && s[1] == '*' {
        var c := CloseFrom(s, 2);
        if c + 2 <= |s| {
          NotContainsAt(s, "*/", c);
        }
      }
      assert StripComments(s) == [s[0]] + StripComments(s[1..]);
      UnclosedKept(s[1..]);
      assert s == [s[0]] + s[1..];
    }
  }

  // The leftmost comment is removed up to its first `*/` and nothing before
  // it changes.
  lemma CommentRemoved(a: string, body: string, b: string)
    requires !Contains(a, "/*") && !Contains(body, "*/")
    ensures StripComments(a + "/*" + body + "*/" + b) == a + StripComments(b)
  {
    var x := "/*" + body + "*/" + b;
    assert a + "/*" + body + "*/" + b == a + x;
    PrefixCopied(a, x);
    CommentAtStart(body, b);
  }

  // Text that opens no comment is copied, as long as what follows it does
  // not begin with `*`.
  lemma {:induction false} PrefixCopied(a: string, x: string)
    requires !Contains(a, "/*") && (x != [] ==> x[0] != '*')
    ensures StripComments(a + x) == a + StripComments(x)
    decreases |a|
  {
    if a != [] {
      assert !Contains(a[1..], "/*");
      PrefixCopied(a[1..], x);
      PrefixStep(a, x);
    } else {
      assert a + x == x;
    }
  }

  /** One character of the copied prefix. */
  lemma PrefixStep(a: string, x: string)
    requires a != [] && !Contains(a, "/*") && (x != [] ==> x[0] != '*')
    requires StripComments(a[1..] + x) == a[1..] + StripComments(x)
    ensures StripComments(a + x) == a + StripComments(x)
  {
    var rest := a[1..] + x;
    NoOpenerAtHead(a, x);
    StripCommentsStep(a[0], rest);
    ConsJoin(a, x, StripComments(x));
  }

  lemma ConsJoin(a: string, x: string, y: string)
    requires a != []
    ensures a + x == [a[0]] + (a[1..] + x) && a + y == [a[0]] + (a[1..] + y)
  {
    assert a == [a[0]] + a[1..];
  }

  /** The first character of `a + x` does not open a comment. */
  lemma NoOpenerAtHead(a: string, x: string)
    requires a != [] && !Contains(a, "/*") && (x != [] ==> x[0] != '*')
    ensures var rest := a[1..] + x; !(a[0] == '/' && rest != [] && rest[0] == '*')
  {
    if |a| >= 2 {
      NotContainsAt(a, "/*", 0);
      assert a[0..2] == [a[0], a[1]];
      assert (a[1..] + x)[0] == a[1];
    }
  }

  // A comment at the very start goes, up to its first `*/`.
  lemma CommentAtStart(body: string, b: string)
    requires !Contains(body, "*/")
    ensures StripComments("/*" + body + "*/" + b) == StripComments(b)
  {
    var s := "/*" + body + "*/" + b;
    CloseAfterBody(body, b);
    assert s[2 + |body| + 2..] == b;
  }

  /** A character that does not open a comment is copied. */
  lemma StripCommentsStep(c: char, rest: string)
    requires rest != [] ==> !(c == '/' && rest[0] == '*')
    ensures StripComments([c] + rest) == [c] + StripComments(rest)
  {
    assert ([c] + rest)[1..] == rest;
  }

  // In `/*` + body + `*/`, the first `*/` after the opener ends the body.
  lemma CloseAfterBody(body: string, b: string)
    requires !Contains(body, "*/")
    ensures CloseFrom("/*" + body + "*/" + b, 2) == 2 + |body|
  {
    var s := "/*" + body + "*/" + b;
    forall i | 2 <= i < 2 + |body| ensures !ClosesAt(s, i) {
      if i + 1 < 2 + |body| {
        NotContainsAt(body, "*/", i - 2);
        assert s[i] == body[i - 2] && s[i + 1] == body[i - 1];
        assert body[i - 2..i] == [body[i - 2], body[i - 1]];
      }
    }
    CloseFromExact(s, 2, 2 + |body|);
  }

  lemma {:induction false} CloseFromExact(s: string, k: nat, c: nat)
    requires k <= c && ClosesAt(s, c)
    requires forall i :: k <= i < c ==> !ClosesAt(s, i)
    ensures CloseFrom(s, k) == c
    decreases c - k
  {
    if k < c {
      CloseFromExact(s, k + 1, c);
    }
  }

  // ---------------------------------------------------------------------------
  // minify_css
  // ---------------------------------------------------------------------------

  /** The characters `\s*([\{\};:,])\s*` hugs. */
  predicate IsPunct(c: char) {
    c == '{' || c == '}' || c == ';' || c == ':' || c == ','
  }

  /** The characters at `i` and `i + 1` are not both whitespace. */
  predicate SpacedAt(s: string, i: int) {
    0 <= i < |s| - 1 ==> !(IsSpace(s[i]) && IsSpace(s[i + 1]))
  }

  /** No two whitespace characters in a row. */
  predicate SingleSpaced(s: string) {
    forall i :: 0 <= i < |s| - 1 ==> SpacedAt(s, i)
  }

  /** No whitespace sits between the characters at `i` and `i + 1` and a
      punctuation character. */
  predicate TightAt(s: string, i: int) {
    0 <= i < |s| - 1 ==>
      !(IsSpace(s[i]) && IsPunct(s[i + 1])) && !(IsPunct(s[i]) && IsSpace(s[i + 1]))
  }

  /** No whitespace right before or right after a punctuation character. */
  predicate Tight(s: string) {
    forall i :: 0 <= i < |s| - 1 ==> TightAt(s, i)
  }

  /** The characters of `s` that are not whitespace, in order. */
  function NonSpace(s: string): string
    decreases |s|
  {
    if s == [] then [] else (if IsSpace(s[0]) then [] else [s[0]]) + NonSpace(s[1..])
  }

  /** Leading whitespace carries no non-whitespace character. */
  lemma {:induction false} NonSpaceTrimStart(s: string)
    ensures NonSpace(TrimStart(s)) == NonSpace(s)
    decreases |s|
  {
    if s != [] && IsSpace(s[0]) {
      NonSpaceTrimStart(s[1..]);
    }
  }

  /** `re.sub(r'\s+', ' ', s)`: every maximal whitespace run becomes one
      space; the other characters stay, in order. */
  function CollapseSpace(s: string): (r: string)
    ensures |r| <= |s|
    decreases |s|
  {
    if s == [] then []
    else if IsSpace(s[0]) then [' '] + CollapseSpace(TrimStart(s))
    else [s[0]] + CollapseSpace(s[1..])
  }

  /** Every whitespace character is a plain space. */
  ghost predicate PlainSpaces(s: string) {
    forall i :: 0 <= i < |s| && IsSpace(s[i]) ==> s[i] == ' '
  }

  /** The output starts with whitespace only where the input does. */
  lemma CollapseSpaceHead(s: string)
    ensures var r := CollapseSpace(s); r != [] && IsSpace(r[0]) ==> IsSpace(s[0])
  {
    if s != [] && !IsSpace(s[0]) {
      assert CollapseSpace(s) == [s[0]] + CollapseSpace(s[1..]);
    }
  }

  /** Each run is now a single plain space. */
  lemma {:induction false} CollapseSpaceSingle(s: string)
    ensures SingleSpaced(CollapseSpace(s)) && PlainSpaces(CollapseSpace(s))
    decreases |s|
  {
    if s != [] {
      if IsSpace(s[0]) {
        var t := TrimStart(s);
        assert CollapseSpace(s) == [' '] + CollapseSpace(t);
        CollapseSpaceSingle(t);
        CollapseSpaceHead(t);
        SingleSpacedCons(' ', CollapseSpace(t));
      } else {
        assert CollapseSpace(s) == [s[0]] + CollapseSpace(s[1..]);
        CollapseSpaceSingle(s[1..]);
        SingleSpacedCons(s[0], CollapseSpace(s[1..]));
      }
    }
  }

  /** The pass touches whitespace only. */
  lemma {:induction false} CollapseSpaceNonSpace(s: string)
    ensures NonSpace(CollapseSpace(s)) == NonSpace(s)
    decreases |s|
  {
    if s != [] {
      if IsSpace(s[0]) {
        var t := TrimStart(s);
        assert CollapseSpace(s) == [' '] + CollapseSpace(t);
        CollapseSpaceNonSpace(t);
        NonSpaceTrimStart(s);
        assert ([' '] + CollapseSpace(t))[1..] == CollapseSpace(t);
      } else {
        assert CollapseSpace(s) == [s[0]] + CollapseSpace(s[1..]);
        CollapseSpaceNonSpace(s[1..]);
        assert ([s[0]] + CollapseSpace(s[1..]))[1..] == CollapseSpace(s[1..]);
      }
    }
  }

  /** After any leading whitespace, `s` continues with punctuation: where
      `\s*([\{\};:,])\s*` matches. */
  predicate PunctAhead(s: string) {
    var t := TrimStart(s);
    t != [] && IsPunct(t[0])
  }

  /** `re.sub(r'\s*([\{\};:,])\s*', r'\1', s)`: a punctuation character
      swallows the whitespace on both sides of it. A position where the
      pattern fails contributes its own character and the scan moves on by
      one. */
  function PunctTrim(s: string): (r: string)
    ensures |r| <= |s|
    decreases |s|
  {
    if s == [] then []
    else
      var t := TrimStart(s);
      if t != [] && IsPunct(t[0]) then [t[0]] + PunctTrim(TrimStart(t[1..]))
      else [s[0]] + PunctTrim(s[1..])
  }

  /** Whitespace in front of the first character does not change what
      follows it. */
  lemma TrimStartSpace(s: string)
    requires s != [] && IsSpace(s[0])
    ensures TrimStart(s) == TrimStart(s[1..])
  {
  }

  /** The output starts with punctuation exactly where the pattern matches,
      and with whitespace only where the input does. */
  lemma PunctTrimHead(s: string)
    ensures var r := PunctTrim(s);
      (r == [] <==> s == []) &&
      (r != [] ==> (IsPunct(r[0]) <==> PunctAhead(s)) && (IsSpace(r[0]) ==> IsSpace(s[0])))
  {
    if s != [] {
      var t := TrimStart(s);
      if t != [] && IsPunct(t[0]) {
        assert PunctTrim(s) == [t[0]] + PunctTrim(TrimStart(t[1..]));
      } else {
        assert PunctTrim(s) == [s[0]] + PunctTrim(s[1..]);
        if !IsSpace(s[0]) {
          assert t == s;
        }
      }
    }
  }

  /** No whitespace is left next to punctuation. */
  lemma {:induction false} PunctTrimTight(s: string)
    ensures Tight(PunctTrim(s))
    decreases |s|
  {
    if s != [] {
      var t := TrimStart(s);
      if t != [] && IsPunct(t[0]) {
        var x := TrimStart(t[1..]);
        assert PunctTrim(s) == [t[0]] + PunctTrim(x);
        PunctTrimTight(x);
        PunctTrimHead(x);
        TightCons(t[0], PunctTrim(x));
      } else {
        assert PunctTrim(s) == [s[0]] + PunctTrim(s[1..]);
        PunctTrimTight(s[1..]);
        PunctTrimHead(s[1..]);
        if IsSpace(s[0]) {
          TrimStartSpace(s);
        } else {
          assert t == s;
        }
        TightCons(s[0], PunctTrim(s[1..]));
      }
    }
  }

  lemma TightCons(a: char, r: string)
    requires Tight(r)
    requires r != [] ==> !(IsSpace(a) && IsPunct(r[0])) && !(IsPunct(a) && IsSpace(r[0]))
    ensures Tight([a] + r)
  {
    var s := [a] + r;
    forall i | 0 <= i < |s| - 1 ensures TightAt(s, i) {
      if i > 0 {
        assert TightAt(r, i - 1);
        assert s[i] == r[i - 1] && s[i + 1] == r[i];
      }
    }
  }

  lemma SingleSpacedCons(a: char, r: string)
    requires SingleSpaced(r)
    requires r != [] ==> !(IsSpace(a) && IsSpace(r[0]))
    ensures SingleSpaced([a] + r)
  {
    var s := [a] + r;
    forall i | 0 <= i < |s| - 1 ensures SpacedAt(s, i) {
      if i > 0 {
        assert SpacedAt(r, i - 1);
        assert s[i] == r[i - 1] && s[i + 1] == r[i];
      }
    }
  }

  /** The pass only removes whitespace, so it never joins two whitespace
      characters. */
  lemma {:induction false} PunctTrimSingle(s: string)
    requires SingleSpaced(s)
    ensures SingleSpaced(PunctTrim(s))
    decreases |s|
  {
    if s != [] {
      var t := TrimStart(s);
      if t != [] && IsPunct(t[0]) {
        var x := TrimStart(t[1..]);
        assert SingleSpaced(x) by {
          SingleSpacedSuffix(s, |s| - |t| + 1);
          assert s[|s| - |t| + 1..] == t[1..];
          SingleSpacedSuffix(t[1..], |t[1..]| - |x|);
        }
        PunctTrimSingle(x);
        PunctStepSingle(s);
      } else {
        SingleSpacedSuffix(s, 1);
        PunctTrimSingle(s[1..]);
        PlainStepSingle(s);
      }
    }
  }

  lemma PunctStepSingle(s: string)
    requires PunctAhead(s) && SingleSpaced(PunctTrim(TrimStart(TrimStart(s)[1..])))
    ensures SingleSpaced(PunctTrim(s))
  {
    var t := TrimStart(s);
    var x := TrimStart(t[1..]);
    assert PunctTrim(s) == [t[0]] + PunctTrim(x);
    SingleSpacedCons(t[0], PunctTrim(x));
  }

  lemma PlainStepSingle(s: string)
    requires s != [] && !PunctAhead(s) && SingleSpaced(s) && SingleSpaced(PunctTrim(s[1..]))
    ensures SingleSpaced(PunctTrim(s))
  {
    assert PunctTrim(s[1..]) != [] ==> !(IsSpace(s[0]) && IsSpace(PunctTrim(s[1..])[0])) by {
      PunctTrimHead(s[1..]);
      if |s| >= 2 {
        assert SpacedAt(s, 0);
      }
    }
    assert PunctTrim(s) == [s[0]] + PunctTrim(s[1..]);
    SingleSpacedCons(s[0], PunctTrim(s[1..]));
  }

  lemma SingleSpacedSuffix(s: string, k: nat)
    requires SingleSpaced(s) && k <= |s|
    ensures SingleSpaced(s[k..])
  {
    SingleSpacedSlice(s, k, |s|);
    assert s[k..|s|] == s[k..];
  }

  lemma SingleSpacedSlice(s: string, a: nat, b: nat)
    requires SingleSpaced(s) && a <= b <= |s|
    ensures SingleSpaced(s[a..b])
  {
    var t := s[a..b];
    forall i | 0 <= i < |t| - 1 ensures SpacedAt(t, i) {
      assert SpacedAt(s, a + i);
      assert t[i] == s[a + i] && t[i + 1] == s[a + i + 1];
    }
  }

  lemma TightSlice(s: string, a: nat, b: nat)
    requires Tight(s) && a <= b <= |s|
    ensures Tight(s[a..b])
  {
    var t := s[a..b];
    forall i | 0 <= i < |t| - 1 ensures TightAt(t, i) {
      assert TightAt(s, a + i);
      assert t[i] == s[a + i] && t[i + 1] == s[a + i + 1];
    }
  }

  /** The pass removes whitespace only. */
  lemma {:induction false} PunctTrimNonSpace(s: string)
    ensures NonSpace(PunctTrim(s)) == NonSpace(s)
    decreases |s|
  {
    if s != [] {
      var t := TrimStart(s);
      if t != [] && IsPunct(t[0]) {
        PunctTrimNonSpace(TrimStart(t[1..]));
        PunctStepNonSpace(s);
      } else {
        PunctTrimNonSpace(s[1..]);
        PlainStepNonSpace(s);
      }
    }
  }

  lemma PunctStepNonSpace(s: string)
    requires PunctAhead(s)
    requires var x := TrimStart(TrimStart(s)[1..]); NonSpace(PunctTrim(x)) == NonSpace(x)
    ensures NonSpace(PunctTrim(s)) == NonSpace(s)
  {
    var t := TrimStart(s);
    var x := TrimStart(t[1..]);
    assert PunctTrim(s) == [t[0]] + PunctTrim(x);
    NonSpaceTrimStart(t[1..]);
    KeptHead(t, PunctTrim(x));
    NonSpaceTrimStart(s);
  }

  /** Keeping the first, non-whitespace character of `t` in front of a text
      with the same non-whitespace characters as the rest of `t`. */
  lemma KeptHead(t: string, r: string)
    requires t != [] && !IsSpace(t[0]) && NonSpace(r) == NonSpace(t[1..])
    ensures NonSpace([t[0]] + r) == NonSpace(t)
  {
    NonSpaceCons(t[0], r);
    NonSpaceCons(t[0], t[1..]);
    assert t == [t[0]] + t[1..];
  }

  lemma PlainStepNonSpace(s: string)
    requires s != [] && !PunctAhead(s)
    requires NonSpace(PunctTrim(s[1..])) == NonSpace(s[1..])
    ensures NonSpace(PunctTrim(s)) == NonSpace(s)
  {
    assert PunctTrim(s) == [s[0]] + PunctTrim(s[1..]);
    NonSpaceCons(s[0], PunctTrim(s[1..]));
  }

  lemma NonSpaceCons(c: char, r: string)
    ensures NonSpace([c] + r) == (if IsSpace(c) then [] else [c]) + NonSpace(r)
  {
    assert ([c] + r)[1..] == r;
  }

  /** `s.replace(';}', '}')` keeps the kind of the first character: `;` and
      `}` are both punctuation. */
  lemma SemiHead(s: string)
    ensures var r := ReplaceAll(s, ";}", "}");
      (r == [] <==> s == []) &&
      (r != [] ==> (IsSpace(r[0]) <==> IsSpace(s[0])) && (IsPunct(r[0]) <==> IsPunct(s[0])))
  {
  }

  /** Dropping the `;` of `;}` puts `}` next to what preceded the `;`, which
      was no whitespace, so the text stays single-spaced and tight. */
  lemma {:induction false} SemiCompact(s: string)
    requires SingleSpaced(s) && Tight(s)
    ensures SingleSpaced(ReplaceAll(s, ";}", "}")) && Tight(ReplaceAll(s, ";}", "}"))
    decreases |s|
  {
    if s != [] {
      var k := if ";}" <= s then 2 else 1;
      var c := if ";}" <= s then '}' else s[0];
      var rest := ReplaceAll(s[k..], ";}", "}");
      assert ReplaceAll(s, ";}", "}") == [c] + rest;
      SingleSpacedSuffix(s, k);
      TightSlice(s, k, |s|);
      assert s[k..|s|] == s[k..];
      SemiCompact(s[k..]);
      SemiHead(s[k..]);
      if k < |s| {
        assert c == s[k - 1];
        assert SpacedAt(s, k - 1) && TightAt(s, k - 1);
      }
      SingleSpacedCons(c, rest);
      TightCons(c, rest);
    }
  }

  /** `s.replace(';}', '}')` is one left-to-right pass: `;;}` ends as `;}`. */
  lemma SemicolonOnePass()
    ensures ReplaceAll(";;}", ";}", "}") == ";}"
  {
    assert !(";}" <= ";;}");
    assert ";}" <= ";;}"[1..];
  }

  /** `minify_css` */
  function MinifyCss(content: string): string {
    Strip(Squeezed(content))
  }

  /** The minified stylesheet neither starts nor ends with whitespace, holds
      no two whitespace characters in a row and none next to `{`, `}`, `;`,
      `:` or `,`, and is never longer than the input. */
  lemma MinifyCssShape(content: string)
    ensures var r := MinifyCss(content);
      |r| <= |content| && SingleSpaced(r) && Tight(r) &&
      (r == [] || (!IsSpace(r[0]) && !IsSpace(r[|r| - 1])))
  {
    var c := Squeezed(content);
    StripCompact(c);
  }

  /** The text before the final `strip()`: single-spaced, tight, and no
      longer than the input. */
  function Squeezed(content: string): (c: string)
    ensures |c| <= |content| && SingleSpaced(c) && Tight(c)
  {
    var a := CollapseSpace(StripComments(content));
    var b := PunctTrim(a);
    CollapseSpaceSingle(StripComments(content));
    PunctTrimSingle(a);
    PunctTrimTight(a);
    SemiCompact(b);
    ReplaceAllLength(b, ";}", "}");
    ReplaceAll(b, ";}", "}")
  }

  /** `strip()` cuts a slice, which keeps both properties. */
  lemma StripCompact(c: string)
    requires SingleSpaced(c) && Tight(c)
    ensures SingleSpaced(Strip(c)) && Tight(Strip(c))
  {
    var a := |c| - |TrimStart(c)|;
    StripAt(c);
    SingleSpacedSlice(c, a, a + |Strip(c)|);
    TightSlice(c, a, a + |Strip(c)|);
  }

  lemma StripAt(c: string)
    ensures var a := |c| - |TrimStart(c)|; a + |Strip(c)| <= |c| && Strip(c) == c[a..a + |Strip(c)|]
  {
    StripSlice(c);
  }

  // ---------------------------------------------------------------------------
  // minify_js
  // ---------------------------------------------------------------------------

  /** `line.strip()` */
  function StripLine(line: string): (t: string)
    ensures |t| <= |line| && (t == [] || (!IsSpace(t[0]) && !IsSpace(t[|t| - 1])))
  {
    Strip(line)
  }

  /** Every line stripped, in order. */
  function StripAll(lines: seq<string>): (r: seq<string>)
    ensures |r| == |lines|
    decreases |lines|
  {
    if lines == [] then [] else StripAll(lines[..|lines| - 1]) + [StripLine(lines[|lines| - 1])]
  }

  /** A stripped line survives when it is non-empty and not a `//` comment. */
  predicate KeepLine(l: string) {
    l != [] && !StartsWith(l, "//")
  }

  /** The surviving lines, in order. */
  function Survivors(ls: seq<string>): (r: seq<string>)
    ensures |r| <= |ls|
    decreases |ls|
  {
    if ls == [] then []
    else
      var l := ls[|ls| - 1];
      Survivors(ls[..|ls| - 1]) + (if KeepLine(l) then [l] else [])
  }

  /** The lines `minify_js` keeps from `lines`. */
  function KeptLines(lines: seq<string>): seq<string> {
    Survivors(StripAll(lines))
  }

  /** `minify_js` */
  function MinifyJs(content: string): string {
    Join(KeptLines(Split(StripComments(content), '\n')), '\n')
  }

  /** The loop of `minify_js`: each line is stripped and kept unless it is
      empty or starts with `//`. */
  method MinifyJsText(content: string) returns (minified: string)
    ensures minified == MinifyJs(content)
  {
    var lines := Split(StripComments(content), '\n');
    var minifiedLines: seq<string> := [];
    for i := 0 to |lines|
      invariant minifiedLines == Survivors(StripAll(lines[..i]))
    {
      var line := StripLine(lines[i]);
      assert StripAll(lines[..i + 1]) == StripAll(lines[..i]) + [line] by {
        assert lines[..i + 1][..i] == lines[..i];
      }
      assert (StripAll(lines[..i]) + [line])[..i] == StripAll(lines[..i]);
      if line != [] && !StartsWith(line, "//") {
        minifiedLines := minifiedLines + [line];
      }
    }
    assert lines[..|lines|] == lines;
    minified := Join(minifiedLines, '\n');
  }

  lemma SurvivorsSnoc(ls: seq<string>, l: string)
    ensures Survivors(ls + [l]) == Survivors(ls) + (if KeepLine(l) then [l] else [])
  {
    assert (ls + [l])[..|ls|] == ls;
  }

  lemma StripAllSnoc(lines: seq<string>, x: string)
    ensures StripAll(lines + [x]) == StripAll(lines) + [StripLine(x)]
  {
    assert (lines + [x])[..|lines|] == lines;
  }

  /** Filtering a concatenation filters each part. */
  lemma {:induction false} SurvivorsConcat(x: seq<string>, y: seq<string>)
    ensures Survivors(x + y) == Survivors(x) + Survivors(y)
    decreases |y|
  {
    if y == [] {
      assert x + y == x;
    } else {
      var n := |y| - 1;
      var l := y[n];
      var sx, sy, k := Survivors(x), Survivors(y[..n]), if KeepLine(l) then [l] else [];
      assert Survivors(x + y[..n]) == sx + sy by {
        SurvivorsConcat(x, y[..n]);
      }
      assert Survivors(x + y) == Survivors(x + y[..n]) + k by {
        assert x + y == (x + y[..n]) + [l];
        SurvivorsSnoc(x + y[..n], l);
      }
      assert Survivors(y) == sy + k by {
        assert y == y[..n] + [l];
        SurvivorsSnoc(y[..n], l);
      }
      assert (sx + sy) + k == sx + (sy + k);
    }
  }

  /** Every survivor is one of the lines, and passes the filter. */
  lemma {:induction false} SurvivorsFrom(ls: seq<string>)
    ensures forall i :: 0 <= i < |Survivors(ls)| ==> Survivors(ls)[i] in ls && KeepLine(Survivors(ls)[i])
    decreases |ls|
  {
    if ls != [] {
      var n := |ls| - 1;
      SurvivorsFrom(ls[..n]);
      assert ls == ls[..n] + [ls[n]];
    }
  }

  /** Every stripped line is the strip of an input line, with no whitespace
      at either end. */
  lemma {:induction false} StripAllFrom(lines: seq<string>)
    ensures forall i :: 0 <= i < |lines| ==> StripAll(lines)[i] == StripLine(lines[i])
    decreases |lines|
  {
    if lines != [] {
      StripAllFrom(lines[..|lines| - 1]);
    }
  }

  /** Every output line is the stripped form of an input line; it is
      non-empty, has no whitespace at either end and does not start with
      `//` (a `//` further in is kept). */
  lemma KeptLinesClean(lines: seq<string>)
    ensures forall i :: 0 <= i < |KeptLines(lines)| ==> CleanLineOf(KeptLines(lines)[i], lines)
  {
    forall i | 0 <= i < |KeptLines(lines)| ensures CleanLineOf(KeptLines(lines)[i], lines) {
      KeptLineAt(lines, i);
    }
  }

  /** `l` is kept, has no whitespace at either end and is the strip of one
      of `lines`. */
  ghost predicate CleanLineOf(l: string, lines: seq<string>) {
    KeepLine(l) && !IsSpace(l[0]) && !IsSpace(l[|l| - 1]) &&
    exists j :: 0 <= j < |lines| && l == StripLine(lines[j])
  }

  lemma KeptLineAt(lines: seq<string>, i: nat)
    requires i < |KeptLines(lines)|
    ensures CleanLineOf(KeptLines(lines)[i], lines)
  {
    var stripped := StripAll(lines);
    var l := KeptLines(lines)[i];
    SurvivorAt(stripped, i);
    var j :| 0 <= j < |stripped| && stripped[j] == l;
    StripAllAt(lines, j);
    assert l == StripLine(lines[j]);
  }

  lemma SurvivorAt(ls: seq<string>, i: nat)
    requires i < |Survivors(ls)|
    ensures Survivors(ls)[i] in ls && KeepLine(Survivors(ls)[i])
  {
    SurvivorsFrom(ls);
  }

  lemma StripAllAt(lines: seq<string>, j: nat)
    requires j < |lines|
    ensures StripAll(lines)[j] == StripLine(lines[j])
  {
    StripAllFrom(lines);
  }

  /** `strip()` removes characters, it adds none. */
  lemma StripWithin(s: string, c: char)
    requires c !in s
    ensures c !in StripLine(s)
  {
    StripSlice(s);
    var a := |s| - |TrimStart(s)|;
    assert forall i :: 0 <= i < |StripLine(s)| ==> StripLine(s)[i] == s[a + i];
  }

  /** The output lines are exactly the kept lines, so there are never more of
      them than lines in the comment-stripped input. */
  lemma MinifyJsLines(content: string)
    ensures var lines := Split(StripComments(content), '\n');
      var kept := KeptLines(lines);
      kept != [] ==> Split(MinifyJs(content), '\n') == kept
    ensures |Split(MinifyJs(content), '\n')| <= |Split(StripComments(content), '\n')|
  {
    var lines := Split(StripComments(content), '\n');
    var kept := KeptLines(lines);
    if kept != [] {
      StripAllFrom(lines);
      SurvivorsFrom(StripAll(lines));
      SplitPartsFree(StripComments(content), '\n');
      forall i | 0 <= i < |kept| ensures '\n' !in kept[i] {
        var j :| 0 <= j < |lines| && StripAll(lines)[j] == kept[i];
        StripWithin(lines[j], '\n');
      }
      JoinSplit(kept, '\n');
    } else {
      assert MinifyJs(content) == [];
    }
  }

  lemma {:induction false} JoinSnoc(parts: seq<string>, x: string, c: char)
    requires parts != []
    ensures Join(parts + [x], c) == Join(parts, c) + [c] + x
    decreases |parts|
  {
    if |parts| > 1 {
      JoinSnoc(parts[1..], x, c);
      assert (parts + [x])[1..] == parts[1..] + [x];
    }
  }

  /** Appending a part adds its length, plus a separator unless it is the
      first part. */
  lemma JoinLength(parts: seq<string>, x: string, c: char)
    ensures |Join(parts + [x], c)| == if parts == [] then |x| else |Join(parts, c)| + 1 + |x|
  {
    if parts == [] {
      assert parts + [x] == [x];
    } else {
      JoinSnoc(parts, x, c);
    }
  }

  /** Dropping lines never lengthens the joined text. */
  lemma {:induction false} SurvivorsShorter(ls: seq<string>)
    ensures |Join(Survivors(ls), '\n')| <= |Join(ls, '\n')|
    decreases |ls|
  {
    if ls != [] {
      var n := |ls| - 1;
      var front, l := ls[..n], ls[n];
      var kept := Survivors(front);
      SurvivorsShorter(front);
      assert |Join(ls, '\n')| == if front == [] then |l| else |Join(front, '\n')| + 1 + |l| by {
        assert ls == front + [l];
        JoinLength(front, l, '\n');
      }
      if KeepLine(l) {
        JoinLength(kept, l, '\n');
      } else {
        assert kept + [] == kept;
      }
    }
  }

  /** Stripping lines never lengthens the joined text. */
  lemma {:induction false} StripAllShorter(lines: seq<string>)
    ensures |Join(StripAll(lines), '\n')| <= |Join(lines, '\n')|
    decreases |lines|
  {
    if lines != [] {
      var n := |lines| - 1;
      var front, x := lines[..n], lines[n];
      StripAllShorter(front);
      assert |Join(lines, '\n')| == if front == [] then |x| else |Join(front, '\n')| + 1 + |x| by {
        assert lines == front + [x];
        JoinLength(front, x, '\n');
      }
      JoinLength(StripAll(front), StripLine(x), '\n');
    }
  }

  /** The minified script is never longer than the input. */
  lemma MinifyJsShorter(content: string)
    ensures |MinifyJs(content)| <= |content|
  {
    var stripped := StripComments(content);
    var lines := Split(stripped, '\n');
    SplitJoin(stripped, '\n');
    StripAllShorter(lines);
    SurvivorsShorter(StripAll(lines));
  }

  // ---------------------------------------------------------------------------
  // process_file
  // ---------------------------------------------------------------------------

  /** The two kinds of asset and their minifiers. */
  datatype Asset = Stylesheet | Script

  function Extension(kind: Asset): string {
    match kind
    case Stylesheet => "css"
    case Script => "js"
  }

  function Minify(kind: Asset, content: string): (minified: string)
    ensures |minified| <= |content|
  {
    match kind
    case Stylesheet => MinifyCssShape(content); MinifyCss(content)
    case Script => MinifyJsShorter(content); MinifyJs(content)
  }

  /** `file_path.replace(f'.{ext}', f'.min.{ext}')` */
  function MinifiedPath(path: string, ext: string): string {
    ReplaceAll(path, "." + ext, ".min." + ext)
  }

  /** The output path differs from the input exactly when the input holds
      `.ext`; otherwise the source file itself is overwritten. */
  lemma MinifiedPathChanges(path: string, ext: string)
    ensures MinifiedPath(path, ext) != path <==> Contains(path, "." + ext)
  {
    ReplaceAllUnchangedIff(path, "." + ext, ".min." + ext);
  }

  /** A path whose only `.ext` is its suffix gets `.min` before it. */
  lemma MinifiedPathSuffix(stem: string, ext: string)
    requires !Contains(stem + ("." + ext)[..|ext|], "." + ext)
    ensures MinifiedPath(stem + ("." + ext), ext) == stem + (".min." + ext)
  {
    var p, r := "." + ext, ".min." + ext;
    ReplaceAllSplit(stem, p, [], r);
    assert stem + p + [] == stem + p;
    assert ReplaceAll([], p, r) == [];
    assert stem + r + [] == stem + r;
  }

  /** What `process_file` writes: the minified text, at the derived path. */
  datatype Written = Written(path: string, text: string)

  /** `process_file`, reading `content` from `path`: the minified text is
      never longer than the original, and it goes to a new file exactly when
      the path mentions the extension. */
  function ProcessFile(path: string, content: string, kind: Asset): (w: Written)
    ensures |w.text| <= |content|
    ensures w.path != path <==> Contains(path, "." + Extension(kind))
  {
    MinifiedPathChanges(path, Extension(kind));
    Written(MinifiedPath(path, Extension(kind)), Minify(kind, content))
  }
}
