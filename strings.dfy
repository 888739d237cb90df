/** Text primitives shared by the maintenance scripts: Python's `str.replace`,
    JavaScript's `String.prototype.replace` with a string pattern, `str.strip`,
    `str.split`/`str.join` on one separator, and ASCII case mapping. */
module Strings {

  /** The whitespace characters that Python's `\s` and `str.strip()` remove,
      restricted to ASCII: tab, line feed, vertical tab, form feed, carriage
      return, the four separators `\x1c` to `\x1f`, and space. */
  predicate IsSpace(c: char) {
    c == ' ' || '\t' <= c <= '\r' || '\U{001C}' <= c <= '\U{001F}'
  }

  /** One string is a prefix of the other. */
  predicate Comparable(a: string, b: string) {
    a <= b || b <= a
  }

  /** `p in s` in Python: `p` occurs somewhere in `s`. */
  predicate Contains(s: string, p: string)
    decreases |s|
  {
    p <= s || (s != [] && Contains(s[1..], p))
  }

  /** `s.startswith(p)` / `s.endswith(p)` */
  predicate StartsWith(s: string, p: string) { p <= s }
  predicate EndsWith(s: string, p: string) { |p| <= |s| && s[|s| - |p|..] == p }

  lemma ContainsAt(s: string, p: string, i: nat)
    requires i + |p| <= |s| && s[i..i + |p|] == p
    ensures Contains(s, p)
    decreases i
  {
    if i > 0 {
      assert s[1..][i - 1..i - 1 + |p|] == s[i..i + |p|];
      ContainsAt(s[1..], p, i - 1);
    }
  }

  /** Where `p` does not occur, no slice of `s` spells it. */
  lemma {:induction false} NotContainsAt(s: string, p: string, i: nat)
    requires !Contains(s, p) && i + |p| <= |s|
    ensures s[i..i + |p|] != p
    decreases i
  {
    if i > 0 {
      NotContainsAt(s[1..], p, i - 1);
      assert s[1..][i - 1..i - 1 + |p|] == s[i..i + |p|];
    }
  }

  lemma {:induction false} ContainsSuffix(s: string, p: string, k: nat)
    requires k <= |s| && Contains(s[k..], p)
    ensures Contains(s, p)
    decreases k
  {
    if k > 0 {
      assert s[1..][k - 1..] == s[k..];
      ContainsSuffix(s[1..], p, k - 1);
    }
  }

  lemma {:induction false} ContainsLonger(s: string, t: string, p: string)
    requires Contains(s, p)
    ensures Contains(s + t, p)
    decreases |s|
  {
    if !(p <= s) {
      assert (s + t)[1..] == s[1..] + t;
      ContainsLonger(s[1..], t, p);
    }
  }

  lemma PrefixOfConcat(t: string, r: string, x: string)
    requires t <= r + x
    ensures Comparable(t, r)
  {
    if |t| <= |r| {
      assert t == (r + x)[..|t|] == r[..|t|];
    } else {
      assert r == (r + x)[..|r|] == t[..|r|];
    }
  }

  /** A one-character pattern occurs exactly when the character does. */
  lemma {:induction false} ContainsChar(s: string, c: char)
    ensures Contains(s, [c]) <==> c in s
    decreases |s|
  {
    if s != [] {
      ContainsChar(s[1..], c);
      assert s == [s[0]] + s[1..];
    }
  }

  /** Occurrences of `q` cannot begin inside `a` when no suffix of `a` is
      comparable with `q`, so they all lie in `b`. */
  lemma {:induction false} ContainsSkip(a: string, b: string, q: string)
    requires forall k :: 0 <= k < |a| ==> !Comparable(a[k..], q)
    requires Contains(a + b, q)
    ensures Contains(b, q)
    decreases |a|
  {
    if a == [] {
      assert a + b == b;
    } else {
      var zero := 0;
      assert a[zero..] == a;
      if q <= a + b {
        PrefixOfConcat(q, a, b);
        assert false;
      }
      assert (a + b)[1..] == a[1..] + b;
      forall k | 0 <= k < |a[1..]| ensures !Comparable(a[1..][k..], q) {
        assert a[1..][k..] == a[k + 1..];
      }
      ContainsSkip(a[1..], b, q);
    }
  }

  // ---------------------------------------------------------------------------
  // Python `s.replace(p, r)`: every non-overlapping occurrence, left to right
  // ---------------------------------------------------------------------------

  /** Number of replacements `s.replace(p, r)` performs. */
  function MatchCount(s: string, p: string): nat
    requires p != []
    decreases |s|
  {
    if s == [] then 0
    else if p <= s then 1 + MatchCount(s[|p|..], p)
    else MatchCount(s[1..], p)
  }

  function ReplaceAll(s: string, p: string, r: string): string
    requires p != []
    decreases |s|
  {
    if s == [] then []
    else if p <= s then r + ReplaceAll(s[|p|..], p, r)
    else [s[0]] + ReplaceAll(s[1..], p, r)
  }

  /** Text without the pattern is left as it is. */
  lemma {:induction false} ReplaceAllAbsent(s: string, p: string, r: string)
    requires p != [] && !Contains(s, p)
    ensures ReplaceAll(s, p, r) == s
    decreases |s|
  {
    if s != [] {
      ReplaceAllAbsent(s[1..], p, r);
    }
  }

  /** Every replacement changes the length by `|r| - |p|`. */
  lemma {:induction false} ReplaceAllLength(s: string, p: string, r: string)
    requires p != []
    ensures |ReplaceAll(s, p, r)| == |s| + MatchCount(s, p) * (|r| - |p|)
    decreases |s|
  {
    if s != [] {
      var d := |r| - |p|;
      if p <= s {
        ReplaceAllLength(s[|p|..], p, r);
        var n := MatchCount(s[|p|..], p);
        assert |ReplaceAll(s, p, r)| == |r| + |ReplaceAll(s[|p|..], p, r)|;
        assert MatchCount(s, p) == 1 + n;
        MulSucc(n, d);
      } else {
        ReplaceAllLength(s[1..], p, r);
        assert |ReplaceAll(s, p, r)| == 1 + |ReplaceAll(s[1..], p, r)|;
        assert MatchCount(s, p) == MatchCount(s[1..], p);
      }
    }
  }

  lemma MulSucc(n: int, d: int)
    ensures (1 + n) * d == d + n * d
  {
  }

  lemma MulNonZero(m: int, d: int)
    requires m >= 1 && d != 0
    ensures m * d != 0
  {
  }

  /** A pattern at the very start of `a + p + b` (with `a` non-empty) would
      already occur in `a` followed by all but the last character of `p`. */
  lemma NoEarlierMatch(a: string, p: string, b: string)
    requires a != [] && p != []
    ensures p <= a + p + b ==> Contains(a + p[..|p| - 1], p)
  {
    if p <= a + p + b {
      var q := a + p[..|p| - 1];
      assert a + p + b == q + ([p[|p| - 1]] + b);
      PrefixOfConcat(p, q, [p[|p| - 1]] + b);
    }
  }

  /** The occurrences are found left to right: the first one is replaced, and
      scanning resumes after it. */
  lemma {:induction false} ReplaceAllSplit(a: string, p: string, b: string, r: string)
    requires p != []
    requires !Contains(a + p[..|p| - 1], p)
    ensures ReplaceAll(a + p + b, p, r) == a + r + ReplaceAll(b, p, r)
    decreases |a|
  {
    if a == [] {
      ReplaceAllAt(p, b, r);
      assert a + p + b == p + b && a + r + ReplaceAll(b, p, r) == r + ReplaceAll(b, p, r);
    } else {
      var s := a + p + b;
      NoEarlierMatch(a, p, b);
      ReplaceAllStep(s, p, r);
      assert s[1..] == a[1..] + p + b;
      assert (a + p[..|p| - 1])[1..] == a[1..] + p[..|p| - 1];
      ReplaceAllSplit(a[1..], p, b, r);
      assert [a[0]] + (a[1..] + r + ReplaceAll(b, p, r)) == a + r + ReplaceAll(b, p, r);
    }
  }

  /** An occurrence at the start is replaced and the scan resumes after it. */
  lemma ReplaceAllAt(p: string, b: string, r: string)
    requires p != []
    ensures ReplaceAll(p + b, p, r) == r + ReplaceAll(b, p, r)
  {
    assert (p + b)[|p|..] == b;
  }

  /** Without an occurrence at the start, the first character is kept. */
  lemma ReplaceAllStep(s: string, p: string, r: string)
    requires p != [] && s != [] && !(p <= s)
    ensures ReplaceAll(s, p, r) == [s[0]] + ReplaceAll(s[1..], p, r)
  {
  }

  /** A replacement that changes the pattern changes the text exactly when the
      pattern occurs in it. */
  lemma {:induction false} ReplaceAllUnchangedIff(s: string, p: string, r: string)
    requires p != [] && p != r
    ensures ReplaceAll(s, p, r) == s <==> !Contains(s, p)
    decreases |s|
  {
    if s != [] {
      if p <= s {
        var t := ReplaceAll(s, p, r);
        assert Contains(s, p);
        if |r| == |p| {
          assert t[..|p|] == r;
          assert s[..|p|] == p;
        } else {
          ReplaceAllLength(s, p, r);
          MulNonZero(MatchCount(s, p), |r| - |p|);
        }
      } else {
        ReplaceAllUnchangedIff(s[1..], p, r);
        assert ReplaceAll(s, p, r) == [s[0]] + ReplaceAll(s[1..], p, r);
        assert s == [s[0]] + s[1..];
      }
    }
  }

  /** No suffix of `r` begins an occurrence of `q`, and no proper suffix of
      `q` runs into `r`: then a replacement by `r` can never create `q`. */
  ghost predicate NoOverlap(r: string, q: string) {
    (forall k :: 0 <= k < |r| ==> !Comparable(r[k..], q)) &&
    (forall m :: 1 <= m < |q| ==> !Comparable(q[m..], r))
  }

  lemma {:induction false} DifferAt(a: string, b: string, i: nat)
    requires i < |a| && i < |b| && a[i] != b[i]
    ensures !Comparable(a, b)
  {
  }

  /** A shared first character that appears nowhere else in either string
      rules out any overlap. */
  lemma {:induction false} MarkerNoOverlap(r: string, q: string)
    requires r != [] && q != [] && r[0] == q[0]
    requires q[0] !in r[1..] && q[0] !in q[1..]
    requires !Comparable(r, q)
    ensures NoOverlap(r, q)
  {
    forall k | 1 <= k < |r| ensures !Comparable(r[k..], q) {
      assert r[k] in r[1..];
      DifferAt(r[k..], q, 0);
    }
    forall m | 1 <= m < |q| ensures !Comparable(q[m..], r) {
      assert q[m] in q[1..];
      DifferAt(q[m..], r, 0);
    }
  }

  /** The same with a shared first pair of characters that starts no other
      position of either string. */
  lemma {:induction false} PairNoOverlap(r: string, q: string)
    requires |r| >= 2 && |q| >= 2 && r[0] == q[0] && r[1] == q[1]
    requires forall k :: 1 <= k < |r| - 1 ==> r[k] != q[0] || r[k + 1] != q[1]
    requires forall m :: 1 <= m < |q| - 1 ==> q[m] != r[0] || q[m + 1] != r[1]
    requires r[|r| - 1] != q[0] && q[|q| - 1] != r[0]
    requires !Comparable(r, q)
    ensures NoOverlap(r, q)
  {
    forall k | 1 <= k < |r| ensures !Comparable(r[k..], q) {
      if k == |r| - 1 {
        DifferAt(r[k..], q, 0);
      } else if r[k] != q[0] {
        DifferAt(r[k..], q, 0);
      } else {
        DifferAt(r[k..], q, 1);
      }
    }
    forall m | 1 <= m < |q| ensures !Comparable(q[m..], r) {
      if m == |q| - 1 {
        DifferAt(q[m..], r, 0);
      } else if q[m] != r[0] {
        DifferAt(q[m..], r, 0);
      } else {
        DifferAt(q[m..], r, 1);
      }
    }
  }

  /** A prefix of the replaced text that cannot reach into an inserted `r` is
      a prefix of the original text. */
  lemma {:induction false} PrefixThroughReplace(s: string, p: string, r: string, t: string)
    requires p != []
    requires t <= ReplaceAll(s, p, r)
    requires forall m :: 0 <= m < |t| ==> !Comparable(t[m..], r)
    ensures t <= s
    decreases |s|
  {
    if s != [] && t != [] {
      if p <= s {
        var zero := 0;
        assert t[zero..] == t;
        PrefixOfConcat(t, r, ReplaceAll(s[|p|..], p, r));
        assert false;
      } else {
        var rest := ReplaceAll(s[1..], p, r);
        assert ReplaceAll(s, p, r) == [s[0]] + rest;
        assert t[1..] <= rest;
        forall m | 0 <= m < |t[1..]| ensures !Comparable(t[1..][m..], r) {
          assert t[1..][m..] == t[m + 1..];
        }
        PrefixThroughReplace(s[1..], p, r, t[1..]);
        assert t == [t[0]] + t[1..];
        assert s == [s[0]] + s[1..];
      }
    }
  }

  /** After `s.replace(p, r)` the pattern no longer occurs, and no string `q`
      that `r` cannot overlap appears that was not there before. */
  lemma {:induction false} ReplaceAllOccurrence(s: string, p: string, r: string, q: string)
    requires p != [] && q != []
    requires NoOverlap(r, q)
    ensures Contains(ReplaceAll(s, p, r), q) ==> Contains(s, q) && q != p
    decreases |s|
  {
    var t := ReplaceAll(s, p, r);
    if s != [] && Contains(t, q) {
      if p <= s {
        var rest := ReplaceAll(s[|p|..], p, r);
        assert t == r + rest;
        ContainsSkip(r, rest, q);
        ReplaceAllOccurrence(s[|p|..], p, r, q);
        ContainsSuffix(s, q, |p|);
      } else {
        var rest := ReplaceAll(s[1..], p, r);
        assert t == [s[0]] + rest && t[1..] == rest;
        if q <= t {
          assert q[1..] <= rest;
          forall m | 0 <= m < |q[1..]| ensures !Comparable(q[1..][m..], r) {
            assert q[1..][m..] == q[m + 1..];
          }
          PrefixThroughReplace(s[1..], p, r, q[1..]);
          assert q == [q[0]] + q[1..] && s == [s[0]] + s[1..];
          assert q <= s;
        } else {
          ReplaceAllOccurrence(s[1..], p, r, q);
          ContainsSuffix(s, q, 1);
        }
      }
    }
  }

  /** Corollary used by every replacement chain: the pattern is gone. */
  lemma ReplaceAllRemoves(s: string, p: string, r: string)
    requires p != [] && NoOverlap(r, p)
    ensures !Contains(ReplaceAll(s, p, r), p)
  {
    ReplaceAllOccurrence(s, p, r, p);
  }

  // ---------------------------------------------------------------------------
  // JavaScript `s.replace(p, r)` with a string pattern: first occurrence only
  // ---------------------------------------------------------------------------

  function ReplaceFirst(s: string, p: string, r: string): (t: string)
    requires p != []
    ensures !Contains(s, p) ==> t == s
    decreases |s|
  {
    if s == [] then []
    else if p <= s then r + s[|p|..]
    else [s[0]] + ReplaceFirst(s[1..], p, r)
  }

  /** Only the leftmost occurrence is replaced; the rest of the text is kept,
      including later occurrences. */
  lemma {:induction false} ReplaceFirstSplit(a: string, p: string, b: string, r: string)
    requires p != []
    requires !Contains(a + p[..|p| - 1], p)
    ensures ReplaceFirst(a + p + b, p, r) == a + r + b
    decreases |a|
  {
    var s := a + p + b;
    if a == [] {
      assert s == p + b && p <= s && s[|p|..] == b;
    } else {
      NoEarlierMatch(a, p, b);
      assert s[1..] == a[1..] + p + b;
      assert (a + p[..|p| - 1])[1..] == a[1..] + p[..|p| - 1];
      ReplaceFirstSplit(a[1..], p, b, r);
      assert ReplaceFirst(s, p, r) == [a[0]] + ReplaceFirst(s[1..], p, r);
      assert a + r + b == [a[0]] + (a[1..] + r + b);
    }
  }

  // ---------------------------------------------------------------------------
  // Python `str.strip()`
  // ---------------------------------------------------------------------------

  /** The number of whitespace characters `s` starts with. */
  function LeadingSpaces(s: string): (n: nat)
    ensures n <= |s| && (n == |s| || !IsSpace(s[n]))
    ensures forall i :: 0 <= i < n ==> IsSpace(s[i])
    decreases |s|
  {
    if s != [] && IsSpace(s[0]) then 1 + LeadingSpaces(s[1..]) else 0
  }

  /** The number of whitespace characters `s` ends with. */
  function TrailingSpaces(s: string): (n: nat)
    ensures n <= |s| && (n == |s| || !IsSpace(s[|s| - n - 1]))
    ensures forall i :: |s| - n <= i < |s| ==> IsSpace(s[i])
    decreases |s|
  {
    if s != [] && IsSpace(s[|s| - 1]) then 1 + TrailingSpaces(s[..|s| - 1]) else 0
  }

  /** `s.lstrip()` */
  function TrimStart(s: string): (t: string)
    ensures |t| <= |s| && t == s[|s| - |t|..]
    ensures forall i :: 0 <= i < |s| - |t| ==> IsSpace(s[i])
    ensures t == [] || !IsSpace(t[0])
  {
    s[LeadingSpaces(s)..]
  }

  /** `s.rstrip()` */
  function TrimEnd(s: string): (t: string)
    ensures |t| <= |s| && t == s[..|t|]
    ensures forall i :: |t| <= i < |s| ==> IsSpace(s[i])
    ensures t == [] || !IsSpace(t[|t| - 1])
  {
    s[..|s| - TrailingSpaces(s)]
  }

  /** `s.strip()`: the longest infix of `s` that neither starts nor ends with
      whitespace, obtained by removing only whitespace. */
  function Strip(s: string): (t: string)
    ensures |t| <= |s|
    ensures t == [] || (!IsSpace(t[0]) && !IsSpace(t[|t| - 1]))
  {
    TrimEnd(TrimStart(s))
  }

  /** `strip()` keeps one slice of `s` and drops only whitespace on either
      side of it. */
  lemma StripSlice(s: string)
    ensures var t := Strip(s); var a := |s| - |TrimStart(s)|;
      a + |t| <= |s| && t == s[a..a + |t|] &&
      (forall i :: 0 <= i < a ==> IsSpace(s[i])) &&
      (forall i :: a + |t| <= i < |s| ==> IsSpace(s[i]))
  {
    var u := TrimStart(s);
    var t := TrimEnd(u);
    var a := |s| - |u|;
    assert Strip(s) == t;
    assert t == s[a..a + |t|] by {
      assert u == s[a..] && t == u[..|t|];
      forall i | 0 <= i < |t| ensures t[i] == s[a + i] {
        assert t[i] == u[i] == s[a + i];
      }
    }
    forall i | a + |t| <= i < |s| ensures IsSpace(s[i]) {
      assert u == s[a..];
      assert s[i] == u[i - a];
    }
  }

  /** `s.lstrip(c)`: drops every leading `c`. */
  function StripLeading(s: string, c: char): (t: string)
    ensures |t| <= |s| && t == s[|s| - |t|..]
    ensures forall i :: 0 <= i < |s| - |t| ==> s[i] == c
    ensures t == [] || t[0] != c
    decreases |s|
  {
    if s != [] && s[0] == c then StripLeading(s[1..], c) else s
  }

  /** No element occurs twice. */
  predicate Distinct<T(==)>(s: seq<T>) {
    forall i, j :: 0 <= i < j < |s| ==> s[i] != s[j]
  }

  // ---------------------------------------------------------------------------
  // Python `s.split(c)` and `c.join(parts)` on a single-character separator
  // ---------------------------------------------------------------------------

  function Split(s: string, c: char): (parts: seq<string>)
    ensures |parts| >= 1
    decreases |s|
  {
    if s == [] then [[]]
    else if s[0] == c then [[]] + Split(s[1..], c)
    else
      var rest := Split(s[1..], c);
      [[s[0]] + rest[0]] + rest[1..]
  }

  function Join(parts: seq<string>, c: char): string
    decreases |parts|
  {
    if parts == [] then []
    else if |parts| == 1 then parts[0]
    else parts[0] + [c] + Join(parts[1..], c)
  }

  lemma {:induction false} SplitJoin(s: string, c: char)
    ensures Join(Split(s, c), c) == s
    decreases |s|
  {
    if s != [] {
      SplitJoin(s[1..], c);
      var rest := Split(s[1..], c);
      if s[0] != c {
        if |rest| == 1 {
          assert Join(rest, c) == rest[0];
        } else {
          assert ([[s[0]] + rest[0]] + rest[1..])[1..] == rest[1..];
          assert Join(rest, c) == rest[0] + [c] + Join(rest[1..], c);
        }
        assert s == [s[0]] + s[1..];
      } else {
        assert ([[]] + rest)[1..] == rest;
        assert s == [c] + s[1..];
      }
    }
  }

  /** No piece of a split holds the separator. */
  lemma {:induction false} SplitPartsFree(s: string, c: char)
    ensures forall i :: 0 <= i < |Split(s, c)| ==> c !in Split(s, c)[i]
    decreases |s|
  {
    if s != [] {
      SplitPartsFree(s[1..], c);
      var rest := Split(s[1..], c);
      if s[0] != c {
        forall i | 0 <= i < |Split(s, c)| ensures c !in Split(s, c)[i] {
          if i == 0 {
            assert Split(s, c)[0] == [s[0]] + rest[0];
          } else {
            assert Split(s, c)[i] == rest[i];
          }
        }
      } else {
        forall i | 0 <= i < |Split(s, c)| ensures c !in Split(s, c)[i] {
          if i > 0 {
            assert Split(s, c)[i] == rest[i - 1];
          }
        }
      }
    }
  }

  /** Splitting text that starts with the separator. */
  lemma SplitSep(rest: string, c: char)
    ensures Split([c] + rest, c) == [[]] + Split(rest, c)
  {
    assert ([c] + rest)[1..] == rest;
  }

  /** Splitting text that starts with another character: it joins the first
      part. */
  lemma SplitCons(x: char, rest: string, c: char)
    requires x != c
    ensures Split([x] + rest, c) == [[x] + Split(rest, c)[0]] + Split(rest, c)[1..]
  {
    assert ([x] + rest)[1..] == rest;
  }

  /** Splitting a join gives back the parts, when no part holds the separator. */
  lemma {:induction false} JoinSplit(parts: seq<string>, c: char)
    requires |parts| >= 1
    requires forall i :: 0 <= i < |parts| ==> c !in parts[i]
    ensures Split(Join(parts, c), c) == parts
    decreases |parts|, |parts[0]|
  {
    var head := parts[0];
    if |parts| == 1 {
      if head != [] {
        assert c !in head[1..] by { assert forall x :: x in head[1..] ==> x in head; }
        JoinSplit([head[1..]], c);
        JoinSplitSingle(head, c);
      }
    } else {
      var rest := parts[1..];
      assert parts == [head] + rest;
      if head == [] {
        JoinSplit(rest, c);
        JoinSplitEmptyHead(rest, c);
      } else {
        var shorter := [head[1..]] + rest;
        forall i | 0 <= i < |shorter| ensures c !in shorter[i] {
          if i == 0 {
            assert forall x :: x in head[1..] ==> x in head;
          } else {
            assert shorter[i] == parts[i];
          }
        }
        JoinSplit(shorter, c);
        JoinSplitConsHead(head, rest, c);
      }
    }
  }

  lemma JoinSplitSingle(head: string, c: char)
    requires head != [] && c !in head && Split(Join([head[1..]], c), c) == [head[1..]]
    ensures Split(Join([head], c), c) == [head]
  {
    assert head[0] != c by { assert head[0] in head; }
    SplitCons(head[0], head[1..], c);
    assert [head[0]] + head[1..] == head;
  }

  lemma JoinSplitEmptyHead(rest: seq<string>, c: char)
    requires rest != [] && Split(Join(rest, c), c) == rest
    ensures Split(Join([[]] + rest, c), c) == [[]] + rest
  {
    assert ([[]] + rest)[1..] == rest;
    assert Join([[]] + rest, c) == [c] + Join(rest, c);
    SplitSep(Join(rest, c), c);
  }

  lemma JoinSplitConsHead(head: string, rest: seq<string>, c: char)
    requires head != [] && c !in head && rest != []
    requires Split(Join([head[1..]] + rest, c), c) == [head[1..]] + rest
    ensures Split(Join([head] + rest, c), c) == [head] + rest
  {
    var shorter := [head[1..]] + rest;
    var tail := Join(rest, c);
    assert ([head] + rest)[1..] == rest && shorter[1..] == rest;
    assert Join([head] + rest, c) == head + [c] + tail;
    assert Join(shorter, c) == head[1..] + [c] + tail;
    assert head + [c] + tail == [head[0]] + (head[1..] + [c] + tail);
    assert head[0] != c by { assert head[0] in head; }
    SplitCons(head[0], Join(shorter, c), c);
    assert [head[0]] + head[1..] == head;
    assert Split(Join(shorter, c), c)[0] == head[1..];
    assert Split(Join(shorter, c), c)[1..] == rest;
  }

  // ---------------------------------------------------------------------------
  // ASCII case mapping (`str.lower()`, `String.prototype.toUpperCase()`)
  // ---------------------------------------------------------------------------

  function LowerChar(c: char): char {
    if 'A' <= c <= 'Z' then (c as int + 32) as char else c
  }

  function UpperChar(c: char): char {
    if 'a' <= c <= 'z' then (c as int - 32) as char else c
  }

  function Lower(s: string): (t: string)
    ensures |t| == |s| && forall i :: 0 <= i < |s| ==> t[i] == LowerChar(s[i])
  {
    seq(|s|, i requires 0 <= i < |s| => LowerChar(s[i]))
  }

  function Upper(s: string): (t: string)
    ensures |t| == |s| && forall i :: 0 <= i < |s| ==> t[i] == UpperChar(s[i])
  {
    seq(|s|, i requires 0 <= i < |s| => UpperChar(s[i]))
  }

  lemma UpperAppend(a: string, b: string)
    ensures Upper(a + b) == Upper(a) + Upper(b)
  {
  }

  lemma LowerAppend(a: string, b: string)
    ensures Lower(a + b) == Lower(a) + Lower(b)
  {
  }

  /** Lower-casing keeps every occurrence of a lower-case pattern. */
  lemma {:induction false} LowerContains(s: string, p: string)
    requires Contains(s, p) && Lower(p) == p
    ensures Contains(Lower(s), p)
    decreases |s|
  {
    if p <= s {
      assert Lower(s)[..|p|] == Lower(p);
    } else {
      assert Lower(s)[1..] == Lower(s[1..]);
      LowerContains(s[1..], p);
    }
  }
}
