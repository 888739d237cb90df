/** A fixed list of `text = text.replace(old, new)` steps applied in order,
    as the reference migrator and the HTML link updater do. */
module ReplaceChains {
  import opened Strings

  /** Every pattern is non-empty. */
  predicate ValidPairs(pairs: seq<(string, string)>) {
    forall i :: 0 <= i < |pairs| ==> pairs[i].0 != []
  }

  /** No replacement text can make a pattern appear, alone or next to the
      text around it. */
  ghost predicate CannotCreate(pairs: seq<(string, string)>) {
    forall i, k :: 0 <= i < |pairs| && 0 <= k < |pairs| ==> NoOverlap(pairs[i].1, pairs[k].0)
  }

  /** The text after the steps, applied first to last. */
  function Chain(s: string, pairs: seq<(string, string)>): string
    requires ValidPairs(pairs)
    decreases |pairs|
  {
    if pairs == [] then s
    else
      var last := pairs[|pairs| - 1];
      ReplaceAll(Chain(s, pairs[..|pairs| - 1]), last.0, last.1)
  }

  /** One more step of the chain. */
  lemma ChainExtend(s: string, pairs: seq<(string, string)>, i: nat)
    requires ValidPairs(pairs) && i < |pairs|
    ensures ValidPairs(pairs[..i]) && ValidPairs(pairs[..i + 1])
    ensures Chain(s, pairs[..i + 1]) == ReplaceAll(Chain(s, pairs[..i]), pairs[i].0, pairs[i].1)
  {
    assert pairs[..i + 1][..i] == pairs[..i];
  }

  /** A pattern no replacement can create occurs after the chain only if it
      occurred before. */
  lemma {:induction false} ChainTrace(s: string, pairs: seq<(string, string)>, q: string)
    requires ValidPairs(pairs) && q != []
    requires forall i :: 0 <= i < |pairs| ==> NoOverlap(pairs[i].1, q)
    ensures Contains(Chain(s, pairs), q) ==> Contains(s, q)
    decreases |pairs|
  {
    if pairs != [] {
      var n := |pairs| - 1;
      ChainTrace(s, pairs[..n], q);
      ReplaceAllOccurrence(Chain(s, pairs[..n]), pairs[n].0, pairs[n].1, q);
    }
  }

  /** A step that finds its pattern leaves text that differs from the
      input: the pattern is gone, yet it could only have come from the input. */
  lemma ChainStepChanges(s: string, pairs: seq<(string, string)>, i: nat)
    requires ValidPairs(pairs) && CannotCreate(pairs) && i < |pairs|
    requires ValidPairs(pairs[..i]) && Contains(Chain(s, pairs[..i]), pairs[i].0)
    ensures ReplaceAll(Chain(s, pairs[..i]), pairs[i].0, pairs[i].1) != s
  {
    var q := pairs[i].0;
    forall j | 0 <= j < |pairs[..i]| ensures NoOverlap(pairs[..i][j].1, q) {
      assert pairs[..i][j] == pairs[j];
    }
    ChainTrace(s, pairs[..i], q);
    ReplaceAllRemoves(Chain(s, pairs[..i]), q, pairs[i].1);
  }

  /** After the chain no pattern occurs any more. */
  lemma {:induction false} ChainRemoves(s: string, pairs: seq<(string, string)>)
    requires ValidPairs(pairs) && CannotCreate(pairs)
    ensures forall k :: 0 <= k < |pairs| ==> !Contains(Chain(s, pairs), pairs[k].0)
    decreases |pairs|
  {
    if pairs != [] {
      var n := |pairs| - 1;
      var before := Chain(s, pairs[..n]);
      ChainRemoves(s, pairs[..n]);
      forall k | 0 <= k < |pairs| ensures !Contains(Chain(s, pairs), pairs[k].0) {
        if k < n {
          assert pairs[..n][k] == pairs[k];
          ReplaceAllOccurrence(before, pairs[n].0, pairs[n].1, pairs[k].0);
        } else {
          ReplaceAllRemoves(before, pairs[n].0, pairs[n].1);
        }
      }
    }
  }

  /** On text where no pattern occurs the chain changes nothing. */
  lemma {:induction false} ChainIdle(s: string, pairs: seq<(string, string)>)
    requires ValidPairs(pairs)
    requires forall k :: 0 <= k < |pairs| ==> !Contains(s, pairs[k].0)
    ensures Chain(s, pairs) == s
    decreases |pairs|
  {
    if pairs != [] {
      var n := |pairs| - 1;
      ChainIdle(s, pairs[..n]);
      ReplaceAllAbsent(s, pairs[n].0, pairs[n].1);
    }
  }

  /** The chain changes the text exactly when some pattern occurs in it. */
  lemma ChainChangesIff(s: string, pairs: seq<(string, string)>)
    requires ValidPairs(pairs) && CannotCreate(pairs)
    ensures Chain(s, pairs) != s <==> exists k :: 0 <= k < |pairs| && Contains(s, pairs[k].0)
  {
    ChainRemoves(s, pairs);
    if forall k :: 0 <= k < |pairs| ==> !Contains(s, pairs[k].0) {
      ChainIdle(s, pairs);
    }
  }

  /** Running the chain a second time changes nothing. */
  lemma ChainIdempotent(s: string, pairs: seq<(string, string)>)
    requires ValidPairs(pairs) && CannotCreate(pairs)
    ensures Chain(Chain(s, pairs), pairs) == Chain(s, pairs)
  {
    ChainRemoves(s, pairs);
    ChainIdle(Chain(s, pairs), pairs);
  }
}
