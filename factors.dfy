/**
  Contributing-factor lists (heatmap_app_final.py, lines 47-86): the raw
  "Contributing Factors" cell is split on ';' and each piece stripped;
  the resulting list is then normalised by `update_factors_list`, which
  folds three legacy labels into their current names and removes the
  duplicates this creates.
*/
module Factors {
  import opened Wrappers
  import opened Seqs
  import opened Text

  /** The "Contributing Factors" cell as a list: split on ';', every piece stripped. */
  function ParseFactors(text: string): (factors: seq<string>)
    ensures |factors| == Occurrences(text, ';') + 1
    ensures forall i :: 0 <= i < |factors| ==> ';' !in factors[i] && Strip(factors[i]) == factors[i]
  {
    var pieces := Split(text, ';');
    forall i | 0 <= i < |pieces| ensures ';' !in Strip(pieces[i]) && Strip(Strip(pieces[i])) == Strip(pieces[i]) {
      StripKeepsCharacters(pieces[i]);
      StripIdempotent(pieces[i]);
    }
    var factors := seq(|pieces|, i requires 0 <= i < |pieces| => Strip(pieces[i]));
    factors
  }

  /**
    The contents of a parsed cell: a cell written as `;`-separated pieces
    parses to those pieces, each stripped, in their order.
  */
  lemma ParseJoin(pieces: seq<string>)
    requires |pieces| >= 1
    requires forall i :: 0 <= i < |pieces| ==> ';' !in pieces[i]
    ensures ParseFactors(Join(pieces, ";")) == seq(|pieces|, i requires 0 <= i < |pieces| => Strip(pieces[i]))
  {
    SplitJoin(pieces, ';');
  }

  /** The substitution table of `update_factors_list`: legacy label to current label. */
  const Replacements: map<string, string> := map[
    "UNSAFE SPEED" := "FAILED TO CONTROL SPEED",
    "SPEEDING - (OVERLIMIT)" := "FAILED TO CONTROL SPEED",
    "HAD BEEN DRINKING" := "UNDER INFLUENCE - ALCOHOL"
  ]

  /** A current label is never itself a legacy label, so one substitution is final. */
  lemma TargetsAreCurrent(legacy: string)
    requires legacy in Replacements
    ensures Replacements[legacy] !in Replacements
    ensures Replacements[legacy] != legacy
  {
  }

  /** The current name of a label: its replacement if it has one, else the label itself. */
  function Substitute(factor: string): (current: string)
    ensures current !in Replacements
  {
    if factor in Replacements then Replacements[factor] else factor
  }

  /**
    The label set a normalised list must hold: every input label under its
    current name. This is the reference the loop of `update_factors_list`
    is proved against; it does not mention the skip rule at all.
  */
  ghost function CanonicalSet(factors: seq<string>): set<string> {
    set f | f in factors :: Substitute(f)
  }

  /**
    What one input label adds to the list before deduplication (lines
    67-75): a legacy label whose replacement is already among the inputs
    adds nothing, any other legacy label adds its replacement, and every
    other label adds itself.
  */
  function Contribution(factors: seq<string>, factor: string): seq<string> {
    if factor in Replacements then
      if Replacements[factor] in factors then [] else [Replacements[factor]]
    else [factor]
  }

  /** The list the loop has built after visiting `visited`, a prefix of `factors`. */
  function Rewritten(factors: seq<string>, visited: seq<string>): seq<string> {
    if visited == [] then []
    else Rewritten(factors, visited[..|visited| - 1]) + Contribution(factors, visited[|visited| - 1])
  }

  /** How many of the labels in `visited` are legacy names of `target`. */
  function LegacyCount(visited: seq<string>, target: string): nat {
    if visited == [] then 0
    else
      var last := visited[|visited| - 1];
      LegacyCount(visited[..|visited| - 1], target)
        + (if last in Replacements && Replacements[last] == target then 1 else 0)
  }

  /**
    The loop never emits more labels than it has read, never emits a
    legacy label, and emits exactly the current names of what it has read,
    except for replacements already present among the inputs.
  */
  lemma {:induction false} RewrittenMembers(factors: seq<string>, visited: seq<string>)
    ensures |Rewritten(factors, visited)| <= |visited|
    ensures forall x :: x in Rewritten(factors, visited) ==> x !in Replacements
    ensures forall x :: x in Rewritten(factors, visited) ==> x in CanonicalSet(visited)
    ensures forall f :: f in visited && f !in Replacements ==> f in Rewritten(factors, visited)
    ensures forall f :: f in visited && f in Replacements && Replacements[f] !in factors ==>
              Replacements[f] in Rewritten(factors, visited)
  {
    if visited != [] {
      var init := visited[..|visited| - 1];
      var last := visited[|visited| - 1];
      RewrittenMembers(factors, init);
      assert visited == init + [last];
      assert forall f :: f in visited <==> f in init || f == last;
      assert CanonicalSet(visited) == CanonicalSet(init) + {Substitute(last)};
    }
  }

  /** Before deduplication the loop's list holds exactly the canonical label set. */
  lemma RewrittenCanonical(factors: seq<string>)
    ensures Elems(Rewritten(factors, factors)) == CanonicalSet(factors)
  {
    RewrittenMembers(factors, factors);
    forall x | x in CanonicalSet(factors) ensures x in Rewritten(factors, factors) {
      var f :| f in factors && Substitute(f) == x;
      if f in Replacements && Replacements[f] in factors {
        assert x in factors && x !in Replacements;
      }
    }
  }

  /**
    The skip rule at lines 67-71, counted: before deduplication a current
    label that occurs among the inputs is emitted once per input
    occurrence (its legacy names add nothing), and one that does not is
    emitted once per legacy name among the inputs.
  */
  lemma {:induction false} TargetOccurrences(factors: seq<string>, visited: seq<string>, target: string)
    requires target !in Replacements
    requires forall f :: f in visited ==> f in factors
    ensures Occurrences(Rewritten(factors, visited), target)
         == if target in factors then Occurrences(visited, target) else LegacyCount(visited, target)
  {
    if visited != [] {
      var init := visited[..|visited| - 1];
      var last := visited[|visited| - 1];
      assert visited == init + [last];
      TargetOccurrences(factors, init, target);
      OccurrencesAppend(Rewritten(factors, init), Contribution(factors, last), target);
      OccurrencesAppend(init, [last], target);
    }
  }

  /** Visiting one more label appends its contribution. */
  lemma {:induction false} RewrittenNext(factors: seq<string>, i: nat)
    requires i < |factors|
    ensures Rewritten(factors, factors[..i + 1]) == Rewritten(factors, factors[..i]) + Contribution(factors, factors[i])
  {
    var visited := factors[..i + 1];
    assert visited[..|visited| - 1] == factors[..i];
    assert visited[|visited| - 1] == factors[i];
  }

  /** Deduplicating the loop's full list gives the promised result. */
  lemma DeduplicatedResult(factors: seq<string>, updated: seq<string>)
    requires NoDuplicates(updated)
    requires Elems(updated) == Elems(Rewritten(factors, factors))
    requires |updated| <= |Rewritten(factors, factors)|
    ensures Elems(updated) == CanonicalSet(factors)
    ensures forall x :: x in updated ==> x !in Replacements
    ensures |updated| <= |factors|
    ensures |factors| > 0 ==> |updated| > 0
  {
    RewrittenMembers(factors, factors);
    RewrittenCanonical(factors);
    if |factors| > 0 {
      assert Substitute(factors[0]) in CanonicalSet(factors);
    }
  }

  /**
    `update_factors_list` (lines 54-80). The loop visits the labels in
    order and appends each one's contribution; the final
    `list(set(updated_factors))` keeps one copy of each label, in an order
    the model leaves open.
  */
  method UpdateFactorsList(factors: seq<string>) returns (updated: seq<string>)
    ensures NoDuplicates(updated)
    ensures Elems(updated) == CanonicalSet(factors)
    ensures forall x :: x in updated ==> x !in Replacements
    ensures |updated| <= |factors|
    ensures |factors| > 0 ==> |updated| > 0
  {
    var built: seq<string> := [];
    for i := 0 to |factors|
      invariant built == Rewritten(factors, factors[..i])
    {
      RewrittenNext(factors, i);
      var factor := factors[i];
      var replacement := if factor in Replacements then Some(Replacements[factor]) else None;
      if replacement.Some? {
        if replacement.value in factors {
          continue;
        }
        factor := replacement.value;
      }
      built := built + [factor];
    }
    assert factors[..|factors|] == factors;
    updated := ListOfSet(built);
    DeduplicatedResult(factors, updated);
  }

  /**
    Normalisation is idempotent up to set equality: whatever order a first
    call returns its labels in, normalising that list again yields the
    same labels.
  */
  lemma NormalizeIdempotent(factors: seq<string>, updated: seq<string>)
    requires Elems(updated) == CanonicalSet(factors)
    ensures CanonicalSet(updated) == CanonicalSet(factors)
  {
    forall x | x in updated ensures Substitute(x) == x {
      assert x in CanonicalSet(factors);
    }
  }
}
