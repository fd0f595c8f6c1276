/** Threshold filter on the results of the hypothetical-answer (HyDE) search:
    `withScores.filter(([, s]) => s > 0.2).map(([d]) => d)`. */
module Hyde {
  import opened Documents

  /** Relevance score a HyDE match must strictly exceed to be kept. */
  const Threshold: real := 0.2

  /** The HyDE matches kept for the merge, in the order the store returned them. */
  function Strong(withScores: seq<(Doc, real)>): (kept: seq<Doc>)
    ensures |kept| <= |withScores|
  {
    if withScores == [] then []
    else
      (if withScores[0].1 > Threshold then [withScores[0].0] else [])
      + Strong(withScores[1..])
  }

  /** A document survives the filter exactly when the store returned it with a
      score strictly above the threshold. */
  lemma {:induction false} StrongMembers(withScores: seq<(Doc, real)>, d: Doc)
    ensures d in Strong(withScores) <==>
              exists i :: 0 <= i < |withScores| && withScores[i].0 == d && withScores[i].1 > Threshold
  {
    if withScores != [] {
      StrongMembers(withScores[1..], d);
      if d in Strong(withScores[1..]) {
        var i :| 0 <= i < |withScores[1..]| && withScores[1..][i].0 == d && withScores[1..][i].1 > Threshold;
        assert withScores[i + 1] == withScores[1..][i];
      }
      if exists i :: 0 <= i < |withScores| && withScores[i].0 == d && withScores[i].1 > Threshold {
        var i :| 0 <= i < |withScores| && withScores[i].0 == d && withScores[i].1 > Threshold;
        if i > 0 {
          assert withScores[1..][i - 1] == withScores[i];
        }
      }
    }
  }

  /** The filter keeps order: filtering a concatenation concatenates the filtered
      parts. */
  lemma {:induction false} StrongAppend(a: seq<(Doc, real)>, b: seq<(Doc, real)>)
    ensures Strong(a + b) == Strong(a) + Strong(b)
  {
    if a != [] {
      assert (a + b)[1..] == a[1..] + b;
      StrongAppend(a[1..], b);
    } else {
      assert a + b == b;
    }
  }

  lemma StrongSingle(p: (Doc, real))
    ensures Strong([p]) == if p.1 > Threshold then [p.0] else []
  {
    assert [p][1..] == [];
  }

  lemma StrongSplit(before: seq<(Doc, real)>, p: (Doc, real), after: seq<(Doc, real)>)
    ensures Strong(before + [p] + after) == Strong(before) + Strong([p]) + Strong(after)
  {
    StrongAppend(before + [p], after);
    StrongAppend(before, [p]);
  }

  lemma SplitAt(w: seq<(Doc, real)>, i: nat)
    requires i < |w|
    ensures w == w[..i] + [w[i]] + w[i + 1..]
  {
  }

  /** A match scoring at most the threshold (0.2 exactly, or 0.15) is simply
      removed from where it stood. */
  lemma StrongDropsWeak(withScores: seq<(Doc, real)>, i: nat)
    requires i < |withScores| && withScores[i].1 <= Threshold
    ensures Strong(withScores) == Strong(withScores[..i]) + Strong(withScores[i + 1..])
  {
    SplitAt(withScores, i);
    StrongSplit(withScores[..i], withScores[i], withScores[i + 1..]);
    StrongSingle(withScores[i]);
  }

  /** A match scoring above the threshold keeps its place among the survivors. */
  lemma StrongKeepsAbove(withScores: seq<(Doc, real)>, i: nat)
    requires i < |withScores| && withScores[i].1 > Threshold
    ensures Strong(withScores) == Strong(withScores[..i]) + [withScores[i].0] + Strong(withScores[i + 1..])
  {
    SplitAt(withScores, i);
    StrongSplit(withScores[..i], withScores[i], withScores[i + 1..]);
    StrongSingle(withScores[i]);
  }
}
