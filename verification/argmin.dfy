/** The first-strict-minimum scan that every chooser of the encoder runs:

      best := start
      for i, v := range scores { if v < best.score { best = (i, v) } }

    `start` is the value kept when no score beats it: (-1, MaxFloat64) in ChooseSolid,
    (0, MaxFloat64) in chooseColor and GetColorIndex, (oldSeg, its distance) in calcSegments. */
module ArgMin {

  datatype Pick = Pick(index: int, score: real)

  /** Some score is strictly below the starting score. */
  predicate Beaten(s: seq<real>, start: Pick)
  {
    exists j :: 0 <= j < |s| && s[j] < start.score
  }

  /** The state of the scan after all of `s`. */
  function FirstMin(s: seq<real>, start: Pick): (p: Pick)
    ensures p.score <= start.score
    ensures forall j :: 0 <= j < |s| ==> p.score <= s[j]
    ensures !Beaten(s, start) ==> p == start
    ensures Beaten(s, start) ==>
              && 0 <= p.index < |s|
              && s[p.index] == p.score
              && p.score < start.score
              && forall j :: 0 <= j < p.index ==> p.score < s[j]
  {
    if |s| == 0 then start
    else
      var p := FirstMin(s[..|s| - 1], start);
      assert forall j :: 0 <= j < |s| - 1 ==> s[..|s| - 1][j] == s[j];
      if s[|s| - 1] < p.score then Pick(|s| - 1, s[|s| - 1]) else p
  }

  /** Starting from the head of the sequence itself (the `a == 1 ||` guard of Run) the scan
      finds the first index holding the minimum. */
  lemma FirstMinFromHead(s: seq<real>)
    requires |s| > 0
    ensures var p := FirstMin(s, Pick(0, s[0]));
            && 0 <= p.index < |s|
            && p.score == s[p.index]
            && (forall j :: 0 <= j < |s| ==> p.score <= s[j])
            && (forall j :: 0 <= j < p.index ==> p.score < s[j])
  {
  }

  /** What a scan from the head found, named: its pick q is the first index holding the minimum. */
  lemma HeadScanIs(s: seq<real>, q: Pick)
    requires |s| > 0 && FirstMin(s, Pick(0, s[0])) == q
    ensures 0 <= q.index < |s| && q.score == s[q.index]
    ensures forall j :: 0 <= j < |s| ==> q.score <= s[j]
    ensures forall j :: 0 <= j < q.index ==> q.score < s[j]
  {
    FirstMinFromHead(s);
  }

  /** The scan's result is determined by its specification: any pick with the first-minimum
      properties is the one the scan returns. */
  lemma {:induction false} FirstMinUnique(s: seq<real>, start: Pick, q: Pick)
    requires Beaten(s, start)
    requires 0 <= q.index < |s| && s[q.index] == q.score
    requires forall j :: 0 <= j < |s| ==> q.score <= s[j]
    requires forall j :: 0 <= j < q.index ==> q.score < s[j]
    ensures FirstMin(s, start) == q
  {
    var p := FirstMin(s, start);
    assert p.score <= s[q.index] && q.score <= s[p.index];
  }
}
