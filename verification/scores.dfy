/** `scoreToName` and `icons.overallScore` (extension.js): the icon name of a
    change from its approvals. Per approval type the code keeps one score,
    `null` until a scoring approval arrives; JavaScript compares `null` as 0. */
module Scores {
  import opened Common

  datatype Approval = Approval(typ: string, value: string)

  /** One entry of `scoresByType`, in insertion order; `None` is `null`. */
  datatype ScoreEntry = ScoreEntry(typ: string, score: Option<int>)

  const Verified: string := "Verified"

  function ScoreToName(score: Option<int>): (name: Option<string>)
    ensures name.Some? <==> score in {Some(-2), Some(-1), Some(1), Some(2)}
  {
    match score
    case Some(-2) => Some("minus-two")
    case Some(-1) => Some("minus-one")
    case Some(1) => Some("plus-one")
    case Some(2) => Some("plus-two")
    case _ => None
  }

  /** The icon names back to the scores they stand for. */
  function NameToScore(name: string): Option<int> {
    if name == "minus-two" then Some(-2)
    else if name == "minus-one" then Some(-1)
    else if name == "plus-one" then Some(1)
    else if name == "plus-two" then Some(2)
    else None
  }

  /** Each score has its own name, and the name gives the score back. */
  lemma ScoreNameRoundTrip(score: Option<int>)
    requires ScoreToName(score).Some?
    ensures NameToScore(ScoreToName(score).value) == score
  {
  }

  /** JavaScript's numeric view of a stored score: `null` is 0. */
  function Num(v: Option<int>): int {
    if v.None? then 0 else v.value
  }

  /** The scores the update rule can store. */
  predicate Stored(v: Option<int>) {
    v in {None, Some(-2), Some(-1), Some(1), Some(2)}
  }

  /** The four scores an approval can contribute. */
  predicate Scoring(v: Option<int>) {
    v in {Some(-2), Some(-1), Some(1), Some(2)}
  }

  /** One approval folded into its type's score. */
  function UpdateScore(cur: Option<int>, score: Option<int>): Option<int> {
    if score == Some(-2) || cur == Some(-2) then Some(-2)
    else if score == Some(-1) && Num(cur) < 2 then Some(-1)
    else if score == Some(1) && Num(cur) < 2 && Num(cur) > -1 then Some(1)
    else if score == Some(2) then Some(2)
    else cur
  }

  /** How strongly a score holds its place: -2 over 2 over -1 over 1 over unset. */
  function Priority(v: Option<int>): nat {
    match v
    case Some(-2) => 4
    case Some(2) => 3
    case Some(-1) => 2
    case Some(1) => 1
    case _ => 0
  }

  /** The update keeps whichever of the two scores has the higher priority;
      anything but -2, -1, 1 and 2 is ignored. */
  lemma UpdateIsPriorityMax(cur: Option<int>, score: Option<int>)
    requires Stored(cur)
    ensures UpdateScore(cur, score) ==
      if Scoring(score) && Priority(score) > Priority(cur) then score else cur
    ensures Stored(UpdateScore(cur, score))
  {
  }

  // ---------------------------------------------------------------------------
  // The approval loop

  function Lookup(scores: seq<ScoreEntry>, typ: string): (r: Option<Option<int>>)
    ensures r.Some? <==> exists i :: 0 <= i < |scores| && scores[i].typ == typ
    decreases |scores|
  {
    if |scores| == 0 then None
    else if scores[0].typ == typ then Some(scores[0].score)
    else Lookup(scores[1..], typ)
  }

  /** Setting a type's score in the insertion-ordered map: replace in place, or append a new type. */
  function SetScore(scores: seq<ScoreEntry>, typ: string, v: Option<int>): (r: seq<ScoreEntry>)
    ensures Lookup(r, typ) == Some(v)
    ensures forall other :: other != typ ==> Lookup(r, other) == Lookup(scores, other)
    ensures |r| == if Lookup(scores, typ).Some? then |scores| else |scores| + 1
    decreases |scores|
  {
    if |scores| == 0 then [ScoreEntry(typ, v)]
    else if scores[0].typ == typ then [ScoreEntry(typ, v)] + scores[1..]
    else [scores[0]] + SetScore(scores[1..], typ, v)
  }

  datatype Tally = Tally(built: bool, failed: bool, scores: seq<ScoreEntry>)

  /** One turn of `approvals.map`. */
  function Step(t: Tally, a: Approval): Tally {
    var built := t.built || a.typ == Verified;
    if t.failed then t.(built := built)
    else
      var score := ParseInt(a.value);
      if a.typ == Verified then t.(built := built, failed := score == Some(-1))
      else
        var scores := if Lookup(t.scores, a.typ).None? then SetScore(t.scores, a.typ, None) else t.scores;
        var cur := Lookup(scores, a.typ).value;
        t.(built := built, scores := SetScore(scores, a.typ, UpdateScore(cur, score)))
  }

  function TallyFrom(t: Tally, approvals: seq<Approval>): Tally
    decreases |approvals|
  {
    if |approvals| == 0 then t else TallyFrom(Step(t, approvals[0]), approvals[1..])
  }

  function Values(scores: seq<ScoreEntry>): seq<Option<int>> {
    seq(|scores|, i requires 0 <= i < |scores| => scores[i].score)
  }

  /** The below-quota fold: starting from null, each score under 2 lowers the
      running minimum, where null counts as 0; other scores are skipped. */
  function MinBelowTwo(acc: Option<int>, vals: seq<Option<int>>): Option<int>
    decreases |vals|
  {
    if |vals| == 0 then acc
    else
      var next := if Num(vals[0]) < 2 then Some(if Num(acc) <= Num(vals[0]) then Num(acc) else Num(vals[0])) else acc;
      MinBelowTwo(next, vals[1..])
  }

  /** The at-quota fold: the minimum of all scores (null counting as 0), seeded
      with the first one, so an empty list throws. */
  function MinAll(vals: seq<Option<int>>): Result<Option<int>> {
    if |vals| == 0 then Thrown("TypeError: Reduce of empty array with no initial value")
    else Ok(MinFrom(vals[0], vals[1..]))
  }

  function MinFrom(acc: Option<int>, vals: seq<Option<int>>): Option<int>
    decreases |vals|
  {
    if |vals| == 0 then acc
    else MinFrom(Some(if Num(acc) <= Num(vals[0]) then Num(acc) else Num(vals[0])), vals[1..])
  }

  /** The icon name from the folded approvals: "building" without a
      "Verified" approval, "failed" on a "Verified" -1, otherwise the name of
      a minimum of the per-type scores (see `BelowQuota` and `AtQuota`). */
  function Icon(t: Tally, approvalNumber: Option<int>): Result<Option<string>> {
    if !t.built then Ok(Some("building"))
    else if t.failed then Ok(Some("failed"))
    else if approvalNumber.Some? && |t.scores| < approvalNumber.value then
      var name := ScoreToName(MinBelowTwo(None, Values(t.scores)));
      Ok(if name.None? then Some("verified") else name)
    else
      match MinAll(Values(t.scores))
      case Thrown(e) => Thrown(e)
      case Ok(m) => Ok(ScoreToName(m))
  }

  /** `icons.overallScore(entry)`: `approvals` is `None` when the entry has
      no current patch set or no approval list, and `approvalNumber` is the
      configured quota after `parseInt` (`None` for `NaN`). */
  function OverallScore(approvals: Option<seq<Approval>>, approvalNumber: Option<int>): Result<Option<string>> {
    Icon(if approvals.None? then Tally(false, false, []) else TallyFrom(Tally(false, false, []), approvals.value),
         approvalNumber)
  }

  // ---------------------------------------------------------------------------
  // What the loop computes

  /** A "Verified" approval has been seen exactly when one is in the list. */
  lemma {:induction false} BuiltSpec(t: Tally, approvals: seq<Approval>)
    ensures TallyFrom(t, approvals).built <==>
      t.built || exists i :: 0 <= i < |approvals| && approvals[i].typ == Verified
    decreases |approvals|
  {
    if |approvals| > 0 {
      BuiltSpec(Step(t, approvals[0]), approvals[1..]);
      assert forall i :: 1 <= i < |approvals| ==> approvals[i] == approvals[1..][i - 1];
    }
  }

  /** The change has failed exactly when some "Verified" approval is -1. */
  lemma {:induction false} FailedSpec(t: Tally, approvals: seq<Approval>)
    ensures TallyFrom(t, approvals).failed <==>
      t.failed || exists i :: 0 <= i < |approvals| && approvals[i].typ == Verified &&
                              ParseInt(approvals[i].value) == Some(-1)
    decreases |approvals|
  {
    if |approvals| > 0 {
      FailedSpec(Step(t, approvals[0]), approvals[1..]);
      assert forall i :: 1 <= i < |approvals| ==> approvals[i] == approvals[1..][i - 1];
    }
  }

  /** Once failed, later approvals leave the per-type scores alone. */
  lemma {:induction false} FrozenAfterFailure(t: Tally, approvals: seq<Approval>)
    requires t.failed
    ensures TallyFrom(t, approvals).scores == t.scores
    decreases |approvals|
  {
    if |approvals| > 0 {
      FrozenAfterFailure(Step(t, approvals[0]), approvals[1..]);
    }
  }

  predicate AllStored(scores: seq<ScoreEntry>) {
    forall i :: 0 <= i < |scores| ==> Stored(scores[i].score)
  }

  lemma {:induction false} LookupStored(scores: seq<ScoreEntry>, typ: string)
    requires AllStored(scores) && Lookup(scores, typ).Some?
    ensures Stored(Lookup(scores, typ).value)
    decreases |scores|
  {
    if scores[0].typ != typ {
      LookupStored(scores[1..], typ);
    }
  }

  lemma {:induction false} SetScoreStored(scores: seq<ScoreEntry>, typ: string, v: Option<int>)
    requires AllStored(scores) && Stored(v)
    ensures AllStored(SetScore(scores, typ, v))
    decreases |scores|
  {
    if |scores| > 0 && scores[0].typ != typ {
      SetScoreStored(scores[1..], typ, v);
    }
  }

  /** Only null, -2, -1, 1 and 2 are ever stored. */
  lemma {:induction false} TallyStored(t: Tally, approvals: seq<Approval>)
    requires AllStored(t.scores)
    ensures AllStored(TallyFrom(t, approvals).scores)
    decreases |approvals|
  {
    if |approvals| > 0 {
      StepStored(t, approvals[0]);
      TallyStored(Step(t, approvals[0]), approvals[1..]);
    }
  }

  /** The parsed scores of the approvals of one type, in order. */
  function ScoresOfType(approvals: seq<Approval>, typ: string): seq<Option<int>>
    decreases |approvals|
  {
    if |approvals| == 0 then []
    else (if approvals[0].typ == typ then [ParseInt(approvals[0].value)] else []) +
         ScoresOfType(approvals[1..], typ)
  }

  /** The higher-priority of two scores, where only scoring values compete. */
  function Pick(cur: Option<int>, x: Option<int>): Option<int> {
    if Scoring(x) && Priority(x) > Priority(cur) then x else cur
  }

  /** The highest-priority score among `cur` and `xs`, as an independent rule. */
  function Best(cur: Option<int>, xs: seq<Option<int>>): Option<int>
    decreases |xs|
  {
    if |xs| == 0 then cur else Best(Pick(cur, xs[0]), xs[1..])
  }

  /** The stored score of a type, `null` when the type has none yet. */
  function Base(scores: seq<ScoreEntry>, typ: string): Option<int> {
    if Lookup(scores, typ).Some? then Lookup(scores, typ).value else None
  }

  lemma StepLookup(t: Tally, a: Approval, typ: string)
    requires typ != Verified && AllStored(t.scores) && !t.failed
    ensures Lookup(Step(t, a).scores, typ) ==
      if a.typ == typ then Some(Pick(Base(t.scores, typ), ParseInt(a.value))) else Lookup(t.scores, typ)
  {
    if a.typ == typ {
      var scores := if Lookup(t.scores, a.typ).None? then SetScore(t.scores, a.typ, None) else t.scores;
      if Lookup(t.scores, a.typ).Some? {
        LookupStored(t.scores, a.typ);
      }
      UpdateIsPriorityMax(Lookup(scores, a.typ).value, ParseInt(a.value));
    }
  }

  /** `Best` has at least the priority of every score it is given, and is one of them. */
  lemma {:induction false} BestIsMax(cur: Option<int>, xs: seq<Option<int>>)
    ensures Priority(Best(cur, xs)) >= Priority(cur)
    ensures forall x :: x in xs && Scoring(x) ==> Priority(Best(cur, xs)) >= Priority(x)
    ensures Best(cur, xs) == cur || Best(cur, xs) in xs
    decreases |xs|
  {
    if |xs| > 0 {
      var next := if Scoring(xs[0]) && Priority(xs[0]) > Priority(cur) then xs[0] else cur;
      BestIsMax(next, xs[1..]);
      assert forall x :: x in xs <==> x == xs[0] || x in xs[1..];
    }
  }

  /** Without a failure, each type's score is the highest-priority score among
      its own approvals: the other types' approvals and the interleaving do
      not matter. */
  lemma {:induction false} ScoreOfType(t: Tally, approvals: seq<Approval>, typ: string)
    requires typ != Verified && AllStored(t.scores)
    requires !TallyFrom(t, approvals).failed
    ensures Lookup(TallyFrom(t, approvals).scores, typ) ==
      if Lookup(t.scores, typ).None? && |ScoresOfType(approvals, typ)| == 0 then None
      else Some(Best(Base(t.scores, typ), ScoresOfType(approvals, typ)))
    decreases |approvals|
  {
    if |approvals| > 0 {
      var a := approvals[0];
      var t1 := Step(t, a);
      if t.failed {
        FailedStays(t, approvals);
      }
      StepStored(t, a);
      ScoreOfType(t1, approvals[1..], typ);
      StepLookup(t, a, typ);
      var xs := ScoresOfType(approvals[1..], typ);
      if a.typ == typ {
        assert ScoresOfType(approvals, typ) == [ParseInt(a.value)] + xs;
        assert Best(Base(t.scores, typ), [ParseInt(a.value)] + xs) == Best(Pick(Base(t.scores, typ), ParseInt(a.value)), xs);
      } else {
        assert ScoresOfType(approvals, typ) == xs;
      }
    }
  }

  lemma {:induction false} FailedStays(t: Tally, approvals: seq<Approval>)
    requires t.failed
    ensures TallyFrom(t, approvals).failed
    decreases |approvals|
  {
    if |approvals| > 0 {
      FailedStays(Step(t, approvals[0]), approvals[1..]);
    }
  }

  lemma StepStored(t: Tally, a: Approval)
    requires AllStored(t.scores)
    ensures AllStored(Step(t, a).scores)
  {
    if !t.failed && a.typ != Verified {
      var scores := if Lookup(t.scores, a.typ).None? then SetScore(t.scores, a.typ, None) else t.scores;
      SetScoreStored(t.scores, a.typ, None);
      LookupStored(scores, a.typ);
      var cur := Lookup(scores, a.typ).value;
      UpdateIsPriorityMax(cur, ParseInt(a.value));
      SetScoreStored(scores, a.typ, UpdateScore(cur, ParseInt(a.value)));
    }
  }

  // ---------------------------------------------------------------------------
  // The two reductions

  /** The most negative stored score, with no negative score counting as 0. */
  function Lowest(vals: seq<Option<int>>): int {
    if Some(-2) in vals then -2 else if Some(-1) in vals then -1 else 0
  }

  lemma {:induction false} MinBelowTwoSpec(acc: Option<int>, vals: seq<Option<int>>)
    requires -2 <= Num(acc) <= 0
    requires forall i :: 0 <= i < |vals| ==> Stored(vals[i])
    ensures Num(MinBelowTwo(acc, vals)) == if Num(acc) <= Lowest(vals) then Num(acc) else Lowest(vals)
    decreases |vals|
  {
    if |vals| > 0 {
      var v := vals[0];
      var next := if Num(v) < 2 then Some(if Num(acc) <= Num(v) then Num(acc) else Num(v)) else acc;
      MinBelowTwoSpec(next, vals[1..]);
      assert forall x :: x in vals <==> x == v || x in vals[1..];
    }
  }

  /** The seeded reduction's minimum always has a name or none, by its value. */
  lemma NameOfLowest(m: Option<int>)
    requires -2 <= Num(m) <= 0
    ensures ScoreToName(m) == if Num(m) == -2 then Some("minus-two") else if Num(m) == -1 then Some("minus-one") else None
  {
  }

  lemma {:induction false} MinFromSpec(acc: Option<int>, vals: seq<Option<int>>)
    ensures Num(MinFrom(acc, vals)) <= Num(acc)
    ensures forall v :: v in vals ==> Num(MinFrom(acc, vals)) <= Num(v)
    ensures Num(MinFrom(acc, vals)) == Num(acc) || exists v :: v in vals && Num(MinFrom(acc, vals)) == Num(v)
    ensures |vals| > 0 ==> MinFrom(acc, vals).Some?
    decreases |vals|
  {
    if |vals| > 0 {
      var next := Some(if Num(acc) <= Num(vals[0]) then Num(acc) else Num(vals[0]));
      MinFromSpec(next, vals[1..]);
      assert forall x :: x in vals <==> x == vals[0] || x in vals[1..];
    }
  }

  // ---------------------------------------------------------------------------
  // The icon name

  /** With no "Verified" approval the icon is "building", whatever the rest. */
  lemma NotBuiltIsBuilding(approvals: seq<Approval>, approvalNumber: Option<int>)
    requires forall i :: 0 <= i < |approvals| ==> approvals[i].typ != Verified
    ensures OverallScore(Some(approvals), approvalNumber) == Ok(Some("building"))
  {
    BuiltSpec(Tally(false, false, []), approvals);
  }

  /** With a "Verified" -1 among the approvals the icon is "failed". */
  lemma VerifiedMinusOneFails(approvals: seq<Approval>, approvalNumber: Option<int>, k: nat)
    requires k < |approvals| && approvals[k].typ == Verified && ParseInt(approvals[k].value) == Some(-1)
    ensures OverallScore(Some(approvals), approvalNumber) == Ok(Some("failed"))
  {
    BuiltSpec(Tally(false, false, []), approvals);
    FailedSpec(Tally(false, false, []), approvals);
  }

  lemma IconBelowQuota(t: Tally, n: int)
    requires t.built && !t.failed && |t.scores| < n && AllStored(t.scores)
    ensures var vals := Values(t.scores);
      Icon(t, Some(n)) ==
        Ok(Some(if Some(-2) in vals then "minus-two" else if Some(-1) in vals then "minus-one" else "verified"))
  {
    var vals := Values(t.scores);
    MinBelowTwoSpec(None, vals);
    NameOfLowest(MinBelowTwo(None, vals));
  }

  /** Below the approval quota the icon is the minus name of the most negative
      score, or "verified" when no score is negative. */
  lemma BelowQuota(approvals: seq<Approval>, n: int)
    requires var t := TallyFrom(Tally(false, false, []), approvals);
      t.built && !t.failed && |t.scores| < n
    ensures var vals := Values(TallyFrom(Tally(false, false, []), approvals).scores);
      OverallScore(Some(approvals), Some(n)) ==
        Ok(Some(if Some(-2) in vals then "minus-two" else if Some(-1) in vals then "minus-one" else "verified"))
  {
    var t := TallyFrom(Tally(false, false, []), approvals);
    TallyStored(Tally(false, false, []), approvals);
    IconBelowQuota(t, n);
  }

  lemma IconAtQuota(t: Tally, approvalNumber: Option<int>)
    requires t.built && !t.failed && (approvalNumber.None? || |t.scores| >= approvalNumber.value)
    ensures var vals := Values(t.scores);
      var r := Icon(t, approvalNumber);
      (r.Thrown? <==> |vals| == 0) &&
      (|vals| == 1 ==> r == Ok(ScoreToName(vals[0]))) &&
      (|vals| > 1 ==> exists m: int :: r == Ok(ScoreToName(Some(m))) &&
                        (forall v :: v in vals ==> m <= Num(v)) && (exists v :: v in vals && m == Num(v)))
  {
    var vals := Values(t.scores);
    if |vals| > 1 {
      MinFromSpec(vals[0], vals[1..]);
      var m := Num(MinFrom(vals[0], vals[1..]));
      assert forall x :: x in vals <==> x == vals[0] || x in vals[1..];
      assert MinFrom(vals[0], vals[1..]) == Some(m);
    }
  }

  /** At or above the quota (or with no numeric quota) the icon is the name of
      the least score, `null` counting as 0; with no score at all the
      reduction throws, and a single score is taken as it is. */
  lemma AtQuota(approvals: seq<Approval>, approvalNumber: Option<int>)
    requires var t := TallyFrom(Tally(false, false, []), approvals);
      t.built && !t.failed && (approvalNumber.None? || |t.scores| >= approvalNumber.value)
    ensures var vals := Values(TallyFrom(Tally(false, false, []), approvals).scores);
      var r := OverallScore(Some(approvals), approvalNumber);
      (r.Thrown? <==> |vals| == 0) &&
      (|vals| == 1 ==> r == Ok(ScoreToName(vals[0]))) &&
      (|vals| > 1 ==> exists m: int :: r == Ok(ScoreToName(Some(m))) &&
                        (forall v :: v in vals ==> m <= Num(v)) && (exists v :: v in vals && m == Num(v)))
  {
    IconAtQuota(TallyFrom(Tally(false, false, []), approvals), approvalNumber);
  }
}
