/**
 * The scorer: per-section Yes/No/N-A tallies of a submission's answers,
 * counted against a snapshot of the question catalog.
 *
 * `Score` is the scoring loop of the submission handler, written as the
 * loop it is. It is proved against `Scored`, a closed-form description of
 * the result: one tally per section that some scorable answer names, whose
 * counters are the numbers of answers in that section with the matching
 * response. The lemmas below state what the closed form promises: the effect
 * of one more answer, skipping, independence from answer order, and the
 * bound on the sum of all counters.
 */
module Scoring {
  import opened Models

  // ---------------------------------------------------------------------
  // Responses
  // ---------------------------------------------------------------------

  /** Lower-cases one ASCII letter and leaves every other character alone. */
  function LowerChar(c: char): char
  {
    if 'A' <= c <= 'Z' then (c as int - 'A' as int + 'a' as int) as char else c
  }

  /** Lower-cases a string character by character. */
  function ToLower(s: string): string
  {
    seq(|s|, i requires 0 <= i < |s| => LowerChar(s[i]))
  }

  /** What a response adds to a tally. */
  datatype Verdict = Yes | No | NotApplicable | Unrecognised

  /** Lower-casing maps a character to a lower-case letter or '/' exactly from these characters. */
  lemma LowerCharIs(c: char, d: char)
    requires 'a' <= d <= 'z' || d == '/'
    ensures LowerChar(c) == d <==> c == d || ('a' <= d <= 'z' && c as int == d as int - 32)
  {
  }

  /** A lower-cased string equals `w` exactly when it does so character by character. */
  lemma LoweredEquals(s: string, w: string)
    ensures ToLower(s) == w <==> |s| == |w| && forall i :: 0 <= i < |s| ==> LowerChar(s[i]) == w[i]
  {
    if |s| == |w| && forall i :: 0 <= i < |s| ==> LowerChar(s[i]) == w[i] {
      assert ToLower(s) == w;
    }
  }

  /** The spellings that lower-case to "yes", "no" and "n/a". */
  lemma ClassifySpellings(response: string)
    ensures ToLower(response) == "yes" <==>
      |response| == 3 && response[0] in "yY" && response[1] in "eE" && response[2] in "sS"
    ensures ToLower(response) == "no" <==>
      |response| == 2 && response[0] in "nN" && response[1] in "oO"
    ensures ToLower(response) == "n/a" <==>
      |response| == 3 && response[0] in "nN" && response[1] == '/' && response[2] in "aA"
  {
    LoweredEquals(response, "yes");
    LoweredEquals(response, "no");
    LoweredEquals(response, "n/a");
    if |response| >= 2 {
      LowerCharIs(response[0], 'y');
      LowerCharIs(response[0], 'n');
      LowerCharIs(response[1], 'e');
      LowerCharIs(response[1], 'o');
      LowerCharIs(response[1], '/');
    }
    if |response| >= 3 {
      LowerCharIs(response[2], 's');
      LowerCharIs(response[2], 'a');
    }
  }

  /**
   * Case-insensitive recognition of the three canonical responses; every
   * other string is unrecognised. The contract lists exactly the spellings
   * that are accepted.
   */
  function Classify(response: string): (v: Verdict)
    ensures v == Yes <==>
      |response| == 3 && response[0] in "yY" && response[1] in "eE" && response[2] in "sS"
    ensures v == No <==>
      |response| == 2 && response[0] in "nN" && response[1] in "oO"
    ensures v == NotApplicable <==>
      |response| == 3 && response[0] in "nN" && response[1] == '/' && response[2] in "aA"
  {
    ClassifySpellings(response);
    var lowered := ToLower(response);
    if lowered == "yes" then Yes
    else if lowered == "no" then No
    else if lowered == "n/a" then NotApplicable
    else Unrecognised
  }

  // ---------------------------------------------------------------------
  // The closed-form tally
  // ---------------------------------------------------------------------

  /** An answer is scorable when its question is in the catalog and has a section. */
  predicate Scorable(a: Answer, catalog: map<string, Question>)
  {
    a.QuestionId in catalog && catalog[a.QuestionId].SectionId != ""
  }

  /** The answer is scorable and its question belongs to section `id`. */
  predicate InSection(a: Answer, catalog: map<string, Question>, id: string)
  {
    Scorable(a, catalog) && catalog[a.QuestionId].SectionId == id
  }

  /** The answer adds one to counter `v` of section `id`. */
  predicate Counts(a: Answer, catalog: map<string, Question>, id: string, v: Verdict)
  {
    InSection(a, catalog, id) && Classify(a.Response) == v
  }

  /** The answer adds one to some counter of some section. */
  predicate Tallied(a: Answer, catalog: map<string, Question>)
  {
    Scorable(a, catalog) && Classify(a.Response) != Unrecognised
  }

  /** Number of answers that add one to counter `v` of section `id`. */
  function Count(answers: seq<Answer>, catalog: map<string, Question>, id: string, v: Verdict): (n: nat)
    ensures n <= |answers|
  {
    if answers == [] then 0
    else
      Count(answers[..|answers| - 1], catalog, id, v)
        + (if Counts(answers[|answers| - 1], catalog, id, v) then 1 else 0)
  }

  /** The sections named by the scorable answers. */
  function Sections(answers: seq<Answer>, catalog: map<string, Question>): (ids: set<string>)
    ensures "" !in ids
    ensures forall id :: id in ids <==> exists i :: 0 <= i < |answers| && InSection(answers[i], catalog, id)
  {
    if answers == [] then {}
    else
      var init, last := answers[..|answers| - 1], answers[|answers| - 1];
      var ids := Sections(init, catalog) + (if Scorable(last, catalog) then {catalog[last.QuestionId].SectionId} else {});
      assert forall i :: 0 <= i < |init| ==> init[i] == answers[i];
      ids
  }

  /** The tallies the scorer is meant to produce. */
  function Scored(answers: seq<Answer>, catalog: map<string, Question>): map<string, SectionScore>
  {
    map id | id in Sections(answers, catalog) ::
      SectionScore(id, Count(answers, catalog, id, Yes), Count(answers, catalog, id, No),
                   Count(answers, catalog, id, NotApplicable))
  }

  /** Number of answers that add one to some counter. */
  function Recognised(answers: seq<Answer>, catalog: map<string, Question>): (n: nat)
    ensures n <= |answers|
    ensures n == |answers| <==> forall i :: 0 <= i < |answers| ==> Tallied(answers[i], catalog)
  {
    if answers == [] then 0
    else
      var init := answers[..|answers| - 1];
      assert forall i :: 0 <= i < |init| ==> init[i] == answers[i];
      Recognised(init, catalog) + (if Tallied(answers[|answers| - 1], catalog) then 1 else 0)
  }

  /** The effect of one answer on a section's tally (the switch on the lower-cased response). */
  function Record(score: SectionScore, v: Verdict): SectionScore
  {
    match v
    case Yes => score.(YesCount := score.YesCount + 1)
    case No => score.(NoCount := score.NoCount + 1)
    case NotApplicable => score.(NaCount := score.NaCount + 1)
    case Unrecognised => score
  }

  // ---------------------------------------------------------------------
  // The scoring loop
  // ---------------------------------------------------------------------

  /**
   * Walks the answers in order. An answer whose question is unknown or has
   * no section is skipped; otherwise the section's tally is fetched (or
   * created with zero counts), the counter that matches the lower-cased
   * response is incremented, and the tally is stored back, even when the
   * response is unrecognised.
   */
  method Score(answers: seq<Answer>, catalog: map<string, Question>) returns (scores: map<string, SectionScore>)
    ensures scores == Scored(answers, catalog)
    ensures WellKeyed(scores)
    ensures answers == [] ==> scores == map[]
  {
    scores := map[];
    for i := 0 to |answers|
      invariant scores == Scored(answers[..i], catalog)
    {
      var answer := answers[i];
      assert answers[..i + 1] == answers[..i] + [answer];
      ScoredSnoc(answers[..i], answer, catalog);
      if answer.QuestionId !in catalog {
        continue;
      }
      var question := catalog[answer.QuestionId];
      var sectionId := question.SectionId;
      if sectionId == "" {
        continue;
      }
      var score: SectionScore;
      if sectionId in scores {
        score := scores[sectionId];
      } else {
        score := SectionScore(sectionId, 0, 0, 0);
      }
      ghost var fetched := score;
      assert fetched == Fetch(scores, sectionId);
      var lowered := ToLower(answer.Response);
      ghost var verdict := Classify(answer.Response);
      if lowered == "yes" {
        assert verdict == Yes;
        score := score.(YesCount := score.YesCount + 1);
      } else if lowered == "no" {
        assert verdict == No;
        score := score.(NoCount := score.NoCount + 1);
      } else if lowered == "n/a" {
        assert verdict == NotApplicable;
        score := score.(NaCount := score.NaCount + 1);
      } else {
        assert verdict == Unrecognised;
      }
      assert score == Record(fetched, verdict);
      scores := scores[sectionId := score];
    }
    assert answers[..|answers|] == answers;
    ScoredWellKeyed(answers, catalog);
  }

  /**
   * Creates a submission with the given (externally generated) id and
   * timestamp, and attaches the tallies of its answers.
   */
  method NewSubmission(id: string, serviceId: string, userId: string, timestamp: int,
                       answers: seq<Answer>, catalog: map<string, Question>) returns (s: Submission)
    ensures s.Id == id && s.ServiceId == serviceId && s.UserId == userId
    ensures s.Timestamp == timestamp && s.Answers == answers
    ensures s.SectionScores == Scored(answers, catalog)
    ensures WellKeyed(s.SectionScores)
  {
    var scores := Score(answers, catalog);
    s := Submission(id, serviceId, userId, timestamp, answers, scores);
  }

  /** Every tally is stored under its own, non-empty section id. */
  lemma ScoredWellKeyed(answers: seq<Answer>, catalog: map<string, Question>)
    ensures WellKeyed(Scored(answers, catalog))
  {
  }

  // ---------------------------------------------------------------------
  // One more answer
  // ---------------------------------------------------------------------

  /** A section no scorable answer names has all counters zero. */
  lemma {:induction false} CountOutside(answers: seq<Answer>, catalog: map<string, Question>, id: string, v: Verdict)
    requires id !in Sections(answers, catalog)
    ensures Count(answers, catalog, id, v) == 0
  {
    if answers != [] {
      var init := answers[..|answers| - 1];
      assert forall i :: 0 <= i < |init| ==> init[i] == answers[i];
      assert !InSection(answers[|answers| - 1], catalog, id);
      CountOutside(init, catalog, id, v);
    }
  }

  /** Appending an answer adds its own contribution to each counter. */
  lemma CountSnoc(answers: seq<Answer>, a: Answer, catalog: map<string, Question>, id: string, v: Verdict)
    ensures Count(answers + [a], catalog, id, v)
         == Count(answers, catalog, id, v) + (if Counts(a, catalog, id, v) then 1 else 0)
  {
    var xs := answers + [a];
    assert xs[..|xs| - 1] == answers;
  }

  /** Appending an answer adds its section, if it is scorable. */
  lemma SectionsSnoc(answers: seq<Answer>, a: Answer, catalog: map<string, Question>)
    ensures Sections(answers + [a], catalog)
         == Sections(answers, catalog) + (if Scorable(a, catalog) then {catalog[a.QuestionId].SectionId} else {})
  {
    var xs := answers + [a];
    assert xs[..|xs| - 1] == answers;
  }

  /** The stored tally of section `id`, or a fresh one with zero counts. */
  function Fetch(scores: map<string, SectionScore>, id: string): SectionScore
  {
    if id in scores then scores[id] else SectionScore(id, 0, 0, 0)
  }

  /** Appending an answer leaves the tally of a section it does not count in unchanged. */
  lemma ScoredSnocOther(answers: seq<Answer>, a: Answer, catalog: map<string, Question>, k: string)
    requires !InSection(a, catalog, k)
    requires k in Sections(answers + [a], catalog)
    ensures k in Scored(answers, catalog)
    ensures Scored(answers + [a], catalog)[k] == Scored(answers, catalog)[k]
  {
    SectionsSnoc(answers, a, catalog);
    CountSnoc(answers, a, catalog, k, Yes);
    CountSnoc(answers, a, catalog, k, No);
    CountSnoc(answers, a, catalog, k, NotApplicable);
  }

  /** Appending a scorable answer applies its response to the fetched tally of its section. */
  lemma ScoredSnocOwn(answers: seq<Answer>, a: Answer, catalog: map<string, Question>)
    requires Scorable(a, catalog)
    ensures var before, id := Scored(answers, catalog), catalog[a.QuestionId].SectionId;
      id in Scored(answers + [a], catalog) &&
      Scored(answers + [a], catalog)[id] == Record(Fetch(before, id), Classify(a.Response))
  {
    var before, id := Scored(answers, catalog), catalog[a.QuestionId].SectionId;
    SectionsSnoc(answers, a, catalog);
    CountSnoc(answers, a, catalog, id, Yes);
    CountSnoc(answers, a, catalog, id, No);
    CountSnoc(answers, a, catalog, id, NotApplicable);
    if id !in before {
      CountOutside(answers, catalog, id, Yes);
      CountOutside(answers, catalog, id, No);
      CountOutside(answers, catalog, id, NotApplicable);
    }
  }

  /** Two tally maps with the same keys and the same tally under each key are equal. */
  lemma SameTallies(m1: map<string, SectionScore>, m2: map<string, SectionScore>)
    requires m1.Keys == m2.Keys
    requires forall k | k in m1 :: m1[k] == m2[k]
    ensures m1 == m2
  {
  }

  /** Appending an answer that is not scorable leaves the tallies unchanged. */
  lemma ScoredSnocSkip(answers: seq<Answer>, a: Answer, catalog: map<string, Question>)
    requires !Scorable(a, catalog)
    ensures Scored(answers + [a], catalog) == Scored(answers, catalog)
  {
    var before, after := Scored(answers, catalog), Scored(answers + [a], catalog);
    SectionsSnoc(answers, a, catalog);
    forall k | k in after
      ensures after[k] == before[k]
    {
      ScoredSnocOther(answers, a, catalog, k);
    }
    SameTallies(after, before);
  }

  /** Appending a scorable answer applies its response to its section's tally. */
  lemma ScoredSnocScorable(answers: seq<Answer>, a: Answer, catalog: map<string, Question>)
    requires Scorable(a, catalog)
    ensures var before, id := Scored(answers, catalog), catalog[a.QuestionId].SectionId;
      Scored(answers + [a], catalog) == before[id := Record(Fetch(before, id), Classify(a.Response))]
  {
    var before, after := Scored(answers, catalog), Scored(answers + [a], catalog);
    var id := catalog[a.QuestionId].SectionId;
    var expected := before[id := Record(Fetch(before, id), Classify(a.Response))];
    SectionsSnoc(answers, a, catalog);
    ScoredSnocOwn(answers, a, catalog);
    forall k | k in after
      ensures after[k] == expected[k]
    {
      if k != id {
        ScoredSnocOther(answers, a, catalog, k);
      }
    }
    SameTallies(after, expected);
  }

  /**
   * Appending one answer: an answer that is not scorable leaves the tallies
   * unchanged; a scorable one fetches its section's tally (zero counts if
   * new), applies its response, and stores it back under the section id.
   */
  lemma ScoredSnoc(answers: seq<Answer>, a: Answer, catalog: map<string, Question>)
    ensures !Scorable(a, catalog) ==> Scored(answers + [a], catalog) == Scored(answers, catalog)
    ensures Scorable(a, catalog) ==>
      var id := catalog[a.QuestionId].SectionId;
      Scored(answers + [a], catalog)
        == Scored(answers, catalog)[id := Record(Fetch(Scored(answers, catalog), id), Classify(a.Response))]
  {
    if Scorable(a, catalog) {
      ScoredSnocScorable(answers, a, catalog);
    } else {
      ScoredSnocSkip(answers, a, catalog);
    }
  }

  // ---------------------------------------------------------------------
  // Skipping and order independence
  // ---------------------------------------------------------------------

  /** Removing one answer from anywhere in the sequence removes exactly its own contribution. */
  lemma {:induction false} CountRemove(xs: seq<Answer>, a: Answer, ys: seq<Answer>,
                                       catalog: map<string, Question>, id: string, v: Verdict)
    ensures Count(xs + [a] + ys, catalog, id, v)
         == Count(xs + ys, catalog, id, v) + (if Counts(a, catalog, id, v) then 1 else 0)
    decreases |ys|
  {
    var whole := xs + [a] + ys;
    if ys == [] {
      assert whole[..|whole| - 1] == xs;
      assert xs + ys == xs;
    } else {
      var init := ys[..|ys| - 1];
      CountRemove(xs, a, init, catalog, id, v);
      assert whole[..|whole| - 1] == xs + [a] + init;
      assert (xs + ys)[..|xs + ys| - 1] == xs + init;
    }
  }

  /** A section is named by the answers with `a` inserted iff it is named without it or by `a`. */
  lemma SectionsRemoveAt(xs: seq<Answer>, a: Answer, ys: seq<Answer>, catalog: map<string, Question>, id: string)
    ensures id in Sections(xs + [a] + ys, catalog) <==>
      id in Sections(xs + ys, catalog) || InSection(a, catalog, id)
  {
    var whole := xs + [a] + ys;
    var rest := xs + ys;
    if id in Sections(whole, catalog) && !InSection(a, catalog, id) {
      var i :| 0 <= i < |whole| && InSection(whole[i], catalog, id);
      if i < |xs| {
        assert rest[i] == whole[i];
      } else {
        assert rest[i - 1] == whole[i];
      }
    }
    if id in Sections(rest, catalog) {
      var i :| 0 <= i < |rest| && InSection(rest[i], catalog, id);
      if i < |xs| {
        assert whole[i] == rest[i];
      } else {
        assert whole[i + 1] == rest[i];
      }
    }
    if InSection(a, catalog, id) {
      assert whole[|xs|] == a;
    }
  }

  /** Removing one answer from anywhere in the sequence removes at most its own section. */
  lemma SectionsRemove(xs: seq<Answer>, a: Answer, ys: seq<Answer>, catalog: map<string, Question>)
    ensures Sections(xs + [a] + ys, catalog)
         == Sections(xs + ys, catalog) + (if Scorable(a, catalog) then {catalog[a.QuestionId].SectionId} else {})
  {
    forall id
      ensures id in Sections(xs + [a] + ys, catalog) <==> id in Sections(xs + ys, catalog) || InSection(a, catalog, id)
    {
      SectionsRemoveAt(xs, a, ys, catalog, id);
    }
  }

  /**
   * An answer that is not scorable, wherever it stands, contributes nothing:
   * the answers after it are still tallied as if it were absent.
   */
  lemma ScoredSkips(xs: seq<Answer>, a: Answer, ys: seq<Answer>, catalog: map<string, Question>)
    requires !Scorable(a, catalog)
    ensures Scored(xs + [a] + ys, catalog) == Scored(xs + ys, catalog)
  {
    SectionsRemove(xs, a, ys, catalog);
    forall id | id in Sections(xs + ys, catalog)
      ensures Scored(xs + [a] + ys, catalog)[id] == Scored(xs + ys, catalog)[id]
    {
      CountRemove(xs, a, ys, catalog, id, Yes);
      CountRemove(xs, a, ys, catalog, id, No);
      CountRemove(xs, a, ys, catalog, id, NotApplicable);
    }
  }

  /** Taking element `j` out of a sequence takes it out of the multiset. */
  lemma RemoveAt<T>(ys: seq<T>, j: nat)
    requires j < |ys|
    ensures ys == ys[..j] + [ys[j]] + ys[j + 1..]
    ensures multiset(ys[..j] + ys[j + 1..]) == multiset(ys) - multiset{ys[j]}
  {
    assert ys == ys[..j] + [ys[j]] + ys[j + 1..];
    assert multiset(ys) == multiset(ys[..j]) + multiset{ys[j]} + multiset(ys[j + 1..]);
  }

  /** Counters depend only on which answers there are, not on their order. */
  lemma {:induction false} CountPermutation(xs: seq<Answer>, ys: seq<Answer>,
                                            catalog: map<string, Question>, id: string, v: Verdict)
    requires multiset(xs) == multiset(ys)
    ensures Count(xs, catalog, id, v) == Count(ys, catalog, id, v)
    decreases |xs|
  {
    if xs == [] {
      assert |ys| == |multiset(ys)| == 0;
    } else {
      var init, a := xs[..|xs| - 1], xs[|xs| - 1];
      assert xs == init + [a];
      assert multiset(xs) == multiset(init) + multiset{a};
      assert a in multiset(ys);
      var j :| 0 <= j < |ys| && ys[j] == a;
      RemoveAt(ys, j);
      CountPermutation(init, ys[..j] + ys[j + 1..], catalog, id, v);
      CountSnoc(init, a, catalog, id, v);
      CountRemove(ys[..j], a, ys[j + 1..], catalog, id, v);
    }
  }

  /** The set of sections depends only on which answers there are, not on their order. */
  lemma {:induction false} SectionsPermutation(xs: seq<Answer>, ys: seq<Answer>, catalog: map<string, Question>)
    requires multiset(xs) == multiset(ys)
    ensures Sections(xs, catalog) == Sections(ys, catalog)
  {
    forall id ensures id in Sections(xs, catalog) ==> id in Sections(ys, catalog) {
      if id in Sections(xs, catalog) {
        var i :| 0 <= i < |xs| && InSection(xs[i], catalog, id);
        assert xs[i] in multiset(ys);
        var j :| 0 <= j < |ys| && ys[j] == xs[i];
      }
    }
    forall id ensures id in Sections(ys, catalog) ==> id in Sections(xs, catalog) {
      if id in Sections(ys, catalog) {
        var j :| 0 <= j < |ys| && InSection(ys[j], catalog, id);
        assert ys[j] in multiset(xs);
        var i :| 0 <= i < |xs| && xs[i] == ys[j];
      }
    }
  }

  /** The tallies do not depend on the order in which the answers are walked. */
  lemma ScoredOrderIndependent(xs: seq<Answer>, ys: seq<Answer>, catalog: map<string, Question>)
    requires multiset(xs) == multiset(ys)
    ensures Scored(xs, catalog) == Scored(ys, catalog)
  {
    SectionsPermutation(xs, ys, catalog);
    forall id | id in Sections(xs, catalog)
      ensures Scored(xs, catalog)[id] == Scored(ys, catalog)[id]
    {
      CountPermutation(xs, ys, catalog, id, Yes);
      CountPermutation(xs, ys, catalog, id, No);
      CountPermutation(xs, ys, catalog, id, NotApplicable);
    }
  }

  // ---------------------------------------------------------------------
  // Sum of all counters
  // ---------------------------------------------------------------------

  /** Sum of the counters of the tallies stored under `ids`. */
  ghost function SumTotals(scores: map<string, SectionScore>, ids: set<string>): int
    requires ids <= scores.Keys
    decreases ids
  {
    if ids == {} then 0
    else
      var id :| id in ids;
      Total(scores[id]) + SumTotals(scores, ids - {id})
  }

  /** Sum of all counters of all tallies. */
  ghost function GrandTotal(scores: map<string, SectionScore>): int
  {
    SumTotals(scores, scores.Keys)
  }

  /** The sum does not depend on which key is taken first. */
  lemma {:induction false} SumTotalsPick(scores: map<string, SectionScore>, ids: set<string>, id: string)
    requires ids <= scores.Keys && id in ids
    ensures SumTotals(scores, ids) == Total(scores[id]) + SumTotals(scores, ids - {id})
    decreases ids
  {
    var j :| j in ids && SumTotals(scores, ids) == Total(scores[j]) + SumTotals(scores, ids - {j});
    if j != id {
      SumTotalsPick(scores, ids - {j}, id);
      SumTotalsPick(scores, ids - {id}, j);
      assert ids - {j} - {id} == ids - {id} - {j};
    }
  }

  /** Two maps whose tallies have the same totals on `ids` have the same sum there. */
  lemma {:induction false} SumTotalsAgree(m1: map<string, SectionScore>, m2: map<string, SectionScore>, ids: set<string>)
    requires ids <= m1.Keys && ids <= m2.Keys
    requires forall id :: id in ids ==> Total(m1[id]) == Total(m2[id])
    ensures SumTotals(m1, ids) == SumTotals(m2, ids)
    decreases ids
  {
    if ids != {} {
      var id :| id in ids;
      SumTotalsPick(m1, ids, id);
      SumTotalsPick(m2, ids, id);
      SumTotalsAgree(m1, m2, ids - {id});
    }
  }

  /** Storing a tally changes the grand total by the difference it makes at its key. */
  lemma GrandTotalUpdate(scores: map<string, SectionScore>, id: string, s: SectionScore)
    ensures GrandTotal(scores[id := s])
         == GrandTotal(scores) - (if id in scores then Total(scores[id]) else 0) + Total(s)
  {
    var updated := scores[id := s];
    SumTotalsPick(updated, updated.Keys, id);
    assert updated.Keys - {id} == scores.Keys - {id};
    SumTotalsAgree(updated, scores, scores.Keys - {id});
    if id in scores {
      SumTotalsPick(scores, scores.Keys, id);
    } else {
      assert scores.Keys - {id} == scores.Keys;
    }
  }

  /** The counters of all sections together count exactly the tallied answers. */
  lemma {:induction false} ScoredGrandTotal(answers: seq<Answer>, catalog: map<string, Question>)
    ensures GrandTotal(Scored(answers, catalog)) == Recognised(answers, catalog)
  {
    if answers == [] {
      assert Scored(answers, catalog) == map[];
    } else {
      var init, a := answers[..|answers| - 1], answers[|answers| - 1];
      assert answers == init + [a];
      ScoredGrandTotal(init, catalog);
      ScoredSnoc(init, a, catalog);
      if Scorable(a, catalog) {
        var id := catalog[a.QuestionId].SectionId;
        var scores := Scored(init, catalog);
        GrandTotalUpdate(scores, id, Record(Fetch(scores, id), Classify(a.Response)));
      }
    }
  }

  /**
   * The sum of all counters over all sections is at most the number of
   * answers, and equals it exactly when every answer names a known question
   * with a section and gives a recognised response.
   */
  lemma ScoredTotalBound(answers: seq<Answer>, catalog: map<string, Question>)
    ensures GrandTotal(Scored(answers, catalog)) <= |answers|
    ensures GrandTotal(Scored(answers, catalog)) == |answers|
        <==> forall i :: 0 <= i < |answers| ==> Tallied(answers[i], catalog)
  {
    ScoredGrandTotal(answers, catalog);
  }
}
