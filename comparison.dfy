/**
 * The comparator: a report of what changed between an old and a new
 * submission of one service, and the choice of which of two submissions is
 * the old one.
 *
 * `GenerateComparisonReport` is written as the loops it is. Map iteration
 * order is unspecified, so every loop over a map's keys takes the next key
 * by an arbitrary choice (`:|`) from the keys not yet visited; the contract
 * holds whatever order the choices make. It is proved against
 * `IsComparisonReport`, which says what each part of the report holds; the
 * lemmas below derive the partition of question ids, the last-seen-wins
 * reading of the answers, the old/new symmetry and the section ids of the
 * compared tallies.
 */
module Comparison {
  import opened Models

  // ---------------------------------------------------------------------
  // Answer lookup maps
  // ---------------------------------------------------------------------

  /** Question ids answered somewhere in `answers`. */
  function AnsweredIds(answers: seq<Answer>): set<string>
  {
    set i | 0 <= i < |answers| :: answers[i].QuestionId
  }

  /** Question id to response, built in order so that a later answer overwrites an earlier one. */
  function AnswerMap(answers: seq<Answer>): (m: map<string, string>)
    ensures m.Keys == AnsweredIds(answers)
  {
    if answers == [] then map[]
    else
      var init, last := answers[..|answers| - 1], answers[|answers| - 1];
      assert forall i :: 0 <= i < |init| ==> init[i] == answers[i];
      assert AnsweredIds(answers) == AnsweredIds(init) + {last.QuestionId};
      AnswerMap(init)[last.QuestionId := last.Response]
  }

  /** `i` is the position of the last answer to question `q`. */
  ghost predicate LastAnswerAt(answers: seq<Answer>, q: string, i: int)
  {
    0 <= i < |answers| && answers[i].QuestionId == q
    && forall j :: i < j < |answers| ==> answers[j].QuestionId != q
  }

  /** Last-seen-wins: the map holds, for each answered question, the response of its last answer. */
  lemma {:induction false} AnswerMapLastSeen(answers: seq<Answer>, q: string)
    requires q in AnswerMap(answers)
    ensures exists i :: LastAnswerAt(answers, q, i) && AnswerMap(answers)[q] == answers[i].Response
  {
    var init, last := answers[..|answers| - 1], answers[|answers| - 1];
    if last.QuestionId == q {
      assert LastAnswerAt(answers, q, |answers| - 1);
    } else {
      assert q in AnswerMap(init);
      AnswerMapLastSeen(init, q);
      var i :| LastAnswerAt(init, q, i) && AnswerMap(init)[q] == init[i].Response;
      assert LastAnswerAt(answers, q, i);
    }
  }

  // ---------------------------------------------------------------------
  // What the report holds
  // ---------------------------------------------------------------------

  /** The catalog text of question `q`, or "" when the question is unknown. */
  function QuestionText(catalog: map<string, Question>, q: string): string
  {
    if q in catalog then catalog[q].Text else ""
  }

  /** The response to `q` in a lookup map, or "" (not answered) when absent. */
  function ResponseOr(answers: map<string, string>, q: string): string
  {
    if q in answers then answers[q] else ""
  }

  /** The detail line reported for question `q`. */
  function DetailFor(q: string, oldAnswers: map<string, string>, newAnswers: map<string, string>,
                     catalog: map<string, Question>): AnswerChangeDetail
  {
    AnswerChangeDetail(q, QuestionText(catalog, q), ResponseOr(oldAnswers, q), ResponseOr(newAnswers, q))
  }

  /** Questions answered on both sides with different responses (exact, case-sensitive comparison). */
  function ChangedIds(oldAnswers: map<string, string>, newAnswers: map<string, string>): set<string>
  {
    set q | q in oldAnswers && q in newAnswers && oldAnswers[q] != newAnswers[q]
  }

  /** The question ids of a list of details. */
  function IdsOf(details: seq<AnswerChangeDetail>): set<string>
  {
    set d | d in details :: d.QuestionId
  }

  /**
   * `details` lists each question of `ids` exactly once, in any order, each
   * with its own detail line, and nothing else.
   */
  ghost predicate Lists(details: seq<AnswerChangeDetail>, ids: set<string>,
                        oldAnswers: map<string, string>, newAnswers: map<string, string>,
                        catalog: map<string, Question>)
  {
    && IdsOf(details) == ids
    && (forall i, j :: 0 <= i < j < |details| ==> details[i].QuestionId != details[j].QuestionId)
    && (forall d :: d in details ==> d == DetailFor(d.QuestionId, oldAnswers, newAnswers, catalog))
  }

  /** The tally stored for section `id`, or the zero value (with an empty section id) when absent. */
  function ScoreOrZero(scores: map<string, SectionScore>, id: string): SectionScore
  {
    if id in scores then scores[id] else ZeroScore
  }

  /**
   * The report of `oldSub` against `newSub`:
   * - the header is copied from the arguments;
   * - the section comparison has exactly the union of both submissions'
   *   section ids as keys, each pairing the two stored tallies (the zero
   *   value on a side that lacks the section);
   * - AnswerChanges lists the questions answered on both sides with
   *   different responses, NoLongerAnsweredQuestions those answered only in
   *   the old one, NewlyAnsweredQuestions those answered only in the new one.
   */
  ghost predicate IsComparisonReport(r: ComparisonReport, oldSub: Submission, newSub: Submission,
                                     catalog: map<string, Question>, serviceId: string)
  {
    var oldAnswers, newAnswers := AnswerMap(oldSub.Answers), AnswerMap(newSub.Answers);
    && r.ServiceId == serviceId
    && r.SubmissionIdOld == oldSub.Id
    && r.SubmissionIdNew == newSub.Id
    && r.SectionComparison.Keys == oldSub.SectionScores.Keys + newSub.SectionScores.Keys
    && (forall id :: id in r.SectionComparison ==>
          r.SectionComparison[id]
            == SectionScoreComparison(ScoreOrZero(oldSub.SectionScores, id), ScoreOrZero(newSub.SectionScores, id)))
    && Lists(r.AnswerChanges, ChangedIds(oldAnswers, newAnswers), oldAnswers, newAnswers, catalog)
    && Lists(r.NoLongerAnsweredQuestions, oldAnswers.Keys - newAnswers.Keys, oldAnswers, newAnswers, catalog)
    && Lists(r.NewlyAnsweredQuestions, newAnswers.Keys - oldAnswers.Keys, oldAnswers, newAnswers, catalog)
  }

  /** Appending a detail adds its question id. */
  lemma IdsOfSnoc(details: seq<AnswerChangeDetail>, d: AnswerChangeDetail)
    ensures IdsOf(details + [d]) == IdsOf(details) + {d.QuestionId}
  {
    var longer := details + [d];
    forall x | x in longer ensures x in details || x == d {
    }
    assert d in longer;
    forall x | x in details ensures x in longer {
    }
  }

  /** Appending the detail of a question not yet listed keeps the list exact. */
  lemma ListsAppend(details: seq<AnswerChangeDetail>, ids: set<string>, q: string,
                    oldAnswers: map<string, string>, newAnswers: map<string, string>,
                    catalog: map<string, Question>)
    requires Lists(details, ids, oldAnswers, newAnswers, catalog)
    requires q !in ids
    ensures Lists(details + [DetailFor(q, oldAnswers, newAnswers, catalog)], ids + {q},
                  oldAnswers, newAnswers, catalog)
  {
    var d := DetailFor(q, oldAnswers, newAnswers, catalog);
    var longer := details + [d];
    IdsOfSnoc(details, d);
    forall i, j | 0 <= i < j < |longer| ensures longer[i].QuestionId != longer[j].QuestionId {
      if j == |details| {
        assert longer[i] in details;
      }
    }
  }

  // ---------------------------------------------------------------------
  // The comparison
  // ---------------------------------------------------------------------

  /**
   * Section comparison: collects the section ids of both tally maps, then
   * pairs the two tallies of each (the zero value on a side that lacks it).
   */
  method CompareSections(oldScores: map<string, SectionScore>, newScores: map<string, SectionScore>)
    returns (sectionComparison: map<string, SectionScoreComparison>)
    ensures sectionComparison.Keys == oldScores.Keys + newScores.Keys
    ensures forall id :: id in sectionComparison ==>
      sectionComparison[id] == SectionScoreComparison(ScoreOrZero(oldScores, id), ScoreOrZero(newScores, id))
  {
    var allSectionIds: set<string> := {};
    var pending := oldScores.Keys;
    while pending != {}
      invariant pending <= oldScores.Keys
      invariant allSectionIds == oldScores.Keys - pending
      decreases pending
    {
      var id :| id in pending;
      allSectionIds := allSectionIds + {id};
      pending := pending - {id};
    }
    pending := newScores.Keys;
    while pending != {}
      invariant pending <= newScores.Keys
      invariant allSectionIds == oldScores.Keys + (newScores.Keys - pending)
      decreases pending
    {
      var id :| id in pending;
      allSectionIds := allSectionIds + {id};
      pending := pending - {id};
    }

    sectionComparison := map[];
    pending := allSectionIds;
    while pending != {}
      invariant pending <= allSectionIds
      invariant sectionComparison.Keys == allSectionIds - pending
      invariant forall id :: id in sectionComparison ==>
        sectionComparison[id] == SectionScoreComparison(ScoreOrZero(oldScores, id), ScoreOrZero(newScores, id))
      decreases pending
    {
      var secId :| secId in pending;
      var oldScore := if secId in oldScores then oldScores[secId] else ZeroScore;
      var newScore := if secId in newScores then newScores[secId] else ZeroScore;
      sectionComparison := sectionComparison[secId := SectionScoreComparison(oldScore, newScore)];
      pending := pending - {secId};
    }
  }

  /** Builds the lookup map of a submission's answers in order, so that the last answer to a question wins. */
  method BuildAnswerMap(answers: seq<Answer>) returns (m: map<string, string>)
    ensures m == AnswerMap(answers)
    ensures m.Keys == AnsweredIds(answers)
    ensures forall q :: q in m ==> exists i :: LastAnswerAt(answers, q, i) && m[q] == answers[i].Response
  {
    m := map[];
    for i := 0 to |answers|
      invariant m == AnswerMap(answers[..i])
    {
      assert answers[..i + 1][..i] == answers[..i];
      m := m[answers[i].QuestionId := answers[i].Response];
    }
    assert answers[..|answers|] == answers;
    forall q | q in m
      ensures exists i :: LastAnswerAt(answers, q, i) && m[q] == answers[i].Response
    {
      AnswerMapLastSeen(answers, q);
    }
  }

  /**
   * Walks the questions of the old lookup map: one answered differently in
   * the new map goes to the answer changes, one missing from it to the no
   * longer answered questions, one answered identically nowhere.
   */
  method ListOldAnswers(oldAnswers: map<string, string>, newAnswers: map<string, string>,
                        allQuestions: map<string, Question>)
    returns (answerChanges: seq<AnswerChangeDetail>, noLongerAnswered: seq<AnswerChangeDetail>)
    ensures Lists(answerChanges, ChangedIds(oldAnswers, newAnswers), oldAnswers, newAnswers, allQuestions)
    ensures Lists(noLongerAnswered, oldAnswers.Keys - newAnswers.Keys, oldAnswers, newAnswers, allQuestions)
  {
    answerChanges, noLongerAnswered := [], [];
    var pendingIds := oldAnswers.Keys;
    while pendingIds != {}
      invariant pendingIds <= oldAnswers.Keys
      invariant Lists(answerChanges, ChangedIds(oldAnswers, newAnswers) - pendingIds,
                      oldAnswers, newAnswers, allQuestions)
      invariant Lists(noLongerAnswered, oldAnswers.Keys - newAnswers.Keys - pendingIds,
                      oldAnswers, newAnswers, allQuestions)
      decreases pendingIds
    {
      var qId :| qId in pendingIds;
      var oldResp := oldAnswers[qId];
      var questionText := "";
      if qId in allQuestions {
        questionText := allQuestions[qId].Text;
      }
      if qId in newAnswers {
        var newResp := newAnswers[qId];
        if oldResp != newResp {
          ListsAppend(answerChanges, ChangedIds(oldAnswers, newAnswers) - pendingIds, qId,
                      oldAnswers, newAnswers, allQuestions);
          answerChanges := answerChanges + [AnswerChangeDetail(qId, questionText, oldResp, newResp)];
        }
      } else {
        ListsAppend(noLongerAnswered, oldAnswers.Keys - newAnswers.Keys - pendingIds, qId,
                    oldAnswers, newAnswers, allQuestions);
        noLongerAnswered := noLongerAnswered + [AnswerChangeDetail(qId, questionText, oldResp, "")];
      }
      pendingIds := pendingIds - {qId};
    }
  }

  /** Walks the questions of the new lookup map: one missing from the old map is newly answered. */
  method ListNewAnswers(oldAnswers: map<string, string>, newAnswers: map<string, string>,
                        allQuestions: map<string, Question>)
    returns (newlyAnswered: seq<AnswerChangeDetail>)
    ensures Lists(newlyAnswered, newAnswers.Keys - oldAnswers.Keys, oldAnswers, newAnswers, allQuestions)
  {
    newlyAnswered := [];
    var pendingIds := newAnswers.Keys;
    while pendingIds != {}
      invariant pendingIds <= newAnswers.Keys
      invariant Lists(newlyAnswered, newAnswers.Keys - oldAnswers.Keys - pendingIds,
                      oldAnswers, newAnswers, allQuestions)
      decreases pendingIds
    {
      var qId :| qId in pendingIds;
      var newResp := newAnswers[qId];
      var questionText := "";
      if qId in allQuestions {
        questionText := allQuestions[qId].Text;
      }
      if qId !in oldAnswers {
        ListsAppend(newlyAnswered, newAnswers.Keys - oldAnswers.Keys - pendingIds, qId,
                    oldAnswers, newAnswers, allQuestions);
        newlyAnswered := newlyAnswered + [AnswerChangeDetail(qId, questionText, "", newResp)];
      }
      pendingIds := pendingIds - {qId};
    }
  }

  /**
   * Compares `oldSub` with `newSub`. The arguments are taken positionally:
   * which one is older is decided by the caller.
   */
  method GenerateComparisonReport(oldSub: Submission, newSub: Submission,
                                  allQuestions: map<string, Question>, serviceId: string)
    returns (report: ComparisonReport)
    ensures IsComparisonReport(report, oldSub, newSub, allQuestions, serviceId)
  {
    var sectionComparison := CompareSections(oldSub.SectionScores, newSub.SectionScores);
    var oldAnswers := BuildAnswerMap(oldSub.Answers);
    var newAnswers := BuildAnswerMap(newSub.Answers);
    var answerChanges, noLongerAnswered := ListOldAnswers(oldAnswers, newAnswers, allQuestions);
    var newlyAnswered := ListNewAnswers(oldAnswers, newAnswers, allQuestions);
    report := ComparisonReport(serviceId, oldSub.Id, newSub.Id, sectionComparison,
                               answerChanges, newlyAnswered, noLongerAnswered);
  }

  // ---------------------------------------------------------------------
  // Which submission is old
  // ---------------------------------------------------------------------

  /**
   * Orders two submissions as (old, new): the first is old only when its
   * timestamp is strictly earlier; on a tie the second one is old.
   */
  function Chronological(sub1: Submission, sub2: Submission): (pair: (Submission, Submission))
    ensures pair.0.Timestamp <= pair.1.Timestamp
    ensures multiset{pair.0, pair.1} == multiset{sub1, sub2}
    ensures sub1.Timestamp == sub2.Timestamp ==> pair == (sub2, sub1)
  {
    if sub1.Timestamp < sub2.Timestamp then (sub1, sub2) else (sub2, sub1)
  }

  /**
   * Compares two submissions fetched in request order: decides which is old
   * by timestamp, then compares them.
   */
  method CompareSubmissions(sub1: Submission, sub2: Submission,
                            allQuestions: map<string, Question>, serviceId: string)
    returns (report: ComparisonReport)
    ensures IsComparisonReport(report, Chronological(sub1, sub2).0, Chronological(sub1, sub2).1,
                               allQuestions, serviceId)
    ensures report.SubmissionIdOld == (if sub1.Timestamp < sub2.Timestamp then sub1.Id else sub2.Id)
    ensures report.SubmissionIdNew == (if sub1.Timestamp < sub2.Timestamp then sub2.Id else sub1.Id)
  {
    var oldSub, newSub;
    if sub1.Timestamp < sub2.Timestamp {
      oldSub, newSub := sub1, sub2;
    } else {
      oldSub, newSub := sub2, sub1;
    }
    report := GenerateComparisonReport(oldSub, newSub, allQuestions, serviceId);
  }

  // ---------------------------------------------------------------------
  // What every comparison report satisfies
  // ---------------------------------------------------------------------

  /**
   * Partition of question ids: an id lands in the answer changes exactly
   * when both submissions answer it differently, in the no longer answered
   * questions exactly when only the old one answers it, in the newly
   * answered questions exactly when only the new one answers it; hence in
   * at most one list, and in none when both answer it identically or
   * neither answers it.
   */
  lemma ReportPartition(r: ComparisonReport, oldSub: Submission, newSub: Submission,
                        catalog: map<string, Question>, serviceId: string, q: string)
    requires IsComparisonReport(r, oldSub, newSub, catalog, serviceId)
    ensures q in IdsOf(r.AnswerChanges) <==>
      q in AnsweredIds(oldSub.Answers) && q in AnsweredIds(newSub.Answers)
      && AnswerMap(oldSub.Answers)[q] != AnswerMap(newSub.Answers)[q]
    ensures q in IdsOf(r.NoLongerAnsweredQuestions) <==>
      q in AnsweredIds(oldSub.Answers) && q !in AnsweredIds(newSub.Answers)
    ensures q in IdsOf(r.NewlyAnsweredQuestions) <==>
      q !in AnsweredIds(oldSub.Answers) && q in AnsweredIds(newSub.Answers)
    ensures q in IdsOf(r.AnswerChanges) ==>
      q !in IdsOf(r.NoLongerAnsweredQuestions) && q !in IdsOf(r.NewlyAnsweredQuestions)
    ensures q !in IdsOf(r.NoLongerAnsweredQuestions) || q !in IdsOf(r.NewlyAnsweredQuestions)
  {
  }

  /**
   * Each listed detail carries the catalog text and the responses of the
   * last answers to its question on each side, with "" on the side that does
   * not answer it; a change always has two different responses.
   */
  lemma ReportDetails(r: ComparisonReport, oldSub: Submission, newSub: Submission,
                      catalog: map<string, Question>, serviceId: string)
    requires IsComparisonReport(r, oldSub, newSub, catalog, serviceId)
    ensures forall d :: d in r.AnswerChanges ==>
      && d.QuestionText == QuestionText(catalog, d.QuestionId)
      && d.OldAnswer != d.NewAnswer
      && (exists i :: LastAnswerAt(oldSub.Answers, d.QuestionId, i) && d.OldAnswer == oldSub.Answers[i].Response)
      && (exists j :: LastAnswerAt(newSub.Answers, d.QuestionId, j) && d.NewAnswer == newSub.Answers[j].Response)
    ensures forall d :: d in r.NoLongerAnsweredQuestions ==>
      && d.QuestionText == QuestionText(catalog, d.QuestionId)
      && d.NewAnswer == ""
      && (exists i :: LastAnswerAt(oldSub.Answers, d.QuestionId, i) && d.OldAnswer == oldSub.Answers[i].Response)
    ensures forall d :: d in r.NewlyAnsweredQuestions ==>
      && d.QuestionText == QuestionText(catalog, d.QuestionId)
      && d.OldAnswer == ""
      && (exists j :: LastAnswerAt(newSub.Answers, d.QuestionId, j) && d.NewAnswer == newSub.Answers[j].Response)
  {
    var oldAnswers, newAnswers := AnswerMap(oldSub.Answers), AnswerMap(newSub.Answers);
    forall d | d in r.AnswerChanges
      ensures d.OldAnswer != d.NewAnswer
      ensures exists i :: LastAnswerAt(oldSub.Answers, d.QuestionId, i) && d.OldAnswer == oldSub.Answers[i].Response
      ensures exists j :: LastAnswerAt(newSub.Answers, d.QuestionId, j) && d.NewAnswer == newSub.Answers[j].Response
    {
      assert d.QuestionId in IdsOf(r.AnswerChanges);
      AnswerMapLastSeen(oldSub.Answers, d.QuestionId);
      AnswerMapLastSeen(newSub.Answers, d.QuestionId);
    }
    forall d | d in r.NoLongerAnsweredQuestions
      ensures exists i :: LastAnswerAt(oldSub.Answers, d.QuestionId, i) && d.OldAnswer == oldSub.Answers[i].Response
    {
      assert d.QuestionId in IdsOf(r.NoLongerAnsweredQuestions);
      AnswerMapLastSeen(oldSub.Answers, d.QuestionId);
    }
    forall d | d in r.NewlyAnsweredQuestions
      ensures exists j :: LastAnswerAt(newSub.Answers, d.QuestionId, j) && d.NewAnswer == newSub.Answers[j].Response
    {
      assert d.QuestionId in IdsOf(r.NewlyAnsweredQuestions);
      AnswerMapLastSeen(newSub.Answers, d.QuestionId);
    }
  }

  /** A detail with its two sides exchanged. */
  function Swapped(d: AnswerChangeDetail): AnswerChangeDetail
  {
    AnswerChangeDetail(d.QuestionId, d.QuestionText, d.NewAnswer, d.OldAnswer)
  }

  /** A listed detail is the detail of its question. */
  lemma ListedDetail(details: seq<AnswerChangeDetail>, ids: set<string>, q: string,
                     oldAnswers: map<string, string>, newAnswers: map<string, string>,
                     catalog: map<string, Question>)
    requires Lists(details, ids, oldAnswers, newAnswers, catalog)
    requires q in ids
    ensures DetailFor(q, oldAnswers, newAnswers, catalog) in details
  {
    assert q in IdsOf(details);
    var d :| d in details && d.QuestionId == q;
  }

  /**
   * Comparing the other way round swaps old and new: the same questions
   * change, with their two responses exchanged; the newly answered and the
   * no longer answered questions trade places; every section comparison
   * has its two tallies exchanged.
   */
  lemma ReportSwap(r: ComparisonReport, rev: ComparisonReport, a: Submission, b: Submission,
                   catalog: map<string, Question>, serviceId: string)
    requires IsComparisonReport(r, a, b, catalog, serviceId)
    requires IsComparisonReport(rev, b, a, catalog, serviceId)
    ensures IdsOf(rev.AnswerChanges) == IdsOf(r.AnswerChanges)
    ensures forall d :: d in rev.AnswerChanges ==> Swapped(d) in r.AnswerChanges
    ensures IdsOf(rev.NewlyAnsweredQuestions) == IdsOf(r.NoLongerAnsweredQuestions)
    ensures forall d :: d in rev.NewlyAnsweredQuestions ==> Swapped(d) in r.NoLongerAnsweredQuestions
    ensures IdsOf(rev.NoLongerAnsweredQuestions) == IdsOf(r.NewlyAnsweredQuestions)
    ensures forall d :: d in rev.NoLongerAnsweredQuestions ==> Swapped(d) in r.NewlyAnsweredQuestions
    ensures rev.SectionComparison.Keys == r.SectionComparison.Keys
    ensures forall id :: id in r.SectionComparison ==>
      rev.SectionComparison[id]
        == SectionScoreComparison(r.SectionComparison[id].NewScores, r.SectionComparison[id].OldScores)
  {
    var am, bm := AnswerMap(a.Answers), AnswerMap(b.Answers);
    assert ChangedIds(bm, am) == ChangedIds(am, bm);
    forall d | d in rev.AnswerChanges ensures Swapped(d) in r.AnswerChanges {
      assert d.QuestionId in IdsOf(rev.AnswerChanges);
      ListedDetail(r.AnswerChanges, ChangedIds(am, bm), d.QuestionId, am, bm, catalog);
    }
    forall d | d in rev.NewlyAnsweredQuestions ensures Swapped(d) in r.NoLongerAnsweredQuestions {
      assert d.QuestionId in IdsOf(rev.NewlyAnsweredQuestions);
      ListedDetail(r.NoLongerAnsweredQuestions, am.Keys - bm.Keys, d.QuestionId, am, bm, catalog);
    }
    forall d | d in rev.NoLongerAnsweredQuestions ensures Swapped(d) in r.NewlyAnsweredQuestions {
      assert d.QuestionId in IdsOf(rev.NoLongerAnsweredQuestions);
      ListedDetail(r.NewlyAnsweredQuestions, bm.Keys - am.Keys, d.QuestionId, am, bm, catalog);
    }
  }

  /** A list of details is empty exactly when it names no question. */
  lemma EmptyIds(details: seq<AnswerChangeDetail>)
    ensures IdsOf(details) == {} <==> details == []
  {
    if details != [] {
      assert details[0].QuestionId in IdsOf(details);
    }
  }

  /** Two submissions with the same last answers to the same questions yield three empty lists. */
  lemma SameAnswersNoDetails(r: ComparisonReport, oldSub: Submission, newSub: Submission,
                             catalog: map<string, Question>, serviceId: string)
    requires IsComparisonReport(r, oldSub, newSub, catalog, serviceId)
    requires AnswerMap(oldSub.Answers) == AnswerMap(newSub.Answers)
    ensures r.AnswerChanges == [] && r.NoLongerAnsweredQuestions == [] && r.NewlyAnsweredQuestions == []
  {
    EmptyIds(r.AnswerChanges);
    EmptyIds(r.NoLongerAnsweredQuestions);
    EmptyIds(r.NewlyAnsweredQuestions);
  }

  /**
   * For well-keyed tally maps (as the scorer produces), each side of a
   * section comparison is the tally of that very section, or the zero value
   * with an empty section id on the side that lacks it; at least one side
   * names the section.
   */
  lemma ComparedSectionIds(r: ComparisonReport, oldSub: Submission, newSub: Submission,
                           catalog: map<string, Question>, serviceId: string)
    requires IsComparisonReport(r, oldSub, newSub, catalog, serviceId)
    requires WellKeyed(oldSub.SectionScores) && WellKeyed(newSub.SectionScores)
    ensures forall id :: id in r.SectionComparison ==>
      && r.SectionComparison[id].OldScores.SectionId == (if id in oldSub.SectionScores then id else "")
      && r.SectionComparison[id].NewScores.SectionId == (if id in newSub.SectionScores then id else "")
      && (r.SectionComparison[id].OldScores.SectionId == id || r.SectionComparison[id].NewScores.SectionId == id)
  {
  }
}
