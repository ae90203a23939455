/**
 * The table-driven comparison cases of the handler tests, and two scoring
 * cases, stated over every report the comparator may produce. List order is
 * not fixed by the comparator, so a list of two details is pinned down only
 * up to order.
 */
module Scenarios {
  import opened Models
  import opened Scoring
  import opened Comparison

  // ---------------------------------------------------------------------
  // Facts about exact lists
  // ---------------------------------------------------------------------

  /** A list that names each question at most once is as long as the set of questions it names. */
  lemma {:induction false} DistinctIdsCount(details: seq<AnswerChangeDetail>)
    requires forall i, j :: 0 <= i < j < |details| ==> details[i].QuestionId != details[j].QuestionId
    ensures |IdsOf(details)| == |details|
  {
    if details != [] {
      var init, last := details[..|details| - 1], details[|details| - 1];
      assert details == init + [last];
      assert forall i :: 0 <= i < |init| ==> init[i] == details[i];
      IdsOfSnoc(init, last);
      forall d | d in init ensures d.QuestionId != last.QuestionId {
        var i :| 0 <= i < |init| && init[i] == d;
      }
      DistinctIdsCount(init);
    }
  }

  /** An exact list of one question is that question's detail alone. */
  lemma SingletonList(details: seq<AnswerChangeDetail>, q: string,
                      oldAnswers: map<string, string>, newAnswers: map<string, string>,
                      catalog: map<string, Question>)
    requires Lists(details, {q}, oldAnswers, newAnswers, catalog)
    ensures details == [DetailFor(q, oldAnswers, newAnswers, catalog)]
  {
    DistinctIdsCount(details);
    assert details[0] in details;
  }

  /** An exact list of two questions holds their two details, in one order or the other. */
  lemma PairList(details: seq<AnswerChangeDetail>, p: string, q: string,
                 oldAnswers: map<string, string>, newAnswers: map<string, string>,
                 catalog: map<string, Question>)
    requires p != q
    requires Lists(details, {p, q}, oldAnswers, newAnswers, catalog)
    ensures var dp, dq := DetailFor(p, oldAnswers, newAnswers, catalog), DetailFor(q, oldAnswers, newAnswers, catalog);
            details == [dp, dq] || details == [dq, dp]
  {
    DistinctIdsCount(details);
    assert |details| == 2;
    assert details[0] in details && details[1] in details;
  }

  // ---------------------------------------------------------------------
  // Fixtures
  // ---------------------------------------------------------------------

  function Q(id: string, section: string, text: string): Question
  {
    Question(id, section, text, "", "", false, 0)
  }

  function Catalog(): map<string, Question>
  {
    map["q1" := Q("q1", "s1", "Question 1 Text"), "q2" := Q("q2", "s1", "Question 2 Text"),
        "q3" := Q("q3", "s2", "Question 3 Text"), "q4" := Q("q4", "s2", "Question 4 Text")]
  }

  const Yesterday := 0
  const Now := 86400

  function Sub(id: string, timestamp: int, answers: seq<Answer>, scores: map<string, SectionScore>): Submission
  {
    Submission(id, "service1", "", timestamp, answers, scores)
  }

  function Detail(q: string, text: string, oldAnswer: string, newAnswer: string): AnswerChangeDetail
  {
    AnswerChangeDetail(q, text, oldAnswer, newAnswer)
  }

  // ---------------------------------------------------------------------
  // Comparison cases
  // ---------------------------------------------------------------------

  /** "No changes": the same answer on both sides gives one section comparison and three empty lists. */
  lemma NoChangesCase(r: ComparisonReport)
    requires IsComparisonReport(r,
      Sub("prrOld1", Yesterday, [Answer("q1", "Yes")], map["s1" := SectionScore("s1", 1, 0, 0)]),
      Sub("prrNew1", Now, [Answer("q1", "Yes")], map["s1" := SectionScore("s1", 1, 0, 0)]),
      Catalog(), "service1")
    ensures r == ComparisonReport("service1", "prrOld1", "prrNew1",
      map["s1" := SectionScoreComparison(SectionScore("s1", 1, 0, 0), SectionScore("s1", 1, 0, 0))],
      [], [], [])
  {
    var m := AnswerMap([Answer("q1", "Yes")]);
    assert m == map["q1" := "Yes"];
    assert ChangedIds(m, m) == {};
    EmptyIds(r.AnswerChanges);
    EmptyIds(r.NoLongerAnsweredQuestions);
    EmptyIds(r.NewlyAnsweredQuestions);
  }

  /** "One answer change": Yes becomes No for q1. */
  lemma OneAnswerChangeCase(r: ComparisonReport)
    requires IsComparisonReport(r,
      Sub("prrOld2", Yesterday, [Answer("q1", "Yes")], map["s1" := SectionScore("s1", 1, 0, 0)]),
      Sub("prrNew2", Now, [Answer("q1", "No")], map["s1" := SectionScore("s1", 0, 1, 0)]),
      Catalog(), "service1")
    ensures r == ComparisonReport("service1", "prrOld2", "prrNew2",
      map["s1" := SectionScoreComparison(SectionScore("s1", 1, 0, 0), SectionScore("s1", 0, 1, 0))],
      [Detail("q1", "Question 1 Text", "Yes", "No")], [], [])
  {
    var om, nm := AnswerMap([Answer("q1", "Yes")]), AnswerMap([Answer("q1", "No")]);
    assert om == map["q1" := "Yes"] && nm == map["q1" := "No"];
    assert ChangedIds(om, nm) == {"q1"};
    SingletonList(r.AnswerChanges, "q1", om, nm, Catalog());
    EmptyIds(r.NoLongerAnsweredQuestions);
    EmptyIds(r.NewlyAnsweredQuestions);
  }

  /** "Newly and no longer answered": q1 is dropped and q2 is added. */
  lemma NewlyAndNoLongerCase(r: ComparisonReport)
    requires IsComparisonReport(r,
      Sub("prrOld3", Yesterday, [Answer("q1", "Yes")], map["s1" := SectionScore("s1", 1, 0, 0)]),
      Sub("prrNew3", Now, [Answer("q2", "No")], map["s1" := SectionScore("s1", 0, 1, 0)]),
      Catalog(), "service1")
    ensures r == ComparisonReport("service1", "prrOld3", "prrNew3",
      map["s1" := SectionScoreComparison(SectionScore("s1", 1, 0, 0), SectionScore("s1", 0, 1, 0))],
      [], [Detail("q2", "Question 2 Text", "", "No")], [Detail("q1", "Question 1 Text", "Yes", "")])
  {
    var om, nm := AnswerMap([Answer("q1", "Yes")]), AnswerMap([Answer("q2", "No")]);
    assert om == map["q1" := "Yes"] && nm == map["q2" := "No"];
    assert ChangedIds(om, nm) == {};
    assert om.Keys - nm.Keys == {"q1"};
    assert nm.Keys - om.Keys == {"q2"};
    EmptyIds(r.AnswerChanges);
    SingletonList(r.NoLongerAnsweredQuestions, "q1", om, nm, Catalog());
    SingletonList(r.NewlyAnsweredQuestions, "q2", om, nm, Catalog());
  }

  /** Last-seen-wins maps of the two fixtures of the complex case. */
  lemma ComplexAnswerMaps()
    ensures AnswerMap([Answer("q1", "Yes"), Answer("q3", "N/A")]) == map["q1" := "Yes", "q3" := "N/A"]
    ensures AnswerMap([Answer("q1", "No"), Answer("q2", "Yes"), Answer("q4", "Yes")])
         == map["q1" := "No", "q2" := "Yes", "q4" := "Yes"]
  {
    var news := [Answer("q1", "No"), Answer("q2", "Yes"), Answer("q4", "Yes")];
    assert news[..2] == [Answer("q1", "No"), Answer("q2", "Yes")];
    assert AnswerMap(news[..2]) == map["q1" := "No", "q2" := "Yes"];
  }

  /** The three id sets of the complex case. */
  lemma ComplexIdSets(om: map<string, string>, nm: map<string, string>)
    requires om == map["q1" := "Yes", "q3" := "N/A"]
    requires nm == map["q1" := "No", "q2" := "Yes", "q4" := "Yes"]
    ensures ChangedIds(om, nm) == {"q1"}
    ensures om.Keys - nm.Keys == {"q3"}
    ensures nm.Keys - om.Keys == {"q2", "q4"}
  {
  }

  /**
   * "Section score changes complex": q1 changes, q2 and q4 are added, q3 is
   * dropped. The two newly answered questions may come in either order.
   */
  lemma SectionScoreChangesCase(r: ComparisonReport)
    requires IsComparisonReport(r,
      Sub("prrOld4", Yesterday, [Answer("q1", "Yes"), Answer("q3", "N/A")],
          map["s1" := SectionScore("s1", 1, 0, 0), "s2" := SectionScore("s2", 0, 0, 1)]),
      Sub("prrNew4", Now, [Answer("q1", "No"), Answer("q2", "Yes"), Answer("q4", "Yes")],
          map["s1" := SectionScore("s1", 1, 1, 0), "s2" := SectionScore("s2", 1, 0, 0)]),
      Catalog(), "service1")
    ensures r.ServiceId == "service1" && r.SubmissionIdOld == "prrOld4" && r.SubmissionIdNew == "prrNew4"
    ensures r.SectionComparison
         == map["s1" := SectionScoreComparison(SectionScore("s1", 1, 0, 0), SectionScore("s1", 1, 1, 0)),
                "s2" := SectionScoreComparison(SectionScore("s2", 0, 0, 1), SectionScore("s2", 1, 0, 0))]
    ensures r.AnswerChanges == [Detail("q1", "Question 1 Text", "Yes", "No")]
    ensures r.NoLongerAnsweredQuestions == [Detail("q3", "Question 3 Text", "N/A", "")]
    ensures var d2, d4 := Detail("q2", "Question 2 Text", "", "Yes"), Detail("q4", "Question 4 Text", "", "Yes");
            r.NewlyAnsweredQuestions == [d2, d4] || r.NewlyAnsweredQuestions == [d4, d2]
  {
    var om := AnswerMap([Answer("q1", "Yes"), Answer("q3", "N/A")]);
    var nm := AnswerMap([Answer("q1", "No"), Answer("q2", "Yes"), Answer("q4", "Yes")]);
    ComplexAnswerMaps();
    ComplexIdSets(om, nm);
    SingletonList(r.AnswerChanges, "q1", om, nm, Catalog());
    SingletonList(r.NoLongerAnsweredQuestions, "q3", om, nm, Catalog());
    PairList(r.NewlyAnsweredQuestions, "q2", "q4", om, nm, Catalog());
  }

  /** The older of the two fixtures is the old one, in whichever order they are fetched. */
  lemma ChronologicalCase(a: Submission, b: Submission)
    requires a.Timestamp == Yesterday && b.Timestamp == Now
    ensures Chronological(a, b) == (a, b) && Chronological(b, a) == (a, b)
  {
  }

  // ---------------------------------------------------------------------
  // Scoring cases
  // ---------------------------------------------------------------------

  /** One scorable answer appended to answers whose tallies are known. */
  lemma ScoreStep(answers: seq<Answer>, a: Answer, before: map<string, SectionScore>, id: string, tally: SectionScore)
    requires Scored(answers, Catalog()) == before
    requires a.QuestionId in Catalog() && Catalog()[a.QuestionId].SectionId == id && id != ""
    requires Record(Fetch(before, id), Classify(a.Response)) == tally
    ensures Scored(answers + [a], Catalog()) == before[id := tally]
  {
    ScoredSnoc(answers, a, Catalog());
  }

  /** The tallies stored in the old fixture of the complex case are those the scorer computes. */
  lemma OldFixtureScoresCase()
    ensures Scored([Answer("q1", "Yes"), Answer("q3", "N/A")], Catalog())
         == map["s1" := SectionScore("s1", 1, 0, 0), "s2" := SectionScore("s2", 0, 0, 1)]
  {
    var a1, a2 := Answer("q1", "Yes"), Answer("q3", "N/A");
    var t1, t2 := SectionScore("s1", 1, 0, 0), SectionScore("s2", 0, 0, 1);
    assert Classify("Yes") == Yes && Classify("N/A") == NotApplicable;
    assert [] + [a1] == [a1];
    ScoreStep([], a1, map[], "s1", t1);
    assert [a1] + [a2] == [a1, a2];
    ScoreStep([a1], a2, map["s1" := t1], "s2", t2);
  }

  /** The first two answers of the new fixture of the complex case both count in section s1. */
  lemma NewFixturePrefix()
    ensures Scored([Answer("q1", "No"), Answer("q2", "Yes")], Catalog()) == map["s1" := SectionScore("s1", 1, 1, 0)]
  {
    var a1, a2 := Answer("q1", "No"), Answer("q2", "Yes");
    var t1, t2 := SectionScore("s1", 0, 1, 0), SectionScore("s1", 1, 1, 0);
    assert Classify("Yes") == Yes && Classify("No") == No;
    assert [] + [a1] == [a1];
    ScoreStep([], a1, map[], "s1", t1);
    assert [a1] + [a2] == [a1, a2];
    ScoreStep([a1], a2, map["s1" := t1], "s1", t2);
    assert map["s1" := t1]["s1" := t2] == map["s1" := t2];
  }

  /** The tallies stored in the new fixture of the complex case are those the scorer computes. */
  lemma NewFixtureScoresCase()
    ensures Scored([Answer("q1", "No"), Answer("q2", "Yes"), Answer("q4", "Yes")], Catalog())
         == map["s1" := SectionScore("s1", 1, 1, 0), "s2" := SectionScore("s2", 1, 0, 0)]
  {
    var a1, a2, a3 := Answer("q1", "No"), Answer("q2", "Yes"), Answer("q4", "Yes");
    assert Classify("Yes") == Yes;
    NewFixturePrefix();
    assert [a1, a2] + [a3] == [a1, a2, a3];
    ScoreStep([a1, a2], a3, map["s1" := SectionScore("s1", 1, 1, 0)], "s2", SectionScore("s2", 1, 0, 0));
  }

  /** An answer to a question missing from the catalog is skipped: the tallies are empty. */
  lemma UnknownQuestionCase()
    ensures Scored([Answer("qX", "yes")], Catalog()) == map[]
  {
    assert "qX" !in Catalog();
    assert [] + [Answer("qX", "yes")] == [Answer("qX", "yes")];
    ScoredSnocSkip([], Answer("qX", "yes"), Catalog());
  }

  /** An unrecognised response still creates its section's tally, with zero counts. */
  lemma UnrecognisedResponseCase()
    ensures Scored([Answer("q1", "Maybe")], Catalog()) == map["s1" := SectionScore("s1", 0, 0, 0)]
  {
    var a := Answer("q1", "Maybe");
    assert Classify("Maybe") == Unrecognised;
    assert [] + [a] == [a];
    ScoreStep([], a, map[], "s1", SectionScore("s1", 0, 0, 0));
  }
}
