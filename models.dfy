/**
 * The data model of Product Readiness Review (PRR) submissions: the question
 * catalog, the answers of a submission, the per-section tallies derived from
 * them and the report that compares two submissions.
 *
 * Identifiers and texts are strings; a submission's timestamp is an integer
 * (any clock with a strict "before" order will do).
 */
module Models {

  /** One question of the catalog; it belongs to the section `SectionId`. */
  datatype Question = Question(
    Id: string,
    SectionId: string,
    Text: string,
    Blurb: string,
    SupportingLink: string,
    IsEssential: bool,
    Order: int)

  /**
   * The response given to one question. The documented responses are "Yes",
   * "No" and "N/A", but any string can arrive and the scorer must tolerate it,
   * so `Response` stays a general string.
   */
  datatype Answer = Answer(QuestionId: string, Response: string)

  /** Yes/No/N-A tally of one section. */
  datatype SectionScore = SectionScore(SectionId: string, YesCount: int, NoCount: int, NaCount: int)

  /** A stored submission: its answers and the tallies computed when it was created. */
  datatype Submission = Submission(
    Id: string,
    ServiceId: string,
    UserId: string,
    Timestamp: int,
    Answers: seq<Answer>,
    SectionScores: map<string, SectionScore>)

  /** The old and the new tally of one section. */
  datatype SectionScoreComparison = SectionScoreComparison(OldScores: SectionScore, NewScores: SectionScore)

  /**
   * How the answer to one question differs between two submissions. An empty
   * `OldAnswer` or `NewAnswer` means "not answered on that side"; an empty
   * `QuestionText` means the question is not in the catalog.
   */
  datatype AnswerChangeDetail = AnswerChangeDetail(
    QuestionId: string,
    QuestionText: string,
    OldAnswer: string,
    NewAnswer: string)

  /** The comparison of two submissions of one service. */
  datatype ComparisonReport = ComparisonReport(
    ServiceId: string,
    SubmissionIdOld: string,
    SubmissionIdNew: string,
    SectionComparison: map<string, SectionScoreComparison>,
    AnswerChanges: seq<AnswerChangeDetail>,
    NewlyAnsweredQuestions: seq<AnswerChangeDetail>,
    NoLongerAnsweredQuestions: seq<AnswerChangeDetail>)

  /** The zero value of a tally: no section id and all counts zero. */
  const ZeroScore := SectionScore("", 0, 0, 0)

  /** A tally map is well keyed when every tally is stored under its own, non-empty section id. */
  ghost predicate WellKeyed(scores: map<string, SectionScore>)
  {
    forall id :: id in scores ==> id != "" && scores[id].SectionId == id
  }

  /** Sum of the three counters of a tally. */
  function Total(score: SectionScore): int
  {
    score.YesCount + score.NoCount + score.NaCount
  }
}
