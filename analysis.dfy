/**
  The post-processing `analyzeWithGPT` applies to the text of the chat
  completion (src/pages/Index.tsx, lines 77-88): a score taken from the
  first percentage in the text and the non-blank lines as match details.
  Obtaining the text (the HTTP request and the JSON access) is not modelled:
  the text is the input.
 */
module Analysis {
  import opened Percent
  import opened Lines

  /** The `{ score, details }` object the analysis returns. */
  datatype AnalysisResult = AnalysisResult(score: nat, details: seq<string>)

  /**
    The analysis of a response: the score is the value of the first maximal
    run of digits immediately followed by `%`, or 50 when no digit is
    followed by `%`; the details are non-empty and trimmed, at most one per
    line of the response.
   */
  function ParseAnalysis(content: string): (r: AnalysisResult)
    ensures IsValueOfFirstPercentRun(content, r.score)
    ensures !HasDigitBeforePercent(content) ==> r.score == 50
    ensures forall k :: 0 <= k < |r.details| ==> r.details[k] != [] && IsTrimmed(r.details[k])
  {
    AnalysisResult(Score(content), Details(content))
  }

  /** Re-parsing the details joined with '\n' yields the same details. */
  lemma ParseAnalysisDetailsIdempotent(content: string)
    ensures ParseAnalysis(JoinLines(ParseAnalysis(content).details)).details == ParseAnalysis(content).details
  {
    DetailsIdempotent(content);
  }
}
