/**
  The checks that come before an analysis on the page: the guard clauses at
  the top of `analyzeMatch` (src/pages/Index.tsx, lines 96-112) and the
  `disabled` expression of the Analyze button (line 198). A file is either
  selected or not; the key is the text of the key field, and `!apiKey` holds
  in JavaScript exactly for the empty string.
 */
module Guard {

  /** Which way `analyzeMatch` leaves its guard clauses. */
  datatype GuardOutcome =
    | MissingFiles   // the "Missing files" toast, then return
    | MissingApiKey  // the "Missing API Key" toast, then return
    | Proceed        // on to extraction and analysis

  /**
    The guard clauses: the files are checked first, so a missing file wins
    whatever the key; a missing key is reported only when both files are
    there; otherwise the analysis goes ahead. Whether an analysis is already
    running is not checked here.
   */
  function CheckInputs(hasResume: bool, hasJob: bool, apiKey: string): (o: GuardOutcome)
    ensures o == MissingFiles <==> !hasResume || !hasJob
    ensures o == MissingApiKey <==> hasResume && hasJob && apiKey == ""
    ensures o == Proceed <==> hasResume && hasJob && apiKey != ""
  {
    if !hasResume || !hasJob then MissingFiles
    else if apiKey == "" then MissingApiKey
    else Proceed
  }

  /**
    `disabled={!resume || !jobDescription || !apiKey || isAnalyzing}`: the
    button is enabled exactly when the guard would let the analysis proceed
    and no analysis is running.
   */
  function ButtonDisabled(hasResume: bool, hasJob: bool, apiKey: string, isAnalyzing: bool): (d: bool)
    ensures !d <==> CheckInputs(hasResume, hasJob, apiKey) == Proceed && !isAnalyzing
  {
    !hasResume || !hasJob || apiKey == "" || isAnalyzing
  }

  /** A click on an enabled button always gets past the guard clauses. */
  lemma EnabledButtonProceeds(hasResume: bool, hasJob: bool, apiKey: string, isAnalyzing: bool)
    requires !ButtonDisabled(hasResume, hasJob, apiKey, isAnalyzing)
    ensures CheckInputs(hasResume, hasJob, apiKey) == Proceed
  {
  }

  /** With a file missing, the key makes no difference to the outcome. */
  lemma MissingFilesIgnoresKey(hasResume: bool, hasJob: bool, key1: string, key2: string)
    requires !hasResume || !hasJob
    ensures CheckInputs(hasResume, hasJob, key1) == CheckInputs(hasResume, hasJob, key2) == MissingFiles
  {
  }
}
