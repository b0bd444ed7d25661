/** The adapter around the `brew` binary. The processes themselves are not
    modelled: each call is represented by its outcome, which the caller
    passes in. */
module BrewCli {
  import Text

  /** The outcome of one `brew list` or `brew search` run: the lines it
      printed, or a non-zero exit status (`CalledProcessError`). */
  datatype ListRun = Listed(lines: seq<string>) | ListFailed

  /** What a listing contributes: its lines, or nothing when it failed. */
  function LinesOrEmpty(run: ListRun): (lines: seq<string>)
    ensures run.ListFailed? ==> lines == []
    ensures run.Listed? ==> lines == run.lines
  {
    match run
    case Listed(lines) => lines
    case ListFailed => []
  }

  /** `get_brew_apps`: the installed casks and the installed formulae, from
      `brew list --cask` and `brew list`. Each listing falls back to the
      empty list on its own: a failing listing empties its own category and
      leaves the other one exactly as its own listing gives it. */
  function GetBrewApps(caskRun: ListRun, formulaRun: ListRun): (apps: (seq<string>, seq<string>))
    ensures caskRun.ListFailed? ==> apps.0 == []
    ensures caskRun.Listed? ==> apps.0 == caskRun.lines
    ensures formulaRun.ListFailed? ==> apps.1 == []
    ensures formulaRun.Listed? ==> apps.1 == formulaRun.lines
  {
    (LinesOrEmpty(caskRun), LinesOrEmpty(formulaRun))
  }

  /** `search_brew_apps`: the result lines of `brew search`, in the order
      brew printed them, or nothing when the search failed. */
  function SearchBrewApps(searchRun: ListRun): (results: seq<string>)
    ensures searchRun.ListFailed? ==> results == []
    ensures searchRun.Listed? ==> results == searchRun.lines
  {
    LinesOrEmpty(searchRun)
  }

  /** The outcome of one `brew uninstall --force` run: the process exited
      with a status and some error text, or it could not be started at all
      and raised an exception with a message. */
  datatype UninstallRun = Exited(returnCode: int, stderr: string) | LaunchFailed(message: string)

  /** `uninstall_brew_app`: `(True, "")` when brew exited with status 0,
      `(False, stderr.strip())` for any other status, and `(False, str(e))`
      when the process could not be started. */
  function UninstallBrewApp(run: UninstallRun): (result: (bool, string))
    ensures result.0 <==> run.Exited? && run.returnCode == 0
    ensures result.0 ==> result.1 == ""
    ensures run.LaunchFailed? ==> result.1 == run.message
  {
    match run
    case Exited(code, stderr) => if code == 0 then (true, "") else (false, Text.Strip(stderr))
    case LaunchFailed(message) => (false, message)
  }

  /** The message of a failed uninstall is brew's error text without its
      surrounding whitespace: whatever slice of it is bounded by whitespace
      on both sides. */
  lemma UninstallErrorIsTrimmed(code: int, stderr: string, i: nat, j: nat)
    requires code != 0
    requires Text.StrippedAt(stderr, i, j, Text.IsSpace)
    ensures UninstallBrewApp(Exited(code, stderr)) == (false, stderr[i..j])
  {
    Text.StripIsStrippedSlice(stderr, i, j);
  }

  /** The Python values the truth tests of `uninstall_selected` see: a
      `bool`, a `str`, or a tuple of values. */
  datatype PyValue = PyBool(b: bool) | PyStr(s: string) | PyTuple(items: seq<PyValue>)

  /** Python's truth value: a `bool` is itself, a `str` or a tuple is true
      exactly when it is non-empty. */
  predicate Truth(v: PyValue)
  {
    match v
    case PyBool(b) => b
    case PyStr(s) => s != []
    case PyTuple(items) => items != []
  }

  /** The pair `uninstall_brew_app` returns, as a Python value. */
  function PyPair(result: (bool, string)): (v: PyValue)
    ensures v.PyTuple? && |v.items| == 2
    ensures v.items[0] == PyBool(result.0) && v.items[1] == PyStr(result.1)
  {
    PyTuple([PyBool(result.0), PyStr(result.1)])
  }

  /** The pair `uninstall_brew_app` returns is true in Python whatever brew
      answered, because a two-element tuple is never empty. */
  lemma PairAlwaysTrue(run: UninstallRun)
    ensures Truth(PyPair(UninstallBrewApp(run)))
  {
  }

  /** Its first component, the success flag, is true exactly when brew
      exited with status 0. */
  lemma SuccessFlagTruth(run: UninstallRun)
    ensures Truth(PyBool(UninstallBrewApp(run).0)) <==> run.Exited? && run.returnCode == 0
  {
  }
}
