/**
 * The argument checks of `parse_args` and the stage selection of the main
 * block.
 *
 * Argument parsing itself is not modelled: the parsed values are the input.
 * The directory of the script, whether fetching the frames succeeded and
 * whether the conversion ran without raising are parameters: they come from
 * the process arguments, the network and the file system.
 */
module Cli {
  import opened Wrappers
  import opened Duration
  import opened Encoder

  datatype Process = All | GetFrames | ConvertFrames

  /** The parsed options. `pixivId` and `framesPath` have no default. */
  datatype Args = Args(
    pixivId: Option<int>,
    framesPath: Option<string>,
    process: Process,
    videoOutput: string,
    interpolate: bool,
    ffmpegPath: string,
    ffmpegArgs: string)

  datatype Stage =
    | Fetch(pixivId: int, into: string)   // get_ugoira_frames(pixiv_id, ugoira_path, ...)
    | Convert(call: Invocation)             // convert_ugoira_frames(...)

  datatype Run =
    | UsageError(message: string)         // parser.error: message and exit status 2
    | FetchFailed(ran: seq<Stage>)        // "Unable to get ugoira data", exit status 1
    | ConvertFailed(ran: seq<Stage>)      // the conversion raised (shlex.split, subprocess.call): exit status 1
    | Finished(ran: seq<Stage>)           // exit status 0

  const MsgRequired: string := "the following arguments are required:"

  /** Python truthiness of the optional integer: `None` and `0` are false. */
  predicate PixivIdGiven(a: Args) { a.pixivId.Some? && a.pixivId.value != 0 }

  /** Python truthiness of the optional string: `None` and `""` are false. */
  predicate FramesPathGiven(a: Args) { a.framesPath.Some? && a.framesPath.value != "" }

  predicate Fetches(p: Process) { p == All || p == GetFrames }

  predicate Converts(p: Process) { p == All || p == ConvertFrames }

  /** `str(n)` of a Python integer. */
  function IntText(n: int): (s: string)
    ensures |s| > 0
    ensures n < 0 <==> s[0] == '-'
  {
    if n < 0 then "-" + NatText(-n) else NatText(n)
  }

  /** `os.path.join(base, name)` for a relative `name`. */
  function JoinPath(base: string, name: string): (r: string)
    ensures base <= r
    ensures |r| >= |base| + |name| && r[|r| - |name|..] == name
    ensures |r| - |name| - |base| == (if base == [] || base[|base| - 1] == '/' then 0 else 1)
  {
    if base == [] || base[|base| - 1] == '/' then base + name else base + "/" + name
  }

  /** The download directory for an ID, beside the script. */
  function UgoiraPath(execPath: string, pixivId: int): string
  {
    JoinPath(execPath, "ugoira_" + IntText(pixivId))
  }

  /** The checks after `parser.parse_args()`, in their order. */
  function CheckArgs(a: Args): (err: Option<string>)
    ensures err.Some? <==> (Fetches(a.process) && !PixivIdGiven(a)) || (a.process == ConvertFrames && !FramesPathGiven(a))
    ensures Fetches(a.process) && !PixivIdGiven(a) ==> err == Some(MsgRequired + " --pixiv_id")
    ensures a.process == ConvertFrames && !FramesPathGiven(a) ==> err == Some(MsgRequired + " --frames_path")
  {
    if Fetches(a.process) && !PixivIdGiven(a) then Some(MsgRequired + " --pixiv_id")
    else if a.process == ConvertFrames && !FramesPathGiven(a) then Some(MsgRequired + " --frames_path")
    else None
  }

  function ConvertIn(a: Args, dir: string): Stage
  {
    Convert(ConvertUgoiraFrames(dir, a.videoOutput, a.ffmpegPath, a.ffmpegArgs, a.interpolate))
  }

  /** The main block: which stages run, in which directory, and how the run
      ends. `convertSucceeds` is false when the conversion raises: an
      unbalanced quote in the command string, or an encoder or directory that
      does not exist. */
  function Main(a: Args, execPath: string, fetchSucceeds: bool, convertSucceeds: bool): (r: Run)
    ensures r.UsageError? <==> CheckArgs(a).Some?
    ensures r.UsageError? ==> r.message == CheckArgs(a).value
    ensures a.process == All && CheckArgs(a).None? ==>
      var dir := UgoiraPath(execPath, a.pixivId.value);
      var stages := [Fetch(a.pixivId.value, dir), ConvertIn(a, dir)];
      r == (if !fetchSucceeds then FetchFailed([Fetch(a.pixivId.value, dir)])
            else if convertSucceeds then Finished(stages) else ConvertFailed(stages))
    ensures a.process == GetFrames && CheckArgs(a).None? ==>
      var dir := UgoiraPath(execPath, a.pixivId.value);
      r == (if fetchSucceeds then Finished([Fetch(a.pixivId.value, dir)])
            else FetchFailed([Fetch(a.pixivId.value, dir)]))
    ensures a.process == ConvertFrames && CheckArgs(a).None? ==>
      var stages := [ConvertIn(a, a.framesPath.value)];
      r == (if convertSucceeds then Finished(stages) else ConvertFailed(stages))
  {
    match CheckArgs(a)
    case Some(msg) => UsageError(msg)
    case None =>
      var fetched: seq<Stage> :=
        if Fetches(a.process) then [Fetch(a.pixivId.value, UgoiraPath(execPath, a.pixivId.value))] else [];
      if Fetches(a.process) && !fetchSucceeds then FetchFailed(fetched)
      else if Converts(a.process) then
        var dir := if Fetches(a.process) then UgoiraPath(execPath, a.pixivId.value) else a.framesPath.value;
        var stages := fetched + [ConvertIn(a, dir)];
        if convertSucceeds then Finished(stages) else ConvertFailed(stages)
      else Finished(fetched)
  }

  /** The process exit status of a run. */
  function ExitStatus(r: Run): (status: nat)
    ensures status <= 2
    ensures status == 0 <==> r.Finished?
    ensures status == 2 <==> r.UsageError?
  {
    match r
    case UsageError(_) => 2
    case FetchFailed(_) => 1
    case ConvertFailed(_) => 1
    case Finished(_) => 0
  }

  /** A stage runs only on inputs that were given: every fetch has a truthy
      ID; the conversion works in the directory the fetch wrote, or in the
      given non-empty path; and it never follows a failed fetch. */
  lemma StagesHaveInputs(a: Args, execPath: string, fetchSucceeds: bool, convertSucceeds: bool)
    ensures var r := Main(a, execPath, fetchSucceeds, convertSucceeds);
      !r.UsageError? ==> forall i | 0 <= i < |r.ran| ::
        match r.ran[i]
        case Fetch(id, into) => PixivIdGiven(a) && id == a.pixivId.value && into == UgoiraPath(execPath, id)
        case Convert(call) =>
          && !r.FetchFailed? && i == |r.ran| - 1
          && (if Fetches(a.process) then r.ran[0] == Fetch(a.pixivId.value, call.cwd)
              else FramesPathGiven(a) && call.cwd == a.framesPath.value)
  {
  }

  /** The run ends with status 0 exactly when the arguments pass the checks,
      a requested fetch succeeds and a requested conversion does not raise;
      with 2 exactly when an argument is missing; and with 1 otherwise. */
  lemma ExitStatusMeaning(a: Args, execPath: string, fetchSucceeds: bool, convertSucceeds: bool)
    ensures ExitStatus(Main(a, execPath, fetchSucceeds, convertSucceeds)) == 0 <==>
      CheckArgs(a).None? && (Fetches(a.process) ==> fetchSucceeds) && (Converts(a.process) ==> convertSucceeds)
    ensures ExitStatus(Main(a, execPath, fetchSucceeds, convertSucceeds)) == 2 <==> CheckArgs(a).Some?
  {
  }

  /** An ID of 0 is rejected like a missing one. */
  lemma ZeroIdRejected(a: Args, execPath: string, fetchSucceeds: bool, convertSucceeds: bool)
    requires a.pixivId == Some(0) && a.process != ConvertFrames
    ensures Main(a, execPath, fetchSucceeds, convertSucceeds) == UsageError(MsgRequired + " --pixiv_id")
  {
  }

  /** Different IDs get different download directories. */
  lemma UgoiraPathInjective(execPath: string, m: int, n: int)
    ensures UgoiraPath(execPath, m) == UgoiraPath(execPath, n) <==> m == n
  {
    var x, y := "ugoira_" + IntText(m), "ugoira_" + IntText(n);
    if UgoiraPath(execPath, m) == UgoiraPath(execPath, n) {
      var r := UgoiraPath(execPath, m);
      assert |x| == |y|;
      assert x == r[|r| - |x|..] == y;
      assert IntText(m) == x[7..] == y[7..] == IntText(n);
      IntTextInjective(m, n);
    }
  }

  /** Different IDs print differently. */
  lemma IntTextInjective(m: int, n: int)
    ensures IntText(m) == IntText(n) <==> m == n
  {
    if IntText(m) == IntText(n) {
      if m < 0 {
        assert n < 0;
        assert NatText(-m) == IntText(m)[1..] == IntText(n)[1..] == NatText(-n);
        ParseNatText(-m);
        ParseNatText(-n);
      } else {
        ParseNatText(m);
        ParseNatText(n);
      }
    }
  }
}
