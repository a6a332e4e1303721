/**
 * The FFmpeg command of `convert_ugoira_frames`.
 *
 * The source assembles one command string from fixed pieces, splits it with
 * `shlex.split` and runs it with the frame directory as working directory.
 * The model builds the string and the invocation record; the shell-style
 * splitting and the process itself are not modelled.
 */
module Encoder {

  /** The frame-rate interpolation filter, added only on request. */
  const InterpolateFilter: string := "-filter:v \"minterpolate='fps=60'\""

  /** The descriptor file name, relative to the working directory. */
  const DescriptorName: string := "ffconcat.txt"

  function Quote(s: string): string { "\"" + s + "\"" }

  function InterpolateArg(interpolate: bool): string
  {
    if interpolate then InterpolateFilter else ""
  }

  /** The fixed start of every command: the quoted encoder, the banner and
      overwrite flags and the descriptor input, each followed by a space. */
  function InputPart(ffmpegPath: string): string
  {
    Quote(ffmpegPath) + " " + "-hide_banner" + " " + "-y" + " " + "-i" + " " + DescriptorName + " "
  }

  /** The source's `call_str`: after the input part come the filter (or
      nothing), the caller's arguments and the quoted output, each followed by
      a space. */
  function CallString(ffmpegPath: string, videoOutput: string, ffmpegArgs: string, interpolate: bool): string
  {
    InputPart(ffmpegPath) + InterpolateArg(interpolate) + " " + ffmpegArgs + " " + Quote(videoOutput) + " "
  }

  /** What the process call receives: working directory and command line. */
  datatype Invocation = Invocation(cwd: string, commandLine: string)

  function ConvertUgoiraFrames(framesPath: string, videoOutput: string, ffmpegPath: string,
                               ffmpegArgs: string, interpolate: bool): (r: Invocation)
    ensures r.cwd == framesPath
    ensures r.commandLine == JoinSpaced(Fields(ffmpegPath, videoOutput, ffmpegArgs, interpolate))
  {
    CallStringFields(ffmpegPath, videoOutput, ffmpegArgs, interpolate);
    Invocation(framesPath, CallString(ffmpegPath, videoOutput, ffmpegArgs, interpolate))
  }

  // ---------------------------------------------------------------------
  // The command as an ordered list of fields
  // ---------------------------------------------------------------------

  /** The fields of the command in order: the quoted encoder, the banner and
      overwrite flags, the descriptor input, the filter or nothing, the
      caller's arguments, the quoted output. */
  function Fields(ffmpegPath: string, videoOutput: string, ffmpegArgs: string, interpolate: bool): seq<string>
  {
    [Quote(ffmpegPath), "-hide_banner", "-y", "-i", DescriptorName,
     InterpolateArg(interpolate), ffmpegArgs, Quote(videoOutput)]
  }

  /** Each field followed by one space. */
  function JoinSpaced(fields: seq<string>): string
  {
    if fields == [] then "" else JoinSpaced(fields[..|fields| - 1]) + fields[|fields| - 1] + " "
  }

  /** The command per field: the fields in order, each followed by one space. */
  lemma CallStringFields(ffmpegPath: string, videoOutput: string, ffmpegArgs: string, interpolate: bool)
    ensures CallString(ffmpegPath, videoOutput, ffmpegArgs, interpolate)
      == JoinSpaced(Fields(ffmpegPath, videoOutput, ffmpegArgs, interpolate))
  {
    var f := Fields(ffmpegPath, videoOutput, ffmpegArgs, interpolate);
    assert f[..0] == [];
    assert JoinSpaced(f[..1]) == f[0] + " " by { assert f[..1][..0] == []; }
    assert JoinSpaced(f[..2]) == JoinSpaced(f[..1]) + f[1] + " " by { assert f[..2][..1] == f[..1]; }
    assert JoinSpaced(f[..3]) == JoinSpaced(f[..2]) + f[2] + " " by { assert f[..3][..2] == f[..2]; }
    assert JoinSpaced(f[..4]) == JoinSpaced(f[..3]) + f[3] + " " by { assert f[..4][..3] == f[..3]; }
    assert JoinSpaced(f[..5]) == JoinSpaced(f[..4]) + f[4] + " " by { assert f[..5][..4] == f[..4]; }
    assert JoinSpaced(f[..5]) == InputPart(ffmpegPath);
    assert JoinSpaced(f[..6]) == JoinSpaced(f[..5]) + f[5] + " " by { assert f[..6][..5] == f[..5]; }
    assert JoinSpaced(f[..7]) == JoinSpaced(f[..6]) + f[6] + " " by { assert f[..7][..6] == f[..6]; }
    assert JoinSpaced(f) == JoinSpaced(f[..7]) + f[7] + " " by { assert f[..7] == f[..|f| - 1]; }
  }

  /** Right after the input comes the filter when interpolation is on, and a
      second space when it is off. */
  lemma FilterPlacement(ffmpegPath: string, videoOutput: string, ffmpegArgs: string, interpolate: bool)
    ensures var s := CallString(ffmpegPath, videoOutput, ffmpegArgs, interpolate);
      |InputPart(ffmpegPath)| < |s| && (s[|InputPart(ffmpegPath)|] == '-' <==> interpolate)
  {
    var s := CallString(ffmpegPath, videoOutput, ffmpegArgs, interpolate);
    var ip := InputPart(ffmpegPath);
    var tail := InterpolateArg(interpolate) + " " + ffmpegArgs + " " + Quote(videoOutput) + " ";
    assert s == ip + tail;
    if interpolate {
      assert tail[0] == InterpolateFilter[0] == '-';
    } else {
      assert tail[0] == ' ';
    }
    assert s[|ip|] == tail[0];
  }

  /** Turning interpolation on inserts exactly the filter after the input and
      changes nothing else. */
  lemma InterpolationInsertsFilter(ffmpegPath: string, videoOutput: string, ffmpegArgs: string)
    ensures var k := |InputPart(ffmpegPath)|;
      var plain := CallString(ffmpegPath, videoOutput, ffmpegArgs, false);
      && k <= |plain|
      && CallString(ffmpegPath, videoOutput, ffmpegArgs, true) == plain[..k] + InterpolateFilter + plain[k..]
  {
    var ip := InputPart(ffmpegPath);
    var rest := " " + ffmpegArgs + " " + Quote(videoOutput) + " ";
    var plain := CallString(ffmpegPath, videoOutput, ffmpegArgs, false);
    assert plain == ip + rest;
    assert plain[..|ip|] == ip && plain[|ip|..] == rest;
    assert CallString(ffmpegPath, videoOutput, ffmpegArgs, true) == ip + InterpolateFilter + rest;
  }
}
