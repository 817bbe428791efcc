/** The flag, sample-rate and channel decisions of `main`
    (src/main.cpp:166-215) and the orchestration that threads one synthesis
    context through the channels. */
module Driver {
  import opened Values
  import opened Interleave
  import opened NodeParser
  import opened NodeStore

  /** The lowest sample rate accepted. */
  const MinSampleRate: nat := 8000

  /** Which of `--left`, `--right` and `--mono` were given. */
  datatype Flags = Flags(left: bool, right: bool, mono: bool)

  /** What `main` decides to do before reading any CSV file. */
  datatype Mode = ShowHelp | BadSampleRate | Stereo | Mono | InvalidCombination

  /** The CSV inputs, in the order they may be read. */
  datatype Input = LeftCsv | RightCsv | MonoCsv

  /** How a run ends: an early exit with a code, or the interleaved samples
      and channel count handed to the WAV writer. */
  datatype Outcome = Exit(code: nat) | Write(samples: seq<Float32>, channels: nat)

  /** The outcome of a run together with the CSV inputs it read, in order. */
  datatype Report = Report(outcome: Outcome, inputsRead: seq<Input>)

  /** The mode decision. `srate` is the parsed `--srate` value, None when it
      does not parse as an unsigned integer. */
  function SelectMode(flags: Flags, srate: Option<nat>): (m: Mode)
    ensures m == ShowHelp <==> !flags.left && !flags.right && !flags.mono
    ensures m == BadSampleRate <==>
      (flags.left || flags.right || flags.mono) && (srate.None? || srate.value < MinSampleRate)
    ensures m == Stereo <==>
      srate.Some? && srate.value >= MinSampleRate && flags.left && flags.right && !flags.mono
    ensures m == Mono <==>
      srate.Some? && srate.value >= MinSampleRate && !flags.left && !flags.right && flags.mono
    ensures m == InvalidCombination <==>
      && srate.Some? && srate.value >= MinSampleRate
      && (flags.left || flags.right || flags.mono)
      && !(flags.left && flags.right && !flags.mono)
      && !(!flags.left && !flags.right && flags.mono)
  {
    if !flags.left && !flags.right && !flags.mono then ShowHelp
    else if srate.None? || srate.value < MinSampleRate then BadSampleRate
    else if flags.left && flags.right && !flags.mono then Stereo
    else if !flags.left && !flags.right && flags.mono then Mono
    else InvalidCombination
  }

  /** Stereo mode: the left channel, then the right one, interleaved. */
  function StereoBehaviour(left: Option<seq<Row>>, right: Option<seq<Row>>, parse: Parser, synth: Synth,
                           fs: nat, filterLen: nat): (r: Report)
    requires KernelFits(synth, filterLen)
    ensures r.outcome.Exit? ==> r.outcome.code == 2
    ensures r.inputsRead == [LeftCsv] <==> ChannelFrames(left, parse, synth, fs, filterLen).None?
    ensures r.inputsRead != [LeftCsv] ==> r.inputsRead == [LeftCsv, RightCsv]
    ensures r.outcome.Write? ==> r.outcome.channels == 2 && |r.outcome.samples| == 2 * filterLen
  {
    match ChannelFrames(left, parse, synth, fs, filterLen)
    case None => Report(Exit(2), [LeftCsv])
    case Some(l) =>
      match ChannelFrames(right, parse, synth, fs, filterLen)
      case None => Report(Exit(2), [LeftCsv, RightCsv])
      case Some(r) => Report(Write(Interleaved(l, r), 2), [LeftCsv, RightCsv])
  }

  /** Mono mode: the one channel as it is. */
  function MonoBehaviour(mono: Option<seq<Row>>, parse: Parser, synth: Synth, fs: nat, filterLen: nat): (r: Report)
    requires KernelFits(synth, filterLen)
    ensures r.inputsRead == [MonoCsv]
    ensures r.outcome.Exit? <==> ChannelFrames(mono, parse, synth, fs, filterLen).None?
    ensures r.outcome.Exit? ==> r.outcome.code == 2
    ensures r.outcome.Write? ==> r.outcome.channels == 1 && |r.outcome.samples| == filterLen
  {
    match ChannelFrames(mono, parse, synth, fs, filterLen)
    case None => Report(Exit(2), [MonoCsv])
    case Some(f) => Report(Write(f, 1), [MonoCsv])
  }

  /** What a run of the program does, channel by channel. */
  function Behaviour(flags: Flags, srate: Option<nat>, left: Option<seq<Row>>, right: Option<seq<Row>>,
                     mono: Option<seq<Row>>, parse: Parser, synth: Synth, filterLen: nat): (r: Report)
    requires KernelFits(synth, filterLen)
    ensures r.outcome.Exit? ==> r.outcome.code in {1, 2, 3}
    ensures r.outcome.Write? <==> SelectMode(flags, srate) in {Stereo, Mono} && r.outcome != Exit(2)
    ensures r.outcome.Write? ==> r.outcome.channels == (if SelectMode(flags, srate) == Stereo then 2 else 1)
  {
    match SelectMode(flags, srate)
    case ShowHelp => Report(Exit(1), [])
    case BadSampleRate => Report(Exit(1), [])
    case InvalidCombination => Report(Exit(3), [])
    case Stereo => StereoBehaviour(left, right, parse, synth, srate.value, filterLen)
    case Mono => MonoBehaviour(mono, parse, synth, srate.value, filterLen)
  }

  /** The stereo branch of `main`: both channels are read through the same
      instance, left first; the right file is read only if the left one
      succeeded. The instance ends holding the right channel's nodes when
      both succeed, the left channel's when only the left succeeds, and what
      it held before when the left fails. */
  method RunStereo(jdsp: JamesDsp, left: Option<seq<Row>>, right: Option<seq<Row>>, parse: Parser, synth: Synth)
    returns (outcome: Outcome, inputsRead: seq<Input>)
    requires jdsp.Valid() && KernelFits(synth, jdsp.filterLen)
    modifies jdsp
    ensures Report(outcome, inputsRead) == StereoBehaviour(left, right, parse, synth, jdsp.fs, jdsp.filterLen)
    ensures jdsp.Valid()
    ensures ChannelFrames(left, parse, synth, jdsp.fs, jdsp.filterLen).None? ==>
      jdsp.nodes == old(jdsp.nodes) && jdsp.nodesCount == old(jdsp.nodesCount)
    ensures ChannelFrames(left, parse, synth, jdsp.fs, jdsp.filterLen).Some? ==>
      jdsp.Nodes() == ReadCsvNodes(
        (if ChannelFrames(right, parse, synth, jdsp.fs, jdsp.filterLen).Some? then right else left).value,
        parse).value
  {
    var l: seq<Float32>, r: seq<Float32> := [], [];
    var leftValid, rightValid;
    leftValid, l := ReadCsv(l, left, parse, jdsp, synth);
    inputsRead := [LeftCsv];
    if !leftValid {
      return Exit(2), inputsRead;
    }
    rightValid, r := ReadCsv(r, right, parse, jdsp, synth);
    inputsRead := inputsRead + [RightCsv];
    if !rightValid {
      return Exit(2), inputsRead;
    }
    var final := InterleaveVect(l, r);
    outcome := Write(final, 2);
  }

  /** The mono branch of `main`: one channel, written as it is. */
  method RunMono(jdsp: JamesDsp, mono: Option<seq<Row>>, parse: Parser, synth: Synth)
    returns (outcome: Outcome, inputsRead: seq<Input>)
    requires jdsp.Valid() && KernelFits(synth, jdsp.filterLen)
    modifies jdsp
    ensures Report(outcome, inputsRead) == MonoBehaviour(mono, parse, synth, jdsp.fs, jdsp.filterLen)
    ensures jdsp.Valid()
    ensures outcome.Write? ==> jdsp.Nodes() == ReadCsvNodes(mono.value, parse).value
    ensures outcome.Exit? ==> jdsp.nodes == old(jdsp.nodes) && jdsp.nodesCount == old(jdsp.nodesCount)
  {
    var final: seq<Float32> := [];
    var valid;
    valid, final := ReadCsv(final, mono, parse, jdsp, synth);
    inputsRead := [MonoCsv];
    if !valid {
      return Exit(2), inputsRead;
    }
    outcome := Write(final, 1);
  }

  /** `main` from the flag checks to the hand-over to the WAV writer. One
      JamesDSP instance is created at the chosen sample rate and reused by
      every channel. `filterLen` is the filter length the instance is
      initialised with; the CSV contents stand for the files named by the
      flags. */
  method Run(flags: Flags, srate: Option<nat>, left: Option<seq<Row>>, right: Option<seq<Row>>,
             mono: Option<seq<Row>>, parse: Parser, synth: Synth, filterLen: nat)
    returns (outcome: Outcome, inputsRead: seq<Input>)
    requires KernelFits(synth, filterLen)
    ensures Report(outcome, inputsRead) == Behaviour(flags, srate, left, right, mono, parse, synth, filterLen)
  {
    if !flags.left && !flags.right && !flags.mono {
      return Exit(1), [];
    }
    if srate.None? || srate.value < MinSampleRate {
      return Exit(1), [];
    }
    var jdsp := new JamesDsp(srate.value, filterLen);
    if flags.left && flags.right && !flags.mono {
      outcome, inputsRead := RunStereo(jdsp, left, right, parse, synth);
    } else if !flags.left && !flags.right && flags.mono {
      outcome, inputsRead := RunMono(jdsp, mono, parse, synth);
    } else {
      return Exit(3), [];
    }
  }

  /** A stereo run that reaches the writer yields 2 * filterLen samples, the
      left and right filters alternating sample by sample. Both channels are
      cut to the instance's `filterLen`, taken here as fixed at
      initialisation; under that assumption they have equal length and the
      equal-length assertion of the interleaver holds. */
  lemma StereoOutput(flags: Flags, srate: Option<nat>, left: Option<seq<Row>>, right: Option<seq<Row>>,
                     mono: Option<seq<Row>>, parse: Parser, synth: Synth, filterLen: nat)
    requires KernelFits(synth, filterLen)
    requires Behaviour(flags, srate, left, right, mono, parse, synth, filterLen).outcome.Write?
    requires SelectMode(flags, srate) == Stereo
    ensures var out := Behaviour(flags, srate, left, right, mono, parse, synth, filterLen).outcome;
      var l := ChannelFrames(left, parse, synth, srate.value, filterLen).value;
      var r := ChannelFrames(right, parse, synth, srate.value, filterLen).value;
      && out.channels == 2
      && |out.samples| == |l| + |r| == 2 * filterLen
      && forall i :: 0 <= i < filterLen ==> out.samples[2 * i] == l[i] && out.samples[2 * i + 1] == r[i]
  {
    var l := ChannelFrames(left, parse, synth, srate.value, filterLen).value;
    var r := ChannelFrames(right, parse, synth, srate.value, filterLen).value;
    AlternatingWhenEqual(l, r);
  }

  /** A mono run that reaches the writer yields exactly the mono channel's
      filterLen samples, on one channel. */
  lemma MonoOutput(flags: Flags, srate: Option<nat>, left: Option<seq<Row>>, right: Option<seq<Row>>,
                   mono: Option<seq<Row>>, parse: Parser, synth: Synth, filterLen: nat)
    requires KernelFits(synth, filterLen)
    requires SelectMode(flags, srate) == Mono
    requires Behaviour(flags, srate, left, right, mono, parse, synth, filterLen).outcome.Write?
    ensures var out := Behaviour(flags, srate, left, right, mono, parse, synth, filterLen).outcome;
      && out.channels == 1
      && out.samples == ChannelFrames(mono, parse, synth, srate.value, filterLen).value
      && |out.samples| == filterLen
  {
  }

  /** The exit codes and the files read: no CSV is read before the flags and
      the sample rate are accepted; a failing left channel stops the run
      before the right file is read; any failing channel exits with 2. */
  lemma ExitCodes(flags: Flags, srate: Option<nat>, left: Option<seq<Row>>, right: Option<seq<Row>>,
                  mono: Option<seq<Row>>, parse: Parser, synth: Synth, filterLen: nat)
    requires KernelFits(synth, filterLen)
    ensures var rep := Behaviour(flags, srate, left, right, mono, parse, synth, filterLen);
      var mode := SelectMode(flags, srate);
      && (mode in {ShowHelp, BadSampleRate} <==> rep.outcome == Exit(1))
      && (mode == InvalidCombination <==> rep.outcome == Exit(3))
      && (rep.outcome.Exit? && rep.outcome.code != 2 <==> rep.inputsRead == [])
      && (mode == Stereo ==>
            (ChannelFrames(left, parse, synth, srate.value, filterLen).None? ==> rep == Report(Exit(2), [LeftCsv])))
      && (rep.outcome == Exit(2) <==>
            || (mode == Stereo && !(left.Some? && |left.value| >= 2 && right.Some? && |right.value| >= 2))
            || (mode == Mono && !(mono.Some? && |mono.value| >= 2)))
  {
  }

  /** `--left` with `--mono`, or `--right` alone, is refused with exit code 3
      at any valid sample rate, without reading a file. */
  lemma InvalidCombinationExamples(srate: nat, left: Option<seq<Row>>, right: Option<seq<Row>>,
                                   mono: Option<seq<Row>>, parse: Parser, synth: Synth, filterLen: nat)
    requires KernelFits(synth, filterLen)
    requires srate >= MinSampleRate
    ensures Behaviour(Flags(true, false, true), Some(srate), left, right, mono, parse, synth, filterLen)
      == Report(Exit(3), [])
    ensures Behaviour(Flags(false, true, false), Some(srate), left, right, mono, parse, synth, filterLen)
      == Report(Exit(3), [])
  {
  }
}
