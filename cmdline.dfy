/** Command-line helpers (`src/cmdline.rs`): the effective terminal width,
  * the command-line context and its settings, program-name validation and
  * the human-readable duration and byte-count formats.
  *
  * Terminal detection reads the environment and the terminal; the model
  * takes its result as a value. */
module Cmdline {
  import opened Common
  import opened Text

  /** `TerminalInfo`: what detection found out about standard output. */
  datatype TerminalInfo = TerminalInfo(
    width: Option<nat>,
    height: Option<nat>,
    supportsColor: bool,
    supportsUtf8: bool,
    isRedirected: bool)
  {
    /** `effective_width`: unlimited when output is redirected, otherwise
      * the detected width or 80 columns. */
    function EffectiveWidth(): (w: nat)
      ensures isRedirected ==> w == USIZE_MAX
      ensures !isRedirected ==> w == (if width.Some? then width.value else 80)
    {
      if isRedirected then USIZE_MAX
      else match width
        case Some(n) => n
        case None => 80
    }
  }

  /** A boxed progress callback, identified by the closure it holds. */
  type ProgressCallback = nat

  /** `CmdlineContext`: terminal information, an optional progress
    * callback, and the quiet and verbosity settings. */
  class CmdlineContext {
    var terminal: TerminalInfo
    var progressCallback: Option<ProgressCallback>
    var quiet: bool
    var verbose: u8

    /** `CmdlineContext::new`, with the detected terminal passed in. */
    constructor New(terminal: TerminalInfo)
      ensures this.terminal == terminal && progressCallback == None
      ensures !quiet && verbose == 0
      ensures !ShouldShowProgress()
    {
      this.terminal := terminal;
      progressCallback := None;
      quiet := false;
      verbose := 0;
    }

    /** `should_show_progress`. */
    predicate ShouldShowProgress()
      reads this
    {
      !quiet && !terminal.isRedirected && progressCallback.Some?
    }

    method SetProgressCallback(callback: ProgressCallback)
      modifies this
      ensures progressCallback == Some(callback)
      ensures terminal == old(terminal) && quiet == old(quiet) && verbose == old(verbose)
      ensures ShouldShowProgress() <==> !quiet && !terminal.isRedirected
    {
      progressCallback := Some(callback);
    }

    method ClearProgressCallback()
      modifies this
      ensures progressCallback == None
      ensures terminal == old(terminal) && quiet == old(quiet) && verbose == old(verbose)
      ensures !ShouldShowProgress()
    {
      progressCallback := None;
    }

    method SetQuiet(quiet: bool)
      modifies this
      ensures this.quiet == quiet
      ensures terminal == old(terminal) && progressCallback == old(progressCallback) && verbose == old(verbose)
      ensures quiet ==> !ShouldShowProgress()
    {
      this.quiet := quiet;
    }

    method SetVerbose(level: u8)
      modifies this
      ensures verbose == level
      ensures terminal == old(terminal) && progressCallback == old(progressCallback) && quiet == old(quiet)
      ensures ShouldShowProgress() == old(ShouldShowProgress())
    {
      verbose := level;
    }
  }

  const EMPTY_PROGRAM_NAME: string := "Program name cannot be empty"

  /** `init`: only the program name is checked. */
  function Init(programName: string): (r: Result<()>)
    ensures r.Failure? <==> programName == []
    ensures r.Failure? ==> r.error == EMPTY_PROGRAM_NAME
  {
    if programName == [] then Failure(EMPTY_PROGRAM_NAME) else Success(())
  }

  /** The hours, minutes and seconds `format_duration` prints. */
  datatype DurationFields = DurationFields(hours: nat, minutes: nat, seconds: nat)

  function Fields(secs: nat): (f: DurationFields)
    ensures f.hours * 3600 + f.minutes * 60 + f.seconds == secs
    ensures f.minutes < 60 && f.seconds < 60
  {
    var hours, rest := secs / 3600, secs % 3600;
    assert secs == hours * 3600 + rest && rest == rest / 60 * 60 + rest % 60;
    assert secs % 60 == rest % 60;
    DurationFields(hours, rest / 60, secs % 60)
  }

  /** `format_duration`: `Ns` below a minute, `MmSs` below an hour and
    * `HhMmSs` otherwise, with the fields of `Fields`. */
  function FormatDuration(secs: nat): (s: string)
    ensures secs < 60 ==> s == NatToString(Fields(secs).seconds) + "s"
    ensures 60 <= secs < 3600 ==>
      s == NatToString(Fields(secs).minutes) + "m" + NatToString(Fields(secs).seconds) + "s"
    ensures 3600 <= secs ==>
      s == NatToString(Fields(secs).hours) + "h" + NatToString(Fields(secs).minutes) + "m"
        + NatToString(Fields(secs).seconds) + "s"
  {
    if secs < 60 then NatToString(secs) + "s"
    else if secs < 3600 then NatToString(secs / 60) + "m" + NatToString(secs % 60) + "s"
    else NatToString(secs / 3600) + "h" + NatToString((secs % 3600) / 60) + "m" + NatToString(secs % 60) + "s"
  }

  /** The three fields determine the duration. */
  lemma FieldsDetermine(a: nat, b: nat)
    requires Fields(a) == Fields(b)
    ensures a == b
  {
  }

  /** The output of `format_duration` as a leading number, the marker
    * after it, and the rest. */
  lemma FormatDurationShape(secs: nat) returns (lead: nat, marker: char, rest: string)
    ensures FormatDuration(secs) == NatToString(lead) + [marker] + rest
    ensures !IsDigit(marker)
    ensures secs < 60 ==> lead == secs && marker == 's' && rest == []
    ensures 60 <= secs < 3600 ==>
      lead == Fields(secs).minutes && marker == 'm' && rest == NatToString(Fields(secs).seconds) + "s"
    ensures 3600 <= secs ==>
      lead == Fields(secs).hours && marker == 'h'
      && rest == NatToString(Fields(secs).minutes) + "m" + NatToString(Fields(secs).seconds) + "s"
  {
    var f := Fields(secs);
    var h, m, s := NatToString(f.hours), NatToString(f.minutes), NatToString(f.seconds);
    if secs < 60 {
      lead, marker, rest := secs, 's', [];
    } else if secs < 3600 {
      lead, marker, rest := f.minutes, 'm', s + "s";
      assert m + "m" + s + "s" == m + ['m'] + (s + "s");
    } else {
      lead, marker, rest := f.hours, 'h', m + "m" + s + "s";
      assert h + "h" + m + "m" + s + "s" == h + ['h'] + (m + "m" + s + "s");
    }
  }

  /** Distinct durations are formatted differently. */
  lemma FormatDurationInjective(a: nat, b: nat)
    requires FormatDuration(a) == FormatDuration(b)
    ensures a == b
  {
    var fa, fb := Fields(a), Fields(b);
    var la, ca, ra := FormatDurationShape(a);
    var lb, cb, rb := FormatDurationShape(b);
    NatThenMarker(la, ca, ra, lb, cb, rb);
    var sa, sb := NatToString(fa.seconds), NatToString(fb.seconds);
    if 60 <= a < 3600 {
      assert sa + "s" == sb + "s";
      NatThenMarker(fa.seconds, 's', [], fb.seconds, 's', []);
    } else if 3600 <= a {
      var ma, mb := NatToString(fa.minutes), NatToString(fb.minutes);
      assert ma + "m" + sa + "s" == ma + ['m'] + (sa + "s");
      assert mb + "m" + sb + "s" == mb + ['m'] + (sb + "s");
      NatThenMarker(fa.minutes, 'm', sa + "s", fb.minutes, 'm', sb + "s");
      NatThenMarker(fa.seconds, 's', [], fb.seconds, 's', []);
    }
    FieldsDetermine(a, b);
  }

  /** The durations of the crate's own unit test. */
  lemma FormatDurationExamples()
    ensures FormatDuration(30) == "30s"
    ensures FormatDuration(90) == "1m30s"
    ensures FormatDuration(3661) == "1h1m1s"
  {
    assert NatToString(30) == "30";
    assert NatToString(1) == "1";
  }

  /** `format_bytes` below 1024 bytes, the integer branch: the count and
    * the unit `B`. Larger counts are scaled in floating point and are not
    * modelled (`None`). */
  function FormatBytes(bytes: nat): (r: Option<string>)
    ensures r.Some? <==> bytes < 1024
    ensures r.Some? ==> r.value == NatToString(bytes) + " B"
  {
    if bytes == 0 then Some("0 B")
    else if bytes < 1024 then Some(NatToString(bytes) + " B")
    else None
  }
}
