/** The option handling of `main`: the `for opt, arg in opts` loop over what
    `getopt` returned, then the checks and defaults applied to the settings
    it leaves. */
module CommandLine {
  import opened Base

  /** `sec_uni`, `iso_date`, `output_file`, `analysts_file` and `broker`. */
  datatype Settings = Settings(secUni: string, isoDate: string, outputFile: string, analystsFile: string, broker: string)

  /** All five start as the empty string. */
  const Unset := Settings("", "", "", "", "")

  datatype Field = SecUni | IsoDate | OutputFile | AnalystsFile | Broker

  /** The setting an option writes: its short and its long spelling write the
      same one; any other option writes none. */
  function FieldOf(opt: string): Option<Field> {
    if opt == "-s" || opt == "--securities" then Some(SecUni)
    else if opt == "-b" || opt == "--broker" then Some(Broker)
    else if opt == "-d" || opt == "--date" then Some(IsoDate)
    else if opt == "-a" || opt == "--analysts" then Some(AnalystsFile)
    else if opt == "-o" || opt == "--output" then Some(OutputFile)
    else None
  }

  function Get(s: Settings, f: Field): string {
    match f
    case SecUni => s.secUni
    case IsoDate => s.isoDate
    case OutputFile => s.outputFile
    case AnalystsFile => s.analystsFile
    case Broker => s.broker
  }

  /** Assigning one setting changes that one and no other. */
  function Set(s: Settings, f: Field, v: string): (r: Settings)
    ensures Get(r, f) == v
    ensures forall g :: g != f ==> Get(r, g) == Get(s, g)
  {
    match f
    case SecUni => s.(secUni := v)
    case IsoDate => s.(isoDate := v)
    case OutputFile => s.(outputFile := v)
    case AnalystsFile => s.(analystsFile := v)
    case Broker => s.(broker := v)
  }

  /** Which spellings of the help option end the loop: the loop as written
      compares with `-h` only, although `getopt` also accepts `--help`. */
  datatype HelpForms = ShortOnly | ShortAndLong

  predicate IsHelp(opt: string, forms: HelpForms) {
    opt == "-h" || (forms == ShortAndLong && opt == "--help")
  }

  datatype Parsed = HelpRequested | Options(settings: Settings)

  /** The loop over the options, from the settings `s`. */
  function FoldOptions(opts: seq<(string, string)>, s: Settings, forms: HelpForms): Parsed {
    if opts == [] then Options(s)
    else if IsHelp(opts[0].0, forms) then HelpRequested
    else match FieldOf(opts[0].0)
      case None => FoldOptions(opts[1..], s, forms)
      case Some(f) => FoldOptions(opts[1..], Set(s, f, opts[0].1), forms)
  }

  method ParseOptions(opts: seq<(string, string)>, forms: HelpForms) returns (r: Parsed)
    ensures r == FoldOptions(opts, Unset, forms)
  {
    var settings := Unset;
    var k := 0;
    while k < |opts|
      invariant 0 <= k <= |opts|
      invariant FoldOptions(opts, Unset, forms) == FoldOptions(opts[k..], settings, forms)
    {
      var (opt, arg) := opts[k];
      assert opts[k..][1..] == opts[k + 1..];
      if opt == "-h" || (forms == ShortAndLong && opt == "--help") {
        return HelpRequested;
      } else if opt == "-s" || opt == "--securities" {
        settings := settings.(secUni := arg);
      } else if opt == "-b" || opt == "--broker" {
        settings := settings.(broker := arg);
      } else if opt == "-d" || opt == "--date" {
        settings := settings.(isoDate := arg);
      } else if opt == "-a" || opt == "--analysts" {
        settings := settings.(analystsFile := arg);
      } else if opt == "-o" || opt == "--output" {
        settings := settings.(outputFile := arg);
      }
      k := k + 1;
    }
    return Options(settings);
  }

  /** The argument of the last option that writes `f`, if any. */
  function LastArg(opts: seq<(string, string)>, f: Field): Option<string> {
    if opts == [] then None
    else match LastArg(opts[1..], f)
      case Some(v) => Some(v)
      case None => if FieldOf(opts[0].0) == Some(f) then Some(opts[0].1) else None
  }

  /** The loop stops with help exactly when some option is a help option. */
  lemma {:induction false} HelpIffFlag(opts: seq<(string, string)>, s: Settings, forms: HelpForms)
    ensures FoldOptions(opts, s, forms).HelpRequested? <==>
      exists k :: 0 <= k < |opts| && IsHelp(opts[k].0, forms)
    decreases |opts|
  {
    if opts != [] && !IsHelp(opts[0].0, forms) {
      var s' := match FieldOf(opts[0].0) case None => s case Some(f) => Set(s, f, opts[0].1);
      HelpIffFlag(opts[1..], s', forms);
      if exists k :: 0 <= k < |opts| && IsHelp(opts[k].0, forms) {
        var k :| 0 <= k < |opts| && IsHelp(opts[k].0, forms);
        assert opts[1..][k - 1] == opts[k];
      }
      if exists k :: 0 <= k < |opts[1..]| && IsHelp(opts[1..][k].0, forms) {
        var k :| 0 <= k < |opts[1..]| && IsHelp(opts[1..][k].0, forms);
        assert opts[k + 1] == opts[1..][k];
      }
    }
  }

  /** Without a help option every setting ends as the argument of the last
      option that writes it, and keeps its starting value if none does. */
  lemma {:induction false} FoldKeepsLast(opts: seq<(string, string)>, s: Settings, forms: HelpForms)
    requires forall k :: 0 <= k < |opts| ==> !IsHelp(opts[k].0, forms)
    ensures FoldOptions(opts, s, forms).Options?
    ensures forall f :: Get(FoldOptions(opts, s, forms).settings, f) == LastArg(opts, f).GetOr(Get(s, f))
    decreases |opts|
  {
    if opts != [] {
      assert !IsHelp(opts[0].0, forms);
      var s' := match FieldOf(opts[0].0) case None => s case Some(g) => Set(s, g, opts[0].1);
      assert forall k :: 0 <= k < |opts[1..]| ==> opts[1..][k] == opts[k + 1];
      FoldKeepsLast(opts[1..], s', forms);
      assert FoldOptions(opts, s, forms) == FoldOptions(opts[1..], s', forms);
    }
  }

  /** From the starting settings: each ends as its last option's argument,
      or empty when no option writes it. */
  lemma FoldSettings(opts: seq<(string, string)>, forms: HelpForms)
    requires forall k :: 0 <= k < |opts| ==> !IsHelp(opts[k].0, forms)
    ensures FoldOptions(opts, Unset, forms).Options?
    ensures var s := FoldOptions(opts, Unset, forms).settings;
      && s.secUni == LastArg(opts, SecUni).GetOr("")
      && s.isoDate == LastArg(opts, IsoDate).GetOr("")
      && s.outputFile == LastArg(opts, OutputFile).GetOr("")
      && s.analystsFile == LastArg(opts, AnalystsFile).GetOr("")
      && s.broker == LastArg(opts, Broker).GetOr("")
  {
    FoldKeepsLast(opts, Unset, forms);
    var s := FoldOptions(opts, Unset, forms).settings;
    assert Get(s, SecUni) == s.secUni && Get(Unset, SecUni) == "";
    assert Get(s, IsoDate) == s.isoDate && Get(Unset, IsoDate) == "";
    assert Get(s, OutputFile) == s.outputFile && Get(Unset, OutputFile) == "";
    assert Get(s, AnalystsFile) == s.analystsFile && Get(Unset, AnalystsFile) == "";
    assert Get(s, Broker) == s.broker && Get(Unset, Broker) == "";
  }

  /** As written, `--help` writes no setting and does not stop the loop:
      the options after it are read as if it were absent. */
  lemma LongHelpIgnoredAsWritten(opts: seq<(string, string)>, s: Settings)
    ensures FoldOptions([("--help", "")] + opts, s, ShortOnly) == FoldOptions(opts, s, ShortOnly)
  {
    assert ([("--help", "")] + opts)[1..] == opts;
  }

  /** Corrected, `--help` anywhere requests the usage text, as `-h` does. */
  lemma LongHelpHonoured(before: seq<(string, string)>, after: seq<(string, string)>, s: Settings)
    ensures FoldOptions(before + [("--help", "")] + after, s, ShortAndLong) == HelpRequested
  {
    var opts := before + [("--help", "")] + after;
    assert opts[|before|] == ("--help", "");
    HelpIffFlag(opts, s, ShortAndLong);
  }

  datatype Setup = SetupExit(status: int) | SetupReady(settings: Settings)

  /** The checks after the loop: a missing security file or broker code exits
      with status 2; a missing date becomes `yesterday`; a missing output file
      becomes `report_<date>.pdf`. */
  function Finalize(s: Settings, yesterday: string): (r: Setup)
    ensures r.SetupExit? <==> s.secUni == "" || s.broker == ""
    ensures r.SetupExit? ==> r.status == 2
    ensures r.SetupReady? ==>
      && r.settings.secUni == s.secUni != ""
      && r.settings.broker == s.broker != ""
      && r.settings.analystsFile == s.analystsFile
      && r.settings.isoDate == (if s.isoDate == "" then yesterday else s.isoDate)
      && (s.outputFile != "" ==> r.settings.outputFile == s.outputFile)
      && (s.outputFile == "" ==> r.settings.outputFile == "report_" + r.settings.isoDate + ".pdf")
      && r.settings.outputFile != ""
  {
    if s.secUni == "" then SetupExit(2)
    else if s.broker == "" then SetupExit(2)
    else
      var isoDate := if s.isoDate == "" then yesterday else s.isoDate;
      var outputFile := if s.outputFile == "" then "report_" + isoDate + ".pdf" else s.outputFile;
      SetupReady(s.(isoDate := isoDate, outputFile := outputFile))
  }
}
