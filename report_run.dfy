/** `main`: options, session start-up, the two CSV files, the per-security
    rankings, the broker's overall position and the content of the PDF. */
module ReportRun {
  import opened Base
  import opened Events
  import opened CsvImport
  import opened RankData
  import opened PositionData
  import opened CommandLine

  /** Whether `session.start()` and the two `openService` calls succeed. */
  datatype SessionStatus = SessionStatus(started: bool, rankApiOpened: bool, refDataOpened: bool)

  /** The files that can be opened, by name, already split into CSV rows. */
  type Files = map<string, Table>

  /** Opening a file and dropping its title row. The empty name joined to the
      script's directory names that directory, which `open` refuses. */
  function ReadTable(files: Files, name: string): (r: Result<Table>)
    ensures name == "" || name !in files ==> r == Err(FileError)
    ensures name != "" && name in files ==> r == DropHeader(files[name])
  {
    if name != "" && name in files then DropHeader(files[name]) else Err(FileError)
  }

  /** What `generate_output` draws: the header values, the broker's ranking
      with the rows above and below it, and one line per security. */
  datatype PdfContent = PdfContent(
    outputFile: string, isoDate: string, overallTotal: int,
    above: Entry, own: PosRow, below: Entry,
    rankData: seq<RankRow>)

  datatype RunOutcome =
    | Exit(status: int)          // `sys.exit`
    | Crash(error: PyError)      // an uncaught Python exception
    | Hang                       // polling that never ends
    | Generated(pdf: PdfContent)

  /** `generate_output` reads the first three entries of `position_data` and
      the fields of the second one; any of them missing raises IndexError. */
  function GenerateOutput(outputFile: string, posData: seq<Entry>, rankData: seq<RankRow>, overallTotal: int, isoDate: string): (r: RunOutcome)
    ensures r.Generated? <==> |posData| >= 3 && posData[1].Some?
    ensures !r.Generated? ==> r == Crash(IndexError)
    ensures r.Generated? ==>
      && [r.pdf.above, Some(r.pdf.own), r.pdf.below] == posData[..3]
      && r.pdf.rankData == rankData && r.pdf.overallTotal == overallTotal
      && r.pdf.outputFile == outputFile && r.pdf.isoDate == isoDate
  {
    if |posData| < 2 || posData[1].None? || |posData| < 3 then Crash(IndexError)
    else Generated(PdfContent(outputFile, isoDate, overallTotal, posData[0], posData[1].value, posData[2], rankData))
  }

  /** The readings of the source that differ: which help spellings end the
      option loop, how many values `get_position_data` returns when the
      ranking reply holds an Exception (`main` unpacks three), and whether a
      missing `-a` option means no mappings or a file to open all the same. */
  datatype Variant = Variant(helpForms: HelpForms, failureArity: nat, optionalMappings: bool)

  const AsWritten := Variant(ShortOnly, 2, false)
  const Corrected := Variant(ShortAndLong, 3, true)

  /** The analyst mappings `main` goes on with: none when the file is
      optional and not given, otherwise the file read as any other. */
  function LoadMappings(v: Variant, files: Files, name: string): (r: Result<Table>)
    ensures v.optionalMappings && name == "" ==> r == Ok([])
    ensures !v.optionalMappings && name == "" ==> r == Err(FileError)
    ensures name != "" ==> r == ReadTable(files, name)
  {
    if v.optionalMappings && name == "" then Ok([]) else ReadTable(files, name)
  }

  /** Unpacking `position_data, overall_total, success` from the failure
      value: a pair raises ValueError, a triple leads to `sys.exit(2)`. */
  function UnpackPositionFailure(arity: nat): (r: RunOutcome)
    ensures arity == 3 <==> r == Exit(2)
    ensures arity != 3 <==> r == Crash(ValueError)
  {
    if arity == 3 then Exit(2) else Crash(ValueError)
  }

  /** How far `main` gets before it requests the broker's position. */
  datatype Stage =
    | Finished(outcome: RunOutcome)
    | Prepared(settings: Settings, securities: Table, mappings: Table, rankData: seq<RankRow>, next: nat)

  /** `main` up to and including `get_rank_data`; `parsed` is what `getopt`
      returns, or None when it raises. */
  function Prepare(v: Variant, parsed: Option<seq<(string, string)>>, yesterday: string, session: SessionStatus, files: Files, events: seq<Event>): (r: Stage)
    ensures r.Prepared? ==>
      && parsed.Some?
      && session.started && session.rankApiOpened && session.refDataOpened
      && r.settings.secUni != "" && r.settings.broker != "" && r.settings.outputFile != ""
      && ReadTable(files, r.settings.secUni) == Ok(r.securities)
      && LoadMappings(v, files, r.settings.analystsFile) == Ok(r.mappings)
      && |r.rankData| == |r.securities|
      && forall j :: 0 <= j < |r.securities| ==> RowOf(r.rankData[j], r.securities[j], r.mappings)
  {
    match parsed
    case None => Finished(Exit(2))
    case Some(opts) =>
      match FoldOptions(opts, Unset, v.helpForms)
      case HelpRequested => Finished(Exit(0))
      case Options(s) =>
        match Finalize(s, yesterday)
        case SetupExit(status) => Finished(Exit(status))
        case SetupReady(cfg) =>
          if !session.started || !session.rankApiOpened || !session.refDataOpened then Finished(Exit(2))
          else
            match ReadTable(files, cfg.secUni)
            case Err(e) => Finished(Crash(e))
            case Ok(securities) =>
              match LoadMappings(v, files, cfg.analystsFile)
              case Err(e) => Finished(Crash(e))
              case Ok(mappings) =>
                match RankFrom(securities, mappings, events, 0, InitialCarry, [])
                case RankException => Finished(Exit(2))
                case RankCrash(e) => Finished(Crash(e))
                case RankStalled => Finished(Hang)
                case RankRows(rankData, next) => Prepared(cfg, securities, mappings, rankData, next)
  }

  /** The whole of `main` under one reading of the source. */
  function RunWith(v: Variant, parsed: Option<seq<(string, string)>>, yesterday: string, session: SessionStatus, files: Files, events: seq<Event>): RunOutcome {
    match Prepare(v, parsed, yesterday, session, files, events)
    case Finished(o) => o
    case Prepared(cfg, securities, _, rankData, next) =>
      match PositionDataOf(securities, cfg.broker, events, next)
      case PosException => UnpackPositionFailure(v.failureArity)
      case PosCrash(e) => Crash(e)
      case PosStalled => Hang
      case Positions(posData, total, _, _) => GenerateOutput(cfg.outputFile, posData, rankData, total, cfg.isoDate)
  }

  /** `main` with both corrections applied. */
  function Run(parsed: Option<seq<(string, string)>>, yesterday: string, session: SessionStatus, files: Files, events: seq<Event>): RunOutcome {
    RunWith(Corrected, parsed, yesterday, session, files, events)
  }

  /** `main`, under either reading of the source. */
  method RunReport(v: Variant, parsed: Option<seq<(string, string)>>, yesterday: string, session: SessionStatus, files: Files, events: seq<Event>) returns (o: RunOutcome)
    ensures o == RunWith(v, parsed, yesterday, session, files, events)
  {
    if parsed.None? {
      return Exit(2);
    }
    var opts := ParseOptions(parsed.value, v.helpForms);
    if opts.HelpRequested? {
      return Exit(0);
    }
    var setup := Finalize(opts.settings, yesterday);
    if setup.SetupExit? {
      return Exit(setup.status);
    }
    var cfg := setup.settings;
    if !session.started || !session.rankApiOpened || !session.refDataOpened {
      return Exit(2);
    }
    if cfg.secUni !in files {
      return Crash(FileError);
    }
    var securities := ImportSecurities(files[cfg.secUni]);
    if securities.Err? {
      return Crash(securities.error);
    }
    var mappings: Table := [];
    if !v.optionalMappings || cfg.analystsFile != "" {
      if cfg.analystsFile == "" || cfg.analystsFile !in files {
        return Crash(FileError);
      }
      var imported := ImportAnalystMappings(files[cfg.analystsFile]);
      if imported.Err? {
        return Crash(imported.error);
      }
      mappings := imported.value;
    }
    var ranked := GetRankData(securities.value, mappings, events, 0);
    if ranked.RankException? {
      return Exit(2);
    } else if ranked.RankCrash? {
      return Crash(ranked.error);
    } else if ranked.RankStalled? {
      return Hang;
    }
    var position := GetPositionData(securities.value, cfg.broker, events, ranked.next);
    if position.PosException? {
      return UnpackPositionFailure(v.failureArity);
    } else if position.PosCrash? {
      return Crash(position.error);
    } else if position.PosStalled? {
      return Hang;
    }
    return GenerateOutput(cfg.outputFile, position.posData, ranked.rows, position.total, cfg.isoDate);
  }

  /** A help option exits with status 0, whatever else is given. */
  lemma HelpExitsZero(v: Variant, opts: seq<(string, string)>, yesterday: string, session: SessionStatus, files: Files, events: seq<Event>)
    requires exists k :: 0 <= k < |opts| && IsHelp(opts[k].0, v.helpForms)
    ensures RunWith(v, Some(opts), yesterday, session, files, events) == Exit(0)
  {
    HelpIffFlag(opts, Unset, v.helpForms);
  }

  /** Without a help option, a missing or empty security file or broker code
      exits with status 2 before the session is used or any file is read. */
  lemma RequiredOptionsExit(v: Variant, opts: seq<(string, string)>, yesterday: string, session: SessionStatus, files: Files, events: seq<Event>)
    requires forall k :: 0 <= k < |opts| ==> !IsHelp(opts[k].0, v.helpForms)
    requires LastArg(opts, SecUni).GetOr("") == "" || LastArg(opts, Broker).GetOr("") == ""
    ensures RunWith(v, Some(opts), yesterday, session, files, events) == Exit(2)
  {
    FoldSettings(opts, v.helpForms);
    var s := FoldOptions(opts, Unset, v.helpForms).settings;
    assert Finalize(s, yesterday) == SetupExit(2);
    assert Prepare(v, Some(opts), yesterday, session, files, events) == Finished(Exit(2));
  }

  /** A generated report names the file and date the options gave, or the
      defaults (yesterday, `report_<date>.pdf`); it has one line per data row
      of the security file, in order, each with the analyst the mapping file
      gives, or an empty analyst when no mapping file is named; and it shows
      the broker's own row with a row below it. */
  lemma GeneratedReport(opts: seq<(string, string)>, yesterday: string, session: SessionStatus, files: Files, events: seq<Event>)
    requires Run(Some(opts), yesterday, session, files, events).Generated?
    ensures var pdf := Run(Some(opts), yesterday, session, files, events).pdf;
      && session.started && session.rankApiOpened && session.refDataOpened
      && pdf.isoDate == (if LastArg(opts, IsoDate).GetOr("") == "" then yesterday else LastArg(opts, IsoDate).value)
      && pdf.outputFile == (if LastArg(opts, OutputFile).GetOr("") == "" then "report_" + pdf.isoDate + ".pdf" else LastArg(opts, OutputFile).value)
      && var secFile, mapFile := LastArg(opts, SecUni).GetOr(""), LastArg(opts, AnalystsFile).GetOr("");
      && secFile in files && |files[secFile]| > 0
      && |pdf.rankData| == |files[secFile]| - 1
      && (mapFile == "" ==>
            forall j :: 0 <= j < |pdf.rankData| ==> RowOf(pdf.rankData[j], files[secFile][j + 1], []))
      && (mapFile != "" ==>
            && mapFile in files && |files[mapFile]| > 0
            && forall j :: 0 <= j < |pdf.rankData| ==> RowOf(pdf.rankData[j], files[secFile][j + 1], files[mapFile][1..]))
      && pdf.own.acronym == LastArg(opts, Broker).GetOr("")
      && pdf.below.Some?
  {
    var st := Prepare(Corrected, Some(opts), yesterday, session, files, events);
    PreparedFromOptions(Corrected, opts, yesterday, session, files, events);
    var secFile, mapFile := LastArg(opts, SecUni).GetOr(""), LastArg(opts, AnalystsFile).GetOr("");
    if mapFile != "" {
      assert st.mappings == files[mapFile][1..];
    }
    GeneratedPosition(st.settings, st.rankData, events, st.securities, st.next);
  }

  /** The settings `main` proceeds with are those the last options gave,
      with the defaults filled in. */
  lemma PreparedFromOptions(v: Variant, opts: seq<(string, string)>, yesterday: string, session: SessionStatus, files: Files, events: seq<Event>)
    requires Prepare(v, Some(opts), yesterday, session, files, events).Prepared?
    ensures var cfg := Prepare(v, Some(opts), yesterday, session, files, events).settings;
      && cfg.secUni == LastArg(opts, SecUni).GetOr("")
      && cfg.broker == LastArg(opts, Broker).GetOr("")
      && cfg.analystsFile == LastArg(opts, AnalystsFile).GetOr("")
      && cfg.isoDate == (if LastArg(opts, IsoDate).GetOr("") == "" then yesterday else LastArg(opts, IsoDate).value)
      && cfg.outputFile == (if LastArg(opts, OutputFile).GetOr("") == "" then "report_" + cfg.isoDate + ".pdf" else LastArg(opts, OutputFile).value)
  {
    var cfg := PreparedSetup(v, opts, yesterday, session, files, events);
    HelpIffFlag(opts, Unset, v.helpForms);
    FoldSettings(opts, v.helpForms);
  }

  /** Reaching the position request means the option loop ended without help
      and the checks after it passed. */
  lemma PreparedSetup(v: Variant, opts: seq<(string, string)>, yesterday: string, session: SessionStatus, files: Files, events: seq<Event>)
    returns (s: Settings)
    requires Prepare(v, Some(opts), yesterday, session, files, events).Prepared?
    ensures FoldOptions(opts, Unset, v.helpForms) == Options(s)
    ensures Finalize(s, yesterday) == SetupReady(Prepare(v, Some(opts), yesterday, session, files, events).settings)
  {
    s := FoldOptions(opts, Unset, v.helpForms).settings;
  }

  /** When the PDF is drawn, it shows the broker's own row and a row below. */
  lemma GeneratedPosition(cfg: Settings, rankData: seq<RankRow>, events: seq<Event>, securities: Table, next: nat)
    requires var o := PositionDataOf(securities, cfg.broker, events, next);
      o.Positions? && GenerateOutput(cfg.outputFile, o.posData, rankData, o.total, cfg.isoDate).Generated?
    ensures var o := PositionDataOf(securities, cfg.broker, events, next);
      var pdf := GenerateOutput(cfg.outputFile, o.posData, rankData, o.total, cfg.isoDate).pdf;
      pdf.own.acronym == cfg.broker && pdf.below.Some?
  {
    var o := PositionDataOf(securities, cfg.broker, events, next);
    PositionsFromStart(events, next, cfg.broker);
    BrokerWindowOwn(o.posData, o.records, cfg.broker);
    var pdf := GenerateOutput(cfg.outputFile, o.posData, rankData, o.total, cfg.isoDate).pdf;
    assert Some(pdf.own) == [pdf.above, Some(pdf.own), pdf.below][1] == o.posData[1];
  }

  /** A broker that appears nowhere in the ranking but possibly last leaves
      `position_data` empty, and drawing the PDF raises IndexError. */
  lemma BrokerAbsentCrashes(v: Variant, parsed: Option<seq<(string, string)>>, yesterday: string, session: SessionStatus, files: Files, events: seq<Event>)
    requires Prepare(v, parsed, yesterday, session, files, events).Prepared?
    requires var st := Prepare(v, parsed, yesterday, session, files, events);
      var o := PositionDataOf(st.securities, st.settings.broker, events, st.next);
      o.Positions? && forall m :: 0 <= m < |o.records| - 1 ==> o.records[m].acronym != st.settings.broker
    ensures RunWith(v, parsed, yesterday, session, files, events) == Crash(IndexError)
  {
    var st := Prepare(v, parsed, yesterday, session, files, events);
    PositionsFromStart(events, st.next, st.settings.broker);
  }

  /** Once `main` reaches the position request, a reply holding an Exception
      before the RESPONSE that ends the polling makes the request fail. */
  lemma PositionRequestFails(v: Variant, parsed: Option<seq<(string, string)>>, yesterday: string, session: SessionStatus, files: Files, events: seq<Event>, q: nat)
    requires var st := Prepare(v, parsed, yesterday, session, files, events);
      st.Prepared? && st.next <= q && ExceptionAt(events, q) && ClearBetween(events, st.next, q)
    ensures var st := Prepare(v, parsed, yesterday, session, files, events);
      PositionDataOf(st.securities, st.settings.broker, events, st.next) == PosException
  {
    var st := Prepare(v, parsed, yesterday, session, files, events);
    assert forall j :: 0 <= j < |st.securities| ==> |st.securities[j]| > 0;
    ExceptionBeforeStop(events, st.next, st.settings.broker, [], 0, [], q);
  }

  /** As written, such a reply makes `main` fail to unpack the pair
      returned, raising ValueError. */
  lemma PositionFailureAsWritten(parsed: Option<seq<(string, string)>>, yesterday: string, session: SessionStatus, files: Files, events: seq<Event>, q: nat)
    requires var st := Prepare(AsWritten, parsed, yesterday, session, files, events);
      st.Prepared? && st.next <= q && ExceptionAt(events, q) && ClearBetween(events, st.next, q)
    ensures RunWith(AsWritten, parsed, yesterday, session, files, events) == Crash(ValueError)
  {
    PositionRequestFails(AsWritten, parsed, yesterday, session, files, events, q);
  }

  /** Corrected, it exits with status 2, as a failed per-security ranking
      does. */
  lemma PositionFailureExits(parsed: Option<seq<(string, string)>>, yesterday: string, session: SessionStatus, files: Files, events: seq<Event>, q: nat)
    requires var st := Prepare(Corrected, parsed, yesterday, session, files, events);
      st.Prepared? && st.next <= q && ExceptionAt(events, q) && ClearBetween(events, st.next, q)
    ensures Run(parsed, yesterday, session, files, events) == Exit(2)
  {
    PositionRequestFails(Corrected, parsed, yesterday, session, files, events, q);
  }

  /** As written, `--help` alone is read as no option at all, so the run
      stops on the missing security file with status 2. */
  lemma LongHelpAsWritten(yesterday: string, session: SessionStatus, files: Files, events: seq<Event>)
    ensures RunWith(AsWritten, Some([("--help", "")]), yesterday, session, files, events) == Exit(2)
  {
    LongHelpIgnoredAsWritten([], Unset);
  }

  /** Corrected, `--help` anywhere among the options exits with status 0. */
  lemma LongHelpExitsZero(before: seq<(string, string)>, after: seq<(string, string)>, yesterday: string, session: SessionStatus, files: Files, events: seq<Event>)
    ensures Run(Some(before + [("--help", "")] + after), yesterday, session, files, events) == Exit(0)
  {
    LongHelpHonoured(before, after, Unset);
  }

  /** As written, leaving out `-a` makes `main` open the script's directory
      as the mapping file once the session is up and the security file read,
      which raises. */
  lemma NoMappingsAsWritten(opts: seq<(string, string)>, yesterday: string, session: SessionStatus, files: Files, events: seq<Event>)
    requires forall k :: 0 <= k < |opts| ==> !IsHelp(opts[k].0, ShortOnly)
    requires LastArg(opts, SecUni).GetOr("") != "" && LastArg(opts, Broker).GetOr("") != ""
    requires LastArg(opts, AnalystsFile).GetOr("") == ""
    requires session.started && session.rankApiOpened && session.refDataOpened
    requires ReadTable(files, LastArg(opts, SecUni).GetOr("")).Ok?
    ensures RunWith(AsWritten, Some(opts), yesterday, session, files, events) == Crash(FileError)
  {
    FoldSettings(opts, ShortOnly);
    var s := FoldOptions(opts, Unset, ShortOnly).settings;
    var fin := Finalize(s, yesterday);
    assert fin.SetupReady? && fin.settings.analystsFile == "";
  }

  /** Corrected, a run without `-a` goes on with no mappings, and every row of
      the report has an empty analyst. */
  lemma NoMappingsBlankAnalysts(opts: seq<(string, string)>, yesterday: string, session: SessionStatus, files: Files, events: seq<Event>)
    requires Run(Some(opts), yesterday, session, files, events).Generated?
    requires LastArg(opts, AnalystsFile).GetOr("") == ""
    ensures var pdf := Run(Some(opts), yesterday, session, files, events).pdf;
      forall j :: 0 <= j < |pdf.rankData| ==> pdf.rankData[j].analyst == ""
  {
    GeneratedReport(opts, yesterday, session, files, events);
  }
}
