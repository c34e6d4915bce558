/** `get_rank_data`: one row per security, built from a ranking request and a
    reference-data request sent one after the other on the same session.
    The session is the stream `events`; `pos` is the next event it will
    deliver. */
module RankData {
  import opened Base
  import opened Events
  import opened AnalystLookup

  /** The locals `data_rank`, `data_volume`, `data_sector` and `data_lasttrade`,
      which keep their values from one security to the next. */
  datatype Carry = Carry(rank: int, volume: int, sector: string, lastTrade: real)

  const InitialCarry := Carry(0, 0, "", 0.0)

  /** `[data_security, data_rank, data_volume, data_sector, data_analyst, data_lasttrade]` */
  datatype RankRow = RankRow(security: string, rank: int, volume: int, sector: string, analyst: string, lastTrade: real)

  /** Rank and total volume of the last record, or the carried values when there is none. */
  function LastRecord(recs: seq<BrokerRecord>, c: Carry): Carry {
    if recs == [] then c
    else c.(rank := recs[|recs| - 1].rank, volume := recs[|recs| - 1].total)
  }

  lemma LastRecordAppend(a: seq<BrokerRecord>, b: seq<BrokerRecord>, c: Carry)
    ensures LastRecord(b, LastRecord(a, c)) == LastRecord(a + b, c)
  {
    if b != [] {
      assert (a + b)[|a + b| - 1] == b[|b| - 1];
    }
  }

  // ---------------------------------------------------------------------------
  // The ranking request (lines 72-113)

  datatype RankReply = RankReplyException | RankReplyHandled(carry: Carry, done: bool)

  /** What one RESPONSE event does: an Exception message anywhere in it aborts;
      otherwise every record of every Report overwrites rank and volume, and any
      Report ends the polling. */
  function ReadRankReply(msgs: seq<Message>, c: Carry): RankReply {
    if HasException(msgs) then RankReplyException
    else RankReplyHandled(LastRecord(ReportRecords(msgs), c), HasReport(msgs))
  }

  method HandleRankReply(msgs: seq<Message>, c: Carry) returns (r: RankReply)
    ensures r == ReadRankReply(msgs, c)
  {
    var carry := c;
    var done := false;
    var j := 0;
    while j < |msgs|
      invariant 0 <= j <= |msgs|
      invariant !HasException(msgs[..j])
      invariant carry == LastRecord(ReportRecords(msgs[..j]), c)
      invariant done == HasReport(msgs[..j])
    {
      var msg := msgs[j];
      assert msgs[..j + 1] == msgs[..j] + [msg];
      assert msgs[..j + 1][..j] == msgs[..j];
      if msg.Exception? {
        assert msgs[j].Exception?;
        return RankReplyException;
      } else if msg.Report? {
        var records := msg.records;
        ghost var before := carry;
        var n := 0;
        while n < |records|
          invariant 0 <= n <= |records|
          invariant carry == LastRecord(records[..n], before)
        {
          carry := carry.(rank := records[n].rank, volume := records[n].total);
          n := n + 1;
        }
        assert records[..n] == records;
        LastRecordAppend(ReportRecords(msgs[..j]), records, c);
        done := true;
      }
      j := j + 1;
    }
    assert msgs[..j] == msgs;
    return RankReplyHandled(carry, done);
  }

  /** An event that ends the polling of the ranking request. */
  predicate EndsRankPoll(ev: Event) {
    ev.kind == Response && (HasException(ev.messages) || HasReport(ev.messages))
  }

  datatype RankPoll = RankPolled(carry: Carry, next: nat) | RankPollException | RankPollStalled

  /** The `while not done` loop of the ranking request. Events other than
      RESPONSE (timeouts, partial responses) are skipped; the first RESPONSE
      carrying an Exception or a Report decides; rank and volume come from the
      last record of that reply, or carry over. */
  function PollRankReplies(events: seq<Event>, pos: nat, c: Carry): (r: RankPoll)
    ensures r.RankPolled? ==>
      && pos < r.next <= |events|
      && EndsRankPoll(events[r.next - 1]) && !HasException(events[r.next - 1].messages)
      && (forall q :: pos <= q < r.next - 1 ==> !EndsRankPoll(events[q]))
      && r.carry == LastRecord(ReportRecords(events[r.next - 1].messages), c)
    ensures r.RankPollException? ==>
      exists q :: pos <= q < |events| && EndsRankPoll(events[q]) && HasException(events[q].messages)
        && forall q' :: pos <= q' < q ==> !EndsRankPoll(events[q'])
    ensures r.RankPollStalled? ==> forall q :: pos <= q < |events| ==> !EndsRankPoll(events[q])
    decreases |events| - pos
  {
    if pos >= |events| then RankPollStalled
    else if events[pos].kind != Response then PollRankReplies(events, pos + 1, c)
    else
      match ReadRankReply(events[pos].messages, c)
      case RankReplyException => RankPollException
      case RankReplyHandled(c', done) =>
        if done then RankPolled(c', pos + 1)
        else
          NoReportNoRecords(events[pos].messages);
          PollRankReplies(events, pos + 1, c')
  }

  method PollRank(events: seq<Event>, pos: nat, c: Carry) returns (r: RankPoll)
    ensures r == PollRankReplies(events, pos, c)
  {
    var p := pos;
    var carry := c;
    var done := false;
    while !done
      invariant p >= pos
      invariant PollRankReplies(events, pos, c) ==
        if done then RankPolled(carry, p) else PollRankReplies(events, p, carry)
      decreases |events| - p
    {
      if p >= |events| {
        return RankPollStalled;
      }
      var event := events[p];
      p := p + 1;
      if event.kind == Response {
        var reply := HandleRankReply(event.messages, carry);
        if reply.RankReplyException? {
          return RankPollException;
        }
        carry, done := reply.carry, reply.done;
      }
    }
    return RankPolled(carry, p);
  }

  // ---------------------------------------------------------------------------
  // The reference-data request (lines 117-144)

  /** DS199 when present, otherwise "(unknown)". */
  function SectorName(sd: SecurityData): string {
    sd.sector.GetOr("(unknown)")
  }

  predicate AllRefData(msgs: seq<Message>) {
    forall k :: 0 <= k < |msgs| ==> msgs[k].RefData?
  }

  predicate HasLastTrades(sds: seq<SecurityData>) {
    forall k :: 0 <= k < |sds| ==> sds[k].lastTrade.Some?
  }

  /** Sector and last trade of the last entry, or the carried values. */
  function LastSecurity(sds: seq<SecurityData>, c: Carry): Carry
    requires HasLastTrades(sds)
  {
    if sds == [] then c
    else c.(sector := SectorName(sds[|sds| - 1]), lastTrade := sds[|sds| - 1].lastTrade.value)
  }

  lemma LastSecurityAppend(a: seq<SecurityData>, b: seq<SecurityData>, c: Carry)
    requires HasLastTrades(a) && HasLastTrades(b)
    ensures HasLastTrades(a + b)
    ensures LastSecurity(b, LastSecurity(a, c)) == LastSecurity(a + b, c)
  {
    assert forall k :: 0 <= k < |a + b| ==> (a + b)[k] == if k < |a| then a[k] else b[k - |a|];
    if b != [] {
      assert (a + b)[|a + b| - 1] == b[|b| - 1];
    }
  }

  /** What one RESPONSE event of the reference-data request does. A message
      without `securityData`, or an entry without PR088, makes `getElement`
      raise; otherwise each entry overwrites sector and last trade. */
  function ReadRefReply(msgs: seq<Message>, c: Carry): Result<Carry> {
    if !AllRefData(msgs) || !HasLastTrades(AllSecurityData(msgs)) then Err(NotFound)
    else Ok(LastSecurity(AllSecurityData(msgs), c))
  }

  method HandleRefReply(msgs: seq<Message>, c: Carry) returns (r: Result<Carry>)
    ensures r == ReadRefReply(msgs, c)
  {
    var carry := c;
    var j := 0;
    while j < |msgs|
      invariant 0 <= j <= |msgs|
      invariant AllRefData(msgs[..j]) && HasLastTrades(AllSecurityData(msgs[..j]))
      invariant carry == LastSecurity(AllSecurityData(msgs[..j]), c)
    {
      var msg := msgs[j];
      assert msgs[..j + 1] == msgs[..j] + [msg];
      assert msgs[..j + 1][..j] == msgs[..j];
      if !msg.RefData? {
        assert !msgs[j].RefData?;
        return Err(NotFound);
      }
      var secData := msg.securityData;
      ghost var before := carry;
      var n := 0;
      while n < |secData|
        invariant 0 <= n <= |secData|
        invariant HasLastTrades(secData[..n])
        invariant carry == LastSecurity(secData[..n], before)
      {
        var sd := secData[n];
        assert secData[..n + 1] == secData[..n] + [sd];
        if sd.lastTrade.None? {
          RefEntryWithoutLastTrade(msgs, j, n, c);
          return Err(NotFound);
        }
        carry := carry.(sector := SectorName(sd), lastTrade := sd.lastTrade.value);
        n := n + 1;
      }
      assert secData[..n] == secData;
      LastSecurityAppend(AllSecurityData(msgs[..j]), secData, c);
      j := j + 1;
    }
    assert msgs[..j] == msgs;
    return Ok(carry);
  }

  /** An entry without PR088 in message j makes the whole reply fail. */
  lemma RefEntryWithoutLastTrade(msgs: seq<Message>, j: nat, n: nat, c: Carry)
    requires j < |msgs| && msgs[j].RefData? && n < |msgs[j].securityData|
    requires msgs[j].securityData[n].lastTrade.None?
    ensures ReadRefReply(msgs, c) == Err(NotFound)
  {
    if AllRefData(msgs) {
      assert msgs == msgs[..j] + [msgs[j]] + msgs[j + 1..];
      AllSecurityDataAppend(msgs[..j] + [msgs[j]], msgs[j + 1..]);
      AllSecurityDataAppend(msgs[..j], [msgs[j]]);
      assert AllSecurityData([msgs[j]]) == msgs[j].securityData by {
        assert [msgs[j]][..0] == [];
      }
      var d := AllSecurityData(msgs);
      assert d[|AllSecurityData(msgs[..j])| + n] == msgs[j].securityData[n];
    }
  }

  datatype RefPoll = RefPolled(carry: Carry, next: nat) | RefPollCrash(error: PyError) | RefPollStalled

  /** The `while not done` loop of the reference-data request: the first
      RESPONSE event, whatever it holds, ends it. */
  function PollRefReplies(events: seq<Event>, pos: nat, c: Carry): (r: RefPoll)
    ensures r.RefPolled? ==>
      && pos < r.next <= |events|
      && events[r.next - 1].kind == Response
      && (forall q :: pos <= q < r.next - 1 ==> events[q].kind != Response)
      && ReadRefReply(events[r.next - 1].messages, c) == Ok(r.carry)
    ensures r.RefPolled? ==> r.carry.rank == c.rank && r.carry.volume == c.volume
    ensures r.RefPollCrash? ==> r.error == NotFound
    ensures r.RefPollCrash? ==>
      exists q :: pos <= q < |events| && events[q].kind == Response && ReadRefReply(events[q].messages, c).Err?
        && forall q' :: pos <= q' < q ==> events[q'].kind != Response
    ensures r.RefPollStalled? ==> forall q :: pos <= q < |events| ==> events[q].kind != Response
    decreases |events| - pos
  {
    if pos >= |events| then RefPollStalled
    else if events[pos].kind != Response then PollRefReplies(events, pos + 1, c)
    else
      match ReadRefReply(events[pos].messages, c)
      case Err(e) => RefPollCrash(e)
      case Ok(c') => RefPolled(c', pos + 1)
  }

  method PollRef(events: seq<Event>, pos: nat, c: Carry) returns (r: RefPoll)
    ensures r == PollRefReplies(events, pos, c)
  {
    var p := pos;
    while p < |events| && events[p].kind != Response
      invariant p >= pos
      invariant PollRefReplies(events, pos, c) == PollRefReplies(events, p, c)
      decreases |events| - p
    {
      p := p + 1;
    }
    if p >= |events| {
      return RefPollStalled;
    }
    var reply := HandleRefReply(events[p].messages, c);
    if reply.Err? {
      return RefPollCrash(reply.error);
    }
    return RefPolled(reply.value, p + 1);
  }

  // ---------------------------------------------------------------------------
  // The loop over securities (lines 60-151)

  datatype Step = StepRow(row: RankRow, carry: Carry, next: nat) | StepException | StepCrash(error: PyError) | StepStalled

  /** The carried values a row records. */
  function RowCarry(row: RankRow): Carry {
    Carry(row.rank, row.volume, row.sector, row.lastTrade)
  }

  /** One pass of `for in_sec in securities`: ticker, ranking request, analyst
      lookup, reference-data request, then the row from the carried values,
      which it hands on to the next security. */
  function SecurityStep(inSec: Row, mappings: Table, events: seq<Event>, pos: nat, c: Carry): (r: Step)
    ensures r.StepRow? ==>
      && |inSec| > 0 && r.row.security == inSec[0]
      && GetAnalyst(inSec[0], mappings) == Ok(r.row.analyst)
      && r.carry == RowCarry(r.row)
  {
    if |inSec| == 0 then StepCrash(IndexError)
    else
      var security := inSec[0];
      match PollRankReplies(events, pos, c)
      case RankPollException => StepException
      case RankPollStalled => StepStalled
      case RankPolled(c1, p1) =>
        match GetAnalyst(security, mappings)
        case Err(e) => StepCrash(e)
        case Ok(analyst) =>
          match PollRefReplies(events, p1, c1)
          case RefPollCrash(e) => StepCrash(e)
          case RefPollStalled => StepStalled
          case RefPolled(c2, p2) =>
            StepRow(RankRow(security, c2.rank, c2.volume, c2.sector, analyst, c2.lastTrade), c2, p2)
  }

  /** A row is produced only after both polls ended normally: its rank and
      volume are those the ranking poll leaves, its sector and last trade those
      the reference-data poll leaves. The pass aborts with an Exception exactly
      when the ranking poll does; a security row with no column raises
      IndexError; it stalls only when one of the two polls does. */
  lemma SecurityStepPolls(inSec: Row, mappings: Table, events: seq<Event>, pos: nat, c: Carry)
    ensures var r := SecurityStep(inSec, mappings, events, pos, c);
      && (|inSec| == 0 ==> r == StepCrash(IndexError))
      && (r.StepException? <==> |inSec| > 0 && PollRankReplies(events, pos, c).RankPollException?)
      && (r.StepRow? ==>
            && var rank := PollRankReplies(events, pos, c);
            && rank.RankPolled?
            && r.row.rank == rank.carry.rank && r.row.volume == rank.carry.volume
            && PollRefReplies(events, rank.next, rank.carry) == RefPolled(r.carry, r.next))
      && (r.StepCrash? ==>
            || (|inSec| == 0 && r.error == IndexError)
            || (&& |inSec| > 0
                && var rank := PollRankReplies(events, pos, c);
                && rank.RankPolled?
                && (|| GetAnalyst(inSec[0], mappings) == Err(r.error)
                    || (GetAnalyst(inSec[0], mappings).Ok? && PollRefReplies(events, rank.next, rank.carry) == RefPollCrash(r.error)))))
      && (r.StepStalled? ==>
            || PollRankReplies(events, pos, c).RankPollStalled?
            || PollRefReplies(events, PollRankReplies(events, pos, c).next, PollRankReplies(events, pos, c).carry).RefPollStalled?)
  {
  }

  datatype RankOutcome =
    | RankRows(rows: seq<RankRow>, next: nat)   // `return rank_data, True`
    | RankException                             // `return [], False`
    | RankCrash(error: PyError)                 // an uncaught Python exception
    | RankStalled                               // polling that never ends

  /** The rest of the loop over securities, from the session position `pos`
      with the carried values `c` and the rows `acc` built so far. On success
      there is exactly one row per security, in input order, after the rows
      already built; an Exception ends the whole loop with no rows. */
  function RankFrom(secs: Table, mappings: Table, events: seq<Event>, pos: nat, c: Carry, acc: seq<RankRow>): (r: RankOutcome)
    ensures r.RankRows? ==>
      && |r.rows| == |acc| + |secs|
      && r.rows[..|acc|] == acc
      && forall j :: 0 <= j < |secs| ==> RowOf(r.rows[|acc| + j], secs[j], mappings)
    decreases |secs|
  {
    if secs == [] then RankRows(acc, pos)
    else
      match SecurityStep(secs[0], mappings, events, pos, c)
      case StepRow(row, c', p') =>
        var r := RankFrom(secs[1..], mappings, events, p', c', acc + [row]);
        if r.RankRows? then RowsCons(r.rows, acc, row, secs, mappings); r else r
      case StepException => RankException
      case StepCrash(e) => RankCrash(e)
      case StepStalled => RankStalled
  }

  /** The body of `for in_sec in securities`, for one security. */
  method SecurityPass(inSec: Row, mappings: Table, events: seq<Event>, p: nat, carry: Carry) returns (s: Step)
    ensures s == SecurityStep(inSec, mappings, events, p, carry)
  {
    if |inSec| == 0 {
      return StepCrash(IndexError);
    }
    var security := inSec[0];
    var rank := PollRank(events, p, carry);
    if rank.RankPollException? {
      return StepException;
    }
    if rank.RankPollStalled? {
      return StepStalled;
    }
    var analyst := GetAnalyst(security, mappings);
    if analyst.Err? {
      return StepCrash(analyst.error);
    }
    var ref := PollRef(events, rank.next, rank.carry);
    if ref.RefPollCrash? {
      return StepCrash(ref.error);
    }
    if ref.RefPollStalled? {
      return StepStalled;
    }
    var c := ref.carry;
    return StepRow(RankRow(security, c.rank, c.volume, c.sector, analyst.value, c.lastTrade), c, ref.next);
  }

  method GetRankData(securities: Table, mappings: Table, events: seq<Event>, pos: nat) returns (o: RankOutcome)
    ensures o == RankFrom(securities, mappings, events, pos, InitialCarry, [])
  {
    var rankData: seq<RankRow> := [];
    var carry := InitialCarry;
    var p := pos;
    var k := 0;
    while k < |securities|
      invariant 0 <= k <= |securities|
      invariant RankFrom(securities, mappings, events, pos, InitialCarry, []) ==
        RankFrom(securities[k..], mappings, events, p, carry, rankData)
    {
      RankFromAt(securities, mappings, events, p, carry, rankData, k);
      var step := SecurityPass(securities[k], mappings, events, p, carry);
      match step
      case StepException => return RankException;
      case StepCrash(e) => return RankCrash(e);
      case StepStalled => return RankStalled;
      case StepRow(row, c, next) =>
        rankData := rankData + [row];
        carry, p := c, next;
      k := k + 1;
    }
    assert securities[k..] == [];
    return RankRows(rankData, p);
  }

  /** One step of `RankFrom`: the first security's pass decides. */
  lemma RankFromUnfold(secs: Table, mappings: Table, events: seq<Event>, pos: nat, c: Carry, acc: seq<RankRow>)
    requires secs != []
    ensures var s := SecurityStep(secs[0], mappings, events, pos, c);
      RankFrom(secs, mappings, events, pos, c, acc) ==
        if s.StepRow? then RankFrom(secs[1..], mappings, events, s.next, s.carry, acc + [s.row])
        else if s.StepException? then RankException
        else if s.StepCrash? then RankCrash(s.error)
        else RankStalled
  {
  }

  /** `RankFromUnfold` for the securities from index `k` on. */
  lemma RankFromAt(secs: Table, mappings: Table, events: seq<Event>, pos: nat, c: Carry, acc: seq<RankRow>, k: nat)
    requires k < |secs|
    ensures var s := SecurityStep(secs[k], mappings, events, pos, c);
      RankFrom(secs[k..], mappings, events, pos, c, acc) ==
        if s.StepRow? then RankFrom(secs[k + 1..], mappings, events, s.next, s.carry, acc + [s.row])
        else if s.StepException? then RankException
        else if s.StepCrash? then RankCrash(s.error)
        else RankStalled
  {
    assert secs[k..][0] == secs[k] && secs[k..][1..] == secs[k + 1..];
    RankFromUnfold(secs[k..], mappings, events, pos, c, acc);
  }

  /** The carried values after the rows `rows`: those the last row records,
      or `c` before any row. */
  function LastCarry(rows: seq<RankRow>, c: Carry): Carry {
    if rows == [] then c else RowCarry(rows[|rows| - 1])
  }

  /** Once a row exists, the values carried before it no longer matter. */
  lemma LastCarryOfRows(rows: seq<RankRow>, c: Carry, c': Carry)
    requires |rows| > 0
    ensures LastCarry(rows, c) == LastCarry(rows, c')
  {
  }

  /** The carried values `c` agree with the rows built so far. */
  predicate CarryAgrees(acc: seq<RankRow>, c: Carry) {
    acc == [] || c == RowCarry(acc[|acc| - 1])
  }

  /** The first `k` securities, seen from the second one on. */
  lemma RankPrefixCons(secs: Table, mappings: Table, events: seq<Event>, pos: nat, c: Carry, acc: seq<RankRow>, k: nat)
    requires 0 < k <= |secs|
    ensures var s := SecurityStep(secs[0], mappings, events, pos, c);
      && (s.StepRow? ==>
            RankFrom(secs[..k], mappings, events, pos, c, acc) == RankFrom(secs[1..][..k - 1], mappings, events, s.next, s.carry, acc + [s.row]))
      && (!s.StepRow? ==>
            && RankFrom(secs[..k], mappings, events, pos, c, acc) == RankFrom(secs, mappings, events, pos, c, acc)
            && !RankFrom(secs, mappings, events, pos, c, acc).RankRows?)
  {
    assert secs[..k][0] == secs[0] && secs[..k][1..] == secs[1..][..k - 1];
    RankFromUnfold(secs, mappings, events, pos, c, acc);
    RankFromUnfold(secs[..k], mappings, events, pos, c, acc);
  }

  /** The loop over securities run on the first `k` of them and, if they all
      produced rows, resumed on the rest from where they left the session and
      with the values their last row carries. */
  function RankResume(secs: Table, mappings: Table, events: seq<Event>, pos: nat, c: Carry, acc: seq<RankRow>, k: nat): RankOutcome
    requires k <= |secs|
  {
    var pre := RankFrom(secs[..k], mappings, events, pos, c, acc);
    if pre.RankRows? then RankFrom(secs[k..], mappings, events, pre.next, LastCarry(pre.rows, c), pre.rows)
    else pre
  }

  /** After a first row, resuming is the same from either side of it. */
  lemma ResumeCons(secs: Table, mappings: Table, events: seq<Event>, pos: nat, c: Carry, acc: seq<RankRow>, k: nat)
    requires 0 < k <= |secs| && SecurityStep(secs[0], mappings, events, pos, c).StepRow?
    ensures var s := SecurityStep(secs[0], mappings, events, pos, c);
      RankResume(secs, mappings, events, pos, c, acc, k) == RankResume(secs[1..], mappings, events, s.next, s.carry, acc + [s.row], k - 1)
  {
    var s := SecurityStep(secs[0], mappings, events, pos, c);
    RankPrefixCons(secs, mappings, events, pos, c, acc, k);
    assert secs[1..][k - 1..] == secs[k..];
    var pre := RankFrom(secs[..k], mappings, events, pos, c, acc);
    if pre.RankRows? {
      LastCarryOfRows(pre.rows, c, s.carry);
    }
  }

  /** The loop over securities split after the first `k`: the rest starts at
      the session position and with the carried values the first `k` left. */
  lemma {:induction false} RankFromSplit(secs: Table, mappings: Table, events: seq<Event>, pos: nat, c: Carry, acc: seq<RankRow>, k: nat)
    requires k <= |secs| && CarryAgrees(acc, c)
    ensures RankFrom(secs, mappings, events, pos, c, acc) == RankResume(secs, mappings, events, pos, c, acc, k)
    decreases k
  {
    if k == 0 {
      assert secs[..0] == [] && secs[0..] == secs;
    } else {
      var s := SecurityStep(secs[0], mappings, events, pos, c);
      RankPrefixCons(secs, mappings, events, pos, c, acc, k);
      if s.StepRow? {
        RankFromUnfold(secs, mappings, events, pos, c, acc);
        RankFromSplit(secs[1..], mappings, events, s.next, s.carry, acc + [s.row], k - 1);
        ResumeCons(secs, mappings, events, pos, c, acc, k);
      }
    }
  }

  /** The row of the security at index `k` is the one its pass produces,
      starting where the earlier securities left the session and with the
      values carried over from the row before (the initial values for the
      first row). */
  lemma RowAt(secs: Table, mappings: Table, events: seq<Event>, k: nat)
    requires k < |secs|
    requires RankFrom(secs, mappings, events, 0, InitialCarry, []).RankRows?
    ensures var pre := RankFrom(secs[..k], mappings, events, 0, InitialCarry, []);
      && pre.RankRows?
      && var s := SecurityStep(secs[k], mappings, events, pre.next, LastCarry(pre.rows, InitialCarry));
      && s.StepRow?
      && var all := RankFrom(secs, mappings, events, 0, InitialCarry, []).rows;
      && all[..k] == pre.rows
      && all[k] == s.row
  {
    RankFromSplit(secs, mappings, events, 0, InitialCarry, [], k);
    var pre := RankFrom(secs[..k], mappings, events, 0, InitialCarry, []);
    var c := LastCarry(pre.rows, InitialCarry);
    assert secs[k..][0] == secs[k];
    RankFromUnfold(secs[k..], mappings, events, pre.next, c, pre.rows);
    var s := SecurityStep(secs[k], mappings, events, pre.next, c);
    var all := RankFrom(secs, mappings, events, 0, InitialCarry, []).rows;
    assert |pre.rows| == k;
    assert all[..k + 1] == pre.rows + [s.row];
    assert all[..k] == all[..k + 1][..k];
    assert all[k] == all[..k + 1][k];
  }

  /** The ranking poll from `pos` ends with a reply that holds no record. */
  predicate NoRankRecords(events: seq<Event>, pos: nat, c: Carry) {
    var rank := PollRankReplies(events, pos, c);
    rank.RankPolled? && ReportRecords(events[rank.next - 1].messages) == []
  }

  /** A security whose deciding ranking reply holds no record repeats the rank
      and volume of the row before it, or 0 and 0 for the first row. */
  lemma CarryOverWithoutRecords(secs: Table, mappings: Table, events: seq<Event>, k: nat)
    requires k < |secs|
    requires RankFrom(secs, mappings, events, 0, InitialCarry, []).RankRows?
    requires var pre := RankFrom(secs[..k], mappings, events, 0, InitialCarry, []);
      pre.RankRows? && NoRankRecords(events, pre.next, LastCarry(pre.rows, InitialCarry))
    ensures var all := RankFrom(secs, mappings, events, 0, InitialCarry, []).rows;
      && all[k].rank == (if k == 0 then 0 else all[k - 1].rank)
      && all[k].volume == (if k == 0 then 0 else all[k - 1].volume)
  {
    RowAt(secs, mappings, events, k);
    var pre := RankFrom(secs[..k], mappings, events, 0, InitialCarry, []);
    StepWithoutRecords(secs[k], mappings, events, pre.next, LastCarry(pre.rows, InitialCarry));
    LastCarryOfPrefix(RankFrom(secs, mappings, events, 0, InitialCarry, []).rows, k);
  }

  /** A pass whose ranking reply holds no record keeps the carried rank and
      volume. */
  lemma StepWithoutRecords(inSec: Row, mappings: Table, events: seq<Event>, pos: nat, c: Carry)
    requires SecurityStep(inSec, mappings, events, pos, c).StepRow?
    requires NoRankRecords(events, pos, c)
    ensures var r := SecurityStep(inSec, mappings, events, pos, c);
      r.row.rank == c.rank && r.row.volume == c.volume
  {
    SecurityStepPolls(inSec, mappings, events, pos, c);
  }

  /** The values carried after the first `k` rows. */
  lemma LastCarryOfPrefix(rows: seq<RankRow>, k: nat)
    requires k <= |rows|
    ensures LastCarry(rows[..k], InitialCarry).rank == (if k == 0 then 0 else rows[k - 1].rank)
    ensures LastCarry(rows[..k], InitialCarry).volume == (if k == 0 then 0 else rows[k - 1].volume)
  {
    if k > 0 {
      assert rows[..k][k - 1] == rows[k - 1];
    }
  }

  /** Security `k` has a ticker, the earlier ones produced their rows, and the
      ranking poll for `k` meets a RESPONSE holding an Exception before any
      Report. */
  predicate RankAbortsAt(secs: Table, mappings: Table, events: seq<Event>, pos: nat, c: Carry, acc: seq<RankRow>, k: nat) {
    && k < |secs| && |secs[k]| > 0
    && var pre := RankFrom(secs[..k], mappings, events, pos, c, acc);
    && pre.RankRows?
    && PollRankReplies(events, pre.next, LastCarry(pre.rows, c)).RankPollException?
  }

  /** Such an Exception ends the whole loop with no rows. */
  lemma RankExceptionAborts(secs: Table, mappings: Table, events: seq<Event>, pos: nat, c: Carry, acc: seq<RankRow>, k: nat)
    requires CarryAgrees(acc, c) && RankAbortsAt(secs, mappings, events, pos, c, acc, k)
    ensures RankFrom(secs, mappings, events, pos, c, acc) == RankException
  {
    RankFromSplit(secs, mappings, events, pos, c, acc, k);
    var pre := RankFrom(secs[..k], mappings, events, pos, c, acc);
    assert secs[k..][0] == secs[k];
    RankFromUnfold(secs[k..], mappings, events, pre.next, LastCarry(pre.rows, c), pre.rows);
    SecurityStepPolls(secs[k], mappings, events, pre.next, LastCarry(pre.rows, c));
  }

  /** And it is the only way the loop ends with an Exception. */
  lemma {:induction false} RankExceptionCause(secs: Table, mappings: Table, events: seq<Event>, pos: nat, c: Carry, acc: seq<RankRow>)
    requires CarryAgrees(acc, c)
    requires RankFrom(secs, mappings, events, pos, c, acc) == RankException
    ensures exists k: nat :: RankAbortsAt(secs, mappings, events, pos, c, acc, k)
    decreases |secs|
  {
    RankFromUnfold(secs, mappings, events, pos, c, acc);
    var s := SecurityStep(secs[0], mappings, events, pos, c);
    if s.StepException? {
      RankAbortsAtFirst(secs, mappings, events, pos, c, acc);
    } else {
      RankExceptionCause(secs[1..], mappings, events, s.next, s.carry, acc + [s.row]);
      var k: nat :| RankAbortsAt(secs[1..], mappings, events, s.next, s.carry, acc + [s.row], k);
      RankAbortsAtCons(secs, mappings, events, pos, c, acc, k);
    }
  }

  /** An Exception in the first pass is an abort at index 0. */
  lemma RankAbortsAtFirst(secs: Table, mappings: Table, events: seq<Event>, pos: nat, c: Carry, acc: seq<RankRow>)
    requires secs != [] && SecurityStep(secs[0], mappings, events, pos, c).StepException?
    ensures RankAbortsAt(secs, mappings, events, pos, c, acc, 0)
  {
    SecurityStepPolls(secs[0], mappings, events, pos, c);
    assert secs[..0] == [];
  }

  /** An abort after the first row is an abort one security later. */
  lemma RankAbortsAtCons(secs: Table, mappings: Table, events: seq<Event>, pos: nat, c: Carry, acc: seq<RankRow>, k: nat)
    requires secs != [] && SecurityStep(secs[0], mappings, events, pos, c).StepRow?
    requires var s := SecurityStep(secs[0], mappings, events, pos, c);
      RankAbortsAt(secs[1..], mappings, events, s.next, s.carry, acc + [s.row], k)
    ensures RankAbortsAt(secs, mappings, events, pos, c, acc, k + 1)
  {
    var s := SecurityStep(secs[0], mappings, events, pos, c);
    RankPrefixCons(secs, mappings, events, pos, c, acc, k + 1);
    LastCarryOfRows(RankFrom(secs[1..][..k], mappings, events, s.next, s.carry, acc + [s.row]).rows, c, s.carry);
    assert secs[1..][k] == secs[k + 1];
  }

  /** The row of a security: its first column is the ticker, and the analyst
      is what the lookup in the mapping table gives for that ticker. */
  predicate RowOf(row: RankRow, inSec: Row, mappings: Table) {
    |inSec| > 0 && row.security == inSec[0] && GetAnalyst(inSec[0], mappings) == Ok(row.analyst)
  }

  /** The step of `RankFrom`'s contract on plain sequences: what holds for the
      rows after the first security, with its row appended to `acc`, holds for
      all of them. */
  lemma RowsCons(rows: seq<RankRow>, acc: seq<RankRow>, row: RankRow, secs: Table, mappings: Table)
    requires secs != [] && RowOf(row, secs[0], mappings)
    requires |rows| == |acc + [row]| + |secs[1..]|
    requires rows[..|acc + [row]|] == acc + [row]
    requires forall j :: 0 <= j < |secs[1..]| ==> RowOf(rows[|acc + [row]| + j], secs[1..][j], mappings)
    ensures |rows| == |acc| + |secs|
    ensures rows[..|acc|] == acc
    ensures forall j :: 0 <= j < |secs| ==> RowOf(rows[|acc| + j], secs[j], mappings)
  {
    assert rows[..|acc|] == rows[..|acc| + 1][..|acc|];
    assert rows[|acc|] == rows[..|acc| + 1][|acc|];
    forall j | 1 <= j < |secs|
      ensures RowOf(rows[|acc| + j], secs[j], mappings)
    {
      assert secs[1..][j - 1] == secs[j];
      assert |acc + [row]| + (j - 1) == |acc| + j;
    }
  }

  /** A security answered by one RESPONSE holding one Report and one RESPONSE
      holding one reference-data message: rank and volume are those of the
      Report's last record (or carry over when it has none), the sector is
      DS199 of the last entry or "(unknown)" without it, and the last trade is
      that entry's PR088 (both carry over when there is no entry). */
  lemma RowFromReplies(inSec: Row, mappings: Table, c: Carry, recs: seq<BrokerRecord>, sds: seq<SecurityData>, analyst: string, rest: seq<Event>)
    requires |inSec| > 0 && GetAnalyst(inSec[0], mappings) == Ok(analyst)
    requires HasLastTrades(sds)
    ensures var s := SecurityStep(inSec, mappings, [Event(Response, [Report(recs)]), Event(Response, [RefData(sds)])] + rest, 0, c);
      && s.StepRow? && s.next == 2
      && s.row.security == inSec[0] && s.row.analyst == analyst
      && (recs == [] ==> s.row.rank == c.rank && s.row.volume == c.volume)
      && (recs != [] ==> s.row.rank == recs[|recs| - 1].rank && s.row.volume == recs[|recs| - 1].total)
      && (sds == [] ==> s.row.sector == c.sector && s.row.lastTrade == c.lastTrade)
      && (sds != [] ==>
            && s.row.lastTrade == sds[|sds| - 1].lastTrade.value
            && s.row.sector == if sds[|sds| - 1].sector.Some? then sds[|sds| - 1].sector.value else "(unknown)")
  {
    var events := [Event(Response, [Report(recs)]), Event(Response, [RefData(sds)])] + rest;
    var m1 := [Report(recs)];
    var m2 := [RefData(sds)];
    assert m1[..0] == [] && m2[..0] == [];
    assert ReportRecords(m1) == recs;
    assert HasReport(m1) by { assert m1[0].Report?; }
    assert AllSecurityData(m2) == sds;
    assert events[0].messages == m1 && events[1].messages == m2;
  }
}
