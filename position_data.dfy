/** `get_position_data`: one ranking request for all securities, grouped by
    broker. Every broker record received is appended to `full_pos_data` and its
    traded volume added to `overall_total`; after every polled event a
    windowing pass appends, for each position of the chosen broker, the rows
    ranked just above and just below it to `pos_data`. */
module PositionData {
  import opened Base
  import opened Events

  /** `[broker_acronym, broker_name, broker_rank, total_traded]` */
  datatype PosRow = PosRow(acronym: string, name: string, rank: int, traded: int)

  /** An entry of `pos_data`: the empty list `[]`, or a row. */
  type Entry = Option<PosRow>

  function PosRowOf(record: BrokerRecord): PosRow {
    PosRow(record.acronym, record.name, record.rank, record.traded)
  }

  /** The rows the records give, in order. */
  function PosRows(recs: seq<BrokerRecord>): seq<PosRow> {
    if recs == [] then [] else PosRows(recs[..|recs| - 1]) + [PosRowOf(recs[|recs| - 1])]
  }

  lemma {:induction false} PosRowsAppend(a: seq<BrokerRecord>, b: seq<BrokerRecord>)
    ensures PosRows(a + b) == PosRows(a) + PosRows(b)
    decreases |b|
  {
    if b == [] {
      assert a + b == a;
    } else {
      var b' := b[..|b| - 1];
      assert (a + b)[..|a + b| - 1] == a + b';
      assert (a + b)[|a + b| - 1] == b[|b| - 1];
      PosRowsAppend(a, b');
    }
  }

  function SumTraded(rows: seq<PosRow>): int {
    if rows == [] then 0 else SumTraded(rows[..|rows| - 1]) + rows[|rows| - 1].traded
  }

  lemma {:induction false} SumTradedAppend(a: seq<PosRow>, b: seq<PosRow>)
    ensures SumTraded(a + b) == SumTraded(a) + SumTraded(b)
    decreases |b|
  {
    if b == [] {
      assert a + b == a;
    } else {
      var b' := b[..|b| - 1];
      assert (a + b)[..|a + b| - 1] == a + b';
      assert (a + b)[|a + b| - 1] == b[|b| - 1];
      SumTradedAppend(a, b');
    }
  }

  // ---------------------------------------------------------------------------
  // One windowing pass (lines 223-234)

  /** The three entries appended for the broker found at index `i`: the row
      above (`[]` at the top of the ranking), the broker's row, the row below. */
  function Neighbours(xs: seq<PosRow>, i: nat): seq<Entry>
    requires i + 1 < |xs|
  {
    [if i == 0 then None else Some(xs[i - 1]), Some(xs[i]), Some(xs[i + 1])]
  }

  /** What `for i in range(i, len(full_pos_data) - 1)` appends. */
  function WindowFrom(xs: seq<PosRow>, broker: string, i: nat): seq<Entry>
    decreases |xs| - i
  {
    if i + 1 >= |xs| then []
    else (if xs[i].acronym == broker then Neighbours(xs, i) else []) + WindowFrom(xs, broker, i + 1)
  }

  function Window(xs: seq<PosRow>, broker: string): seq<Entry> {
    WindowFrom(xs, broker, 0)
  }

  method WindowPass(fullPosData: seq<PosRow>, broker: string, posData: seq<Entry>) returns (pd: seq<Entry>)
    ensures pd == posData + Window(fullPosData, broker)
  {
    pd := posData;
    var i := 0;
    while i < |fullPosData| - 1
      invariant 0 <= i
      invariant pd + WindowFrom(fullPosData, broker, i) == posData + Window(fullPosData, broker)
    {
      ghost var before := pd;
      if fullPosData[i].acronym == broker {
        if i == 0 {
          pd := pd + [None];
        } else {
          pd := pd + [Some(fullPosData[i - 1])];
        }
        pd := pd + [Some(fullPosData[i])];
        if i < |fullPosData| - 1 {
          pd := pd + [Some(fullPosData[i + 1])];
        }
        assert pd == before + Neighbours(fullPosData, i);
      }
      i := i + 1;
    }
  }

  /** The indices the pass finds the broker at, in increasing order. */
  function Matches(xs: seq<PosRow>, broker: string, i: nat): seq<nat>
    decreases |xs| - i
  {
    if i + 1 >= |xs| then []
    else (if xs[i].acronym == broker then [i] else []) + Matches(xs, broker, i + 1)
  }

  /** Every index in `ms` is at least `i`, has a row below it and holds the
      broker's acronym. */
  ghost predicate SoundMatches(ms: seq<nat>, xs: seq<PosRow>, broker: string, i: nat) {
    forall k :: 0 <= k < |ms| ==> i <= ms[k] && ms[k] + 1 < |xs| && xs[ms[k]].acronym == broker
  }

  ghost predicate Increasing(ms: seq<nat>) {
    forall k, l :: 0 <= k < l < |ms| ==> ms[k] < ms[l]
  }

  /** Every index from `i` on with a row below it and the broker's acronym is in `ms`. */
  ghost predicate CompleteMatches(ms: seq<nat>, xs: seq<PosRow>, broker: string, i: nat) {
    forall m :: i <= m && m + 1 < |xs| && xs[m].acronym == broker ==> m in ms
  }

  /** The indices found are exactly the positions from `i` on, short of the
      last, whose acronym is the broker's, each once and in increasing order. */
  lemma MatchesExact(xs: seq<PosRow>, broker: string, i: nat)
    ensures SoundMatches(Matches(xs, broker, i), xs, broker, i)
    ensures Increasing(Matches(xs, broker, i))
    ensures CompleteMatches(Matches(xs, broker, i), xs, broker, i)
  {
    MatchesSound(xs, broker, i);
    MatchesIncreasing(xs, broker, i);
    MatchesComplete(xs, broker, i);
  }

  lemma {:induction false} MatchesSound(xs: seq<PosRow>, broker: string, i: nat)
    ensures SoundMatches(Matches(xs, broker, i), xs, broker, i)
    decreases |xs| - i
  {
    if i + 1 < |xs| {
      MatchesSound(xs, broker, i + 1);
      var ms, ms' := Matches(xs, broker, i), Matches(xs, broker, i + 1);
      if xs[i].acronym == broker {
        assert ms == [i] + ms';
        forall k | 1 <= k < |ms|
          ensures i <= ms[k] && ms[k] + 1 < |xs| && xs[ms[k]].acronym == broker
        {
          assert ms[k] == ms'[k - 1];
        }
      } else {
        assert ms == ms';
      }
    }
  }

  lemma {:induction false} MatchesIncreasing(xs: seq<PosRow>, broker: string, i: nat)
    ensures Increasing(Matches(xs, broker, i))
    decreases |xs| - i
  {
    if i + 1 < |xs| {
      MatchesIncreasing(xs, broker, i + 1);
      MatchesSound(xs, broker, i + 1);
      var ms, ms' := Matches(xs, broker, i), Matches(xs, broker, i + 1);
      if xs[i].acronym == broker {
        assert ms == [i] + ms';
        forall k, l | 0 <= k < l < |ms|
          ensures ms[k] < ms[l]
        {
          assert ms[l] == ms'[l - 1];
          if k > 0 {
            assert ms[k] == ms'[k - 1];
          }
        }
      } else {
        assert ms == ms';
      }
    }
  }

  lemma {:induction false} MatchesComplete(xs: seq<PosRow>, broker: string, i: nat)
    ensures CompleteMatches(Matches(xs, broker, i), xs, broker, i)
    decreases |xs| - i
  {
    if i + 1 < |xs| {
      MatchesComplete(xs, broker, i + 1);
      var ms, ms' := Matches(xs, broker, i), Matches(xs, broker, i + 1);
      if xs[i].acronym == broker {
        assert ms == [i] + ms';
      } else {
        assert ms == ms';
      }
    }
  }

  /** `w` holds three entries per index of `ms`, in the order of `ms`. */
  ghost predicate LaidOut(w: seq<Entry>, xs: seq<PosRow>, ms: seq<nat>) {
    && |w| == 3 * |ms|
    && forall k :: 0 <= k < |ms| ==> ms[k] + 1 < |xs| && w[3 * k .. 3 * k + 3] == Neighbours(xs, ms[k])
  }

  lemma LaidOutCons(xs: seq<PosRow>, i: nat, w: seq<Entry>, ms: seq<nat>)
    requires i + 1 < |xs| && LaidOut(w, xs, ms)
    ensures LaidOut(Neighbours(xs, i) + w, xs, [i] + ms)
  {
    var w', ms' := Neighbours(xs, i) + w, [i] + ms;
    forall k | 0 <= k < |ms'|
      ensures ms'[k] + 1 < |xs| && w'[3 * k .. 3 * k + 3] == Neighbours(xs, ms'[k])
    {
      if k > 0 {
        assert w'[3 * k .. 3 * k + 3] == w[3 * (k - 1) .. 3 * (k - 1) + 3];
      }
    }
  }

  /** The pass appends exactly three entries per index it finds the broker at,
      in index order: the row above or `[]` at index 0, the broker's row, and
      the row below, which is never `[]`. */
  lemma {:induction false} WindowLayout(xs: seq<PosRow>, broker: string, i: nat)
    ensures LaidOut(WindowFrom(xs, broker, i), xs, Matches(xs, broker, i))
    decreases |xs| - i
  {
    if i + 1 < |xs| {
      WindowLayout(xs, broker, i + 1);
      var w', ms' := WindowFrom(xs, broker, i + 1), Matches(xs, broker, i + 1);
      if xs[i].acronym == broker {
        LaidOutCons(xs, i, w', ms');
      } else {
        assert WindowFrom(xs, broker, i) == w' && Matches(xs, broker, i) == ms';
      }
    }
  }

  /** The pass appends nothing exactly when the broker is absent from every
      index but possibly the last. */
  lemma WindowEmptyIff(xs: seq<PosRow>, broker: string)
    ensures Window(xs, broker) == [] <==> forall m :: 0 <= m < |xs| - 1 ==> xs[m].acronym != broker
  {
    WindowLayout(xs, broker, 0);
    MatchesExact(xs, broker, 0);
    var ms := Matches(xs, broker, 0);
    if ms != [] {
      assert xs[ms[0]].acronym == broker;
    }
  }

  /** The first three entries are the neighbourhood of the broker's first
      position, when that position has a row below it. */
  lemma WindowFirstMatch(xs: seq<PosRow>, broker: string, m: nat)
    requires m + 1 < |xs| && xs[m].acronym == broker
    requires forall j :: 0 <= j < m ==> xs[j].acronym != broker
    ensures |Window(xs, broker)| >= 3 && Window(xs, broker)[..3] == Neighbours(xs, m)
  {
    WindowLayout(xs, broker, 0);
    MatchesExact(xs, broker, 0);
    var ms := Matches(xs, broker, 0);
    assert m in ms;
    assert ms[0] == m;
  }

  /** Rows appended later never change what an earlier pass produced: its
      entries stay a prefix of the later pass's. */
  lemma {:induction false} WindowPrefix(xs: seq<PosRow>, ys: seq<PosRow>, broker: string, i: nat)
    ensures |WindowFrom(xs, broker, i)| <= |WindowFrom(xs + ys, broker, i)|
    ensures WindowFrom(xs + ys, broker, i)[..|WindowFrom(xs, broker, i)|] == WindowFrom(xs, broker, i)
    decreases |xs| - i
  {
    if i + 1 < |xs| {
      WindowPrefix(xs, ys, broker, i + 1);
      var zs := xs + ys;
      assert zs[i] == xs[i] && zs[i + 1] == xs[i + 1];
      assert i > 0 ==> zs[i - 1] == xs[i - 1];
      var head := if xs[i].acronym == broker then Neighbours(xs, i) else [];
      assert WindowFrom(zs, broker, i) == head + WindowFrom(zs, broker, i + 1);
      assert WindowFrom(xs, broker, i) == head + WindowFrom(xs, broker, i + 1);
    }
  }

  // ---------------------------------------------------------------------------
  // Accumulating the broker records (lines 189-219)

  /** RESPONSE and PARTIAL_RESPONSE events are read; the rest are timeouts or
      session noise. */
  predicate IsReply(ev: Event) {
    ev.kind == Response || ev.kind == PartialResponse
  }

  /** A RESPONSE event holding a Report ends the polling. */
  predicate EndsPositionPoll(ev: Event) {
    ev.kind == Response && HasReport(ev.messages)
  }

  /** The rows an event contributes to `full_pos_data`. */
  function EventRows(ev: Event): seq<PosRow> {
    if IsReply(ev) then MessageRows(ev.messages) else []
  }

  /** The rows a run of events contributes, in arrival order. */
  function ReplyRows(evs: seq<Event>): seq<PosRow> {
    if evs == [] then [] else EventRows(evs[0]) + ReplyRows(evs[1..])
  }

  datatype PosReply = PosReplyException | PosReplyHandled(full: seq<PosRow>, total: int, done: bool)

  /** What the messages of one reply event do to `full_pos_data`,
      `overall_total` and `done`. */
  function ReadPositionReply(msgs: seq<Message>, isResponse: bool, full: seq<PosRow>, total: int): PosReply {
    if HasException(msgs) then PosReplyException
    else
      var rows := MessageRows(msgs);
      PosReplyHandled(full + rows, total + SumTraded(rows), isResponse && HasReport(msgs))
  }

  /** The rows the Report messages of one reply give, in order. */
  function MessageRows(msgs: seq<Message>): seq<PosRow> {
    if msgs == [] then []
    else
      var last := msgs[|msgs| - 1];
      MessageRows(msgs[..|msgs| - 1]) + (if last.Report? then PosRows(last.records) else [])
  }

  /** The rows of one more message follow the rows of those before it. */
  lemma MessageRowsSnoc(msgs: seq<Message>, j: nat)
    requires j < |msgs|
    ensures MessageRows(msgs[..j + 1]) ==
      MessageRows(msgs[..j]) + (if msgs[j].Report? then PosRows(msgs[j].records) else [])
  {
    assert msgs[..j + 1][..j] == msgs[..j];
  }

  /** An Exception message ends the reply. */
  lemma ReadSnocException(msgs: seq<Message>, j: nat, isResponse: bool, full: seq<PosRow>, total: int)
    requires j < |msgs| && msgs[j].Exception?
    ensures ReadPositionReply(msgs[..j + 1], isResponse, full, total) == PosReplyException
  {
    ExceptionSnoc(msgs, j);
  }

  /** A Report message adds its rows and their volume and, in a RESPONSE,
      marks the polling done. */
  lemma ReadSnocReport(msgs: seq<Message>, j: nat, isResponse: bool, full: seq<PosRow>, total: int, f: seq<PosRow>, t: int, d: bool)
    requires j < |msgs| && msgs[j].Report?
    requires ReadPositionReply(msgs[..j], isResponse, full, total) == PosReplyHandled(f, t, d)
    ensures ReadPositionReply(msgs[..j + 1], isResponse, full, total) ==
      PosReplyHandled(f + PosRows(msgs[j].records), t + SumTraded(PosRows(msgs[j].records)), d || isResponse)
  {
    ExceptionSnoc(msgs, j);
    ReportSnoc(msgs, j);
    var before := MessageRows(msgs[..j]);
    var rows := PosRows(msgs[j].records);
    MessageRowsSnoc(msgs, j);
    SumTradedAppend(before, rows);
    assert f == full + before;
    assert full + (before + rows) == f + rows;
  }

  /** Any other message leaves the reply's effect as it was. */
  lemma ReadSnocOther(msgs: seq<Message>, j: nat, isResponse: bool, full: seq<PosRow>, total: int, f: seq<PosRow>, t: int, d: bool)
    requires j < |msgs| && !msgs[j].Exception? && !msgs[j].Report?
    requires ReadPositionReply(msgs[..j], isResponse, full, total) == PosReplyHandled(f, t, d)
    ensures ReadPositionReply(msgs[..j + 1], isResponse, full, total) == PosReplyHandled(f, t, d)
  {
    ExceptionSnoc(msgs, j);
    ReportSnoc(msgs, j);
    MessageRowsSnoc(msgs, j);
    assert MessageRows(msgs[..j]) + [] == MessageRows(msgs[..j]);
  }

  /** Reading one more message: an Exception ends the reply, a Report adds
      its rows and their volume and, in a RESPONSE, marks the polling done,
      and anything else changes nothing. */
  lemma ReadSnoc(msgs: seq<Message>, j: nat, isResponse: bool, full: seq<PosRow>, total: int, f: seq<PosRow>, t: int, d: bool)
    requires j < |msgs|
    requires ReadPositionReply(msgs[..j], isResponse, full, total) == PosReplyHandled(f, t, d)
    ensures msgs[j].Exception? ==> ReadPositionReply(msgs[..j + 1], isResponse, full, total) == PosReplyException
    ensures msgs[j].Report? ==>
      ReadPositionReply(msgs[..j + 1], isResponse, full, total) ==
        PosReplyHandled(f + PosRows(msgs[j].records), t + SumTraded(PosRows(msgs[j].records)), d || isResponse)
    ensures !msgs[j].Exception? && !msgs[j].Report? ==>
      ReadPositionReply(msgs[..j + 1], isResponse, full, total) == PosReplyHandled(f, t, d)
  {
    if msgs[j].Exception? {
      ReadSnocException(msgs, j, isResponse, full, total);
    } else if msgs[j].Report? {
      ReadSnocReport(msgs, j, isResponse, full, total, f, t, d);
    } else {
      ReadSnocOther(msgs, j, isResponse, full, total, f, t, d);
    }
  }

  /** The inner `for` over the broker records of one Report message. */
  method AddRecords(records: seq<BrokerRecord>, full: seq<PosRow>, total: int) returns (fullPosData: seq<PosRow>, overallTotal: int)
    ensures fullPosData == full + PosRows(records)
    ensures overallTotal == total + SumTraded(PosRows(records))
  {
    fullPosData, overallTotal := full, total;
    var n := 0;
    while n < |records|
      invariant 0 <= n <= |records|
      invariant fullPosData == full + PosRows(records[..n])
      invariant overallTotal == total + SumTraded(PosRows(records[..n]))
    {
      var record := records[n];
      var row := PosRow(record.acronym, record.name, record.rank, record.traded);
      assert records[..n + 1][..n] == records[..n];
      SumTradedAppend(PosRows(records[..n]), [row]);
      assert SumTraded([row]) == row.traded by { assert [row][..0] == []; }
      fullPosData := fullPosData + [row];
      overallTotal := overallTotal + record.traded;
      n := n + 1;
    }
    assert records[..n] == records;
  }

  method HandlePositionReply(msgs: seq<Message>, isResponse: bool, full: seq<PosRow>, total: int) returns (r: PosReply)
    ensures r == ReadPositionReply(msgs, isResponse, full, total)
  {
    var fullPosData := full;
    var overallTotal := total;
    var done := false;
    var j := 0;
    while j < |msgs|
      invariant 0 <= j <= |msgs|
      invariant ReadPositionReply(msgs[..j], isResponse, full, total) == PosReplyHandled(fullPosData, overallTotal, done)
    {
      var msg := msgs[j];
      ReadSnoc(msgs, j, isResponse, full, total, fullPosData, overallTotal, done);
      if msg.Exception? {
        assert msgs[j].Exception?;
        return PosReplyException;
      } else if msg.Report? {
        fullPosData, overallTotal := AddRecords(msg.records, fullPosData, overallTotal);
        if isResponse {
          done := true;
        }
      }
      j := j + 1;
    }
    assert msgs[..j] == msgs;
    return PosReplyHandled(fullPosData, overallTotal, done);
  }

  datatype PosOutcome =
    | Positions(posData: seq<Entry>, total: int, records: seq<PosRow>, next: nat)
    | PosException
    | PosCrash(error: PyError)
    | PosStalled

  /** Polling from `pos` stopped after event `next - 1`, the first RESPONSE
      holding a Report; no reply before held an Exception; the records are the
      given ones followed by every row of every reply in between, and the
      total grew by exactly their traded volumes. */
  ghost predicate Polled(events: seq<Event>, pos: nat, next: nat, full: seq<PosRow>, total: int, records: seq<PosRow>, total': int) {
    && StoppedAt(events, pos, next)
    && records == full + ReplyRows(events[pos..next])
    && total' == total + SumTraded(ReplyRows(events[pos..next]))
  }

  /** The events from `pos` to `next - 1` hold no Exception reply, and the
      first that ends the polling is the last of them. */
  ghost predicate StoppedAt(events: seq<Event>, pos: nat, next: nat) {
    && pos < next <= |events|
    && EndsPositionPoll(events[next - 1])
    && (forall q :: pos <= q < next - 1 ==> !EndsPositionPoll(events[q]))
    && (forall q :: pos <= q < next && IsReply(events[q]) ==> !HasException(events[q].messages))
  }

  /** Event `q` is a reply holding an Exception. */
  ghost predicate ExceptionAt(events: seq<Event>, q: nat) {
    q < |events| && IsReply(events[q]) && HasException(events[q].messages)
  }

  /** No event from `pos` up to `q` (excluded) ends the polling or is a reply
      holding an Exception. */
  ghost predicate ClearBetween(events: seq<Event>, pos: nat, q: nat) {
    forall q' :: pos <= q' < q && q' < |events| ==> !EndsPositionPoll(events[q']) && !ExceptionAt(events, q')
  }

  /** The `while not done` loop from session position `pos`. */
  function PollPositions(events: seq<Event>, pos: nat, broker: string, full: seq<PosRow>, total: int, pd: seq<Entry>): (r: PosOutcome)
    ensures r.Positions? ==> Polled(events, pos, r.next, full, total, r.records, r.total)
    ensures r.PosException? ==> exists q :: pos <= q && ExceptionAt(events, q) && ClearBetween(events, pos, q)
    ensures r.PosStalled? ==> ClearBetween(events, pos, |events|)
    ensures !r.PosCrash?
    decreases |events| - pos
  {
    if pos >= |events| then PosStalled
    else
      var ev := events[pos];
      if IsReply(ev) then
        match ReadPositionReply(ev.messages, ev.kind == Response, full, total)
        case PosReplyException =>
          assert ExceptionAt(events, pos);
          PosException
        case PosReplyHandled(full', total', done) =>
          var pd' := pd + Window(full', broker);
          if done then
            PolledLast(events, pos, full, total);
            Positions(pd', total', full', pos + 1)
          else
            var r := PollPositions(events, pos + 1, broker, full', total', pd');
            if r.Positions? then
              PolledStep(events, pos, r.next, full, total, r.records, r.total);
              r
            else
              ClearStep(events, pos);
              r
      else
        var r := PollPositions(events, pos + 1, broker, full, total, pd + Window(full, broker));
        if r.Positions? then
          assert full + EventRows(ev) == full && total + SumTraded(EventRows(ev)) == total;
          PolledStep(events, pos, r.next, full, total, r.records, r.total);
          r
        else
          ClearStep(events, pos);
          r
  }

  /** An event that neither ends the polling nor holds an Exception extends
      the stretch of such events back by one. */
  lemma ClearStep(events: seq<Event>, pos: nat)
    requires pos < |events| && !EndsPositionPoll(events[pos]) && !ExceptionAt(events, pos)
    ensures ClearBetween(events, pos + 1, |events|) ==> ClearBetween(events, pos, |events|)
    ensures (exists q :: pos + 1 <= q && ExceptionAt(events, q) && ClearBetween(events, pos + 1, q)) ==>
      exists q :: pos <= q && ExceptionAt(events, q) && ClearBetween(events, pos, q)
  {
    if exists q :: pos + 1 <= q && ExceptionAt(events, q) && ClearBetween(events, pos + 1, q) {
      var q :| pos + 1 <= q && ExceptionAt(events, q) && ClearBetween(events, pos + 1, q);
      assert ClearBetween(events, pos, q);
    }
  }

  /** A reply holding an Exception, met before anything ends the polling,
      makes the polling fail, whatever records came before. */
  lemma {:induction false} ExceptionBeforeStop(events: seq<Event>, pos: nat, broker: string, full: seq<PosRow>, total: int, pd: seq<Entry>, q: nat)
    requires pos <= q && ExceptionAt(events, q) && ClearBetween(events, pos, q)
    ensures PollPositions(events, pos, broker, full, total, pd) == PosException
    decreases q - pos
  {
    var ev := events[pos];
    if pos < q {
      assert !EndsPositionPoll(ev) && !ExceptionAt(events, pos);
      if IsReply(ev) {
        var reply := ReadPositionReply(ev.messages, ev.kind == Response, full, total);
        assert reply.PosReplyHandled? && !reply.done;
        ExceptionBeforeStop(events, pos + 1, broker, reply.full, reply.total, pd + Window(reply.full, broker), q);
      } else {
        ExceptionBeforeStop(events, pos + 1, broker, full, total, pd + Window(full, broker), q);
      }
    }
  }

  lemma PolledLast(events: seq<Event>, pos: nat, full: seq<PosRow>, total: int)
    requires pos < |events| && EndsPositionPoll(events[pos]) && !HasException(events[pos].messages)
    ensures Polled(events, pos, pos + 1, full, total,
      full + EventRows(events[pos]), total + SumTraded(EventRows(events[pos])))
  {
    assert events[pos..pos + 1] == [events[pos]];
    assert [events[pos]][1..] == [];
    assert EventRows(events[pos]) + [] == EventRows(events[pos]);
  }

  lemma PolledStep(events: seq<Event>, pos: nat, next: nat, full: seq<PosRow>, total: int, records: seq<PosRow>, total': int)
    requires pos < |events| && !EndsPositionPoll(events[pos])
    requires IsReply(events[pos]) ==> !HasException(events[pos].messages)
    requires Polled(events, pos + 1, next, full + EventRows(events[pos]), total + SumTraded(EventRows(events[pos])), records, total')
    ensures Polled(events, pos, next, full, total, records, total')
  {
    StoppedStep(events, pos, next);
    PolledRowsStep(events, pos, next, full, total);
  }

  lemma PolledRowsStep(events: seq<Event>, pos: nat, next: nat, full: seq<PosRow>, total: int)
    requires pos < next <= |events|
    ensures var head, tail := EventRows(events[pos]), ReplyRows(events[pos + 1..next]);
      && full + head + tail == full + ReplyRows(events[pos..next])
      && total + SumTraded(head) + SumTraded(tail) == total + SumTraded(ReplyRows(events[pos..next]))
  {
    ReplyRowsCons(events, pos, next);
    var head, tail := EventRows(events[pos]), ReplyRows(events[pos + 1..next]);
    SumTradedAppend(head, tail);
    AppendAssoc(full, head, tail);
  }

  lemma StoppedStep(events: seq<Event>, pos: nat, next: nat)
    requires pos < |events| && !EndsPositionPoll(events[pos])
    requires IsReply(events[pos]) ==> !HasException(events[pos].messages)
    requires StoppedAt(events, pos + 1, next)
    ensures StoppedAt(events, pos, next)
  {
  }

  lemma ReplyRowsCons(events: seq<Event>, pos: nat, next: nat)
    requires pos < next <= |events|
    ensures ReplyRows(events[pos..next]) == EventRows(events[pos]) + ReplyRows(events[pos + 1..next])
  {
    assert events[pos..next][0] == events[pos];
    assert events[pos..next][1..] == events[pos + 1..next];
  }

  /** `pos_data` is empty exactly when the windowing pass over the records has
      nothing to append, and otherwise begins with the same three entries. */
  ghost predicate SameFirstWindow(pd: seq<Entry>, full: seq<PosRow>, broker: string) {
    && (pd == [] <==> Window(full, broker) == [])
    && (pd != [] ==> |pd| >= 3 && |Window(full, broker)| >= 3 && pd[..3] == Window(full, broker)[..3])
  }

  lemma WindowGrows(full: seq<PosRow>, rows: seq<PosRow>, broker: string, pd: seq<Entry>)
    requires SameFirstWindow(pd, full, broker)
    ensures SameFirstWindow(pd + Window(full + rows, broker), full + rows, broker)
  {
    var w, w' := Window(full, broker), Window(full + rows, broker);
    WindowPrefix(full, rows, broker, 0);
    WindowLayout(full + rows, broker, 0);
    if pd != [] {
      assert w'[..3] == w'[..|w|][..3] == w[..3];
      assert (pd + w')[..3] == pd[..3];
    } else {
      assert pd + w' == w';
    }
  }

  /** However the records are split over partial responses and timeouts, the
      first three entries of `pos_data` are those a single pass over the
      final records would give. */
  lemma {:induction false} PolledWindow(events: seq<Event>, pos: nat, broker: string, full: seq<PosRow>, total: int, pd: seq<Entry>)
    requires SameFirstWindow(pd, full, broker)
    requires PollPositions(events, pos, broker, full, total, pd).Positions?
    ensures var r := PollPositions(events, pos, broker, full, total, pd);
      SameFirstWindow(r.posData, r.records, broker)
    decreases |events| - pos
  {
    var ev := events[pos];
    if IsReply(ev) {
      var reply := ReadPositionReply(ev.messages, ev.kind == Response, full, total);
      var rows := MessageRows(ev.messages);
      WindowGrows(full, rows, broker, pd);
      if !reply.done {
        PolledWindow(events, pos + 1, broker, reply.full, reply.total, pd + Window(reply.full, broker));
      }
    } else {
      WindowGrows(full, [], broker, pd);
      assert full + [] == full;
      PolledWindow(events, pos + 1, broker, full, total, pd + Window(full, broker));
    }
  }

  /** The result of the polling loop from an empty start: the records are all
      rows of all replies in arrival order, the total is the sum of their
      traded volumes, and `pos_data` is as `BrokerWindow` describes. */
  lemma PositionsFromStart(events: seq<Event>, pos: nat, broker: string)
    requires PollPositions(events, pos, broker, [], 0, []).Positions?
    ensures var r := PollPositions(events, pos, broker, [], 0, []);
      && r.records == ReplyRows(events[pos..r.next])
      && r.total == SumTraded(r.records)
      && BrokerWindow(r.posData, r.records, broker)
  {
    var r := PollPositions(events, pos, broker, [], 0, []);
    StartRecords(events, pos, broker);
    StartWindow(events, pos, broker);
    FirstWindowFacts(r.posData, r.records, broker);
  }

  /** `pos_data` is empty exactly when the broker is absent from every record
      but possibly the last, and otherwise its first three entries are the
      neighbourhood of the broker's first record. */
  ghost predicate BrokerWindow(pd: seq<Entry>, full: seq<PosRow>, broker: string) {
    && (pd == [] <==> forall m :: 0 <= m < |full| - 1 ==> full[m].acronym != broker)
    && forall m ::
      (&& 0 <= m < |full| - 1 && full[m].acronym == broker
       && (forall j :: 0 <= j < m ==> full[j].acronym != broker))
      ==> |pd| >= 3 && pd[..3] == Neighbours(full, m)
  }

  /** The first index short of the last whose acronym is the broker's, when
      the windowing pass found one. */
  function FirstMatch(xs: seq<PosRow>, broker: string): (m: nat)
    requires exists m :: 0 <= m < |xs| - 1 && xs[m].acronym == broker
    ensures m < |xs| - 1 && xs[m].acronym == broker
    ensures forall j :: 0 <= j < m ==> xs[j].acronym != broker
  {
    FirstMatchFrom(xs, broker, 0)
  }

  function FirstMatchFrom(xs: seq<PosRow>, broker: string, i: nat): (m: nat)
    requires exists m :: i <= m < |xs| - 1 && xs[m].acronym == broker
    requires forall j :: 0 <= j < i ==> xs[j].acronym != broker
    ensures i <= m < |xs| - 1 && xs[m].acronym == broker
    ensures forall j :: 0 <= j < m ==> xs[j].acronym != broker
    decreases |xs| - i
  {
    if xs[i].acronym == broker then i else FirstMatchFrom(xs, broker, i + 1)
  }

  /** A non-empty `pos_data` shows the broker's own row second, with an
      entry after it. */
  lemma BrokerWindowOwn(pd: seq<Entry>, full: seq<PosRow>, broker: string)
    requires BrokerWindow(pd, full, broker) && pd != []
    ensures |pd| >= 3 && pd[1].Some? && pd[1].value.acronym == broker && pd[2].Some?
  {
    var m := FirstMatch(full, broker);
    assert pd[..3] == Neighbours(full, m);
    assert pd[1] == pd[..3][1] && pd[2] == pd[..3][2];
  }

  /** What `SameFirstWindow` says about `pos_data` in terms of the records. */
  lemma FirstWindowFacts(pd: seq<Entry>, full: seq<PosRow>, broker: string)
    requires SameFirstWindow(pd, full, broker)
    ensures BrokerWindow(pd, full, broker)
  {
    WindowEmptyIff(full, broker);
    forall m | 0 <= m < |full| - 1 && full[m].acronym == broker
        && (forall j :: 0 <= j < m ==> full[j].acronym != broker)
      ensures |pd| >= 3 && pd[..3] == Neighbours(full, m)
    {
      WindowFirstMatch(full, broker, m);
    }
  }

  lemma StartRecords(events: seq<Event>, pos: nat, broker: string)
    requires PollPositions(events, pos, broker, [], 0, []).Positions?
    ensures var r := PollPositions(events, pos, broker, [], 0, []);
      && r.records == ReplyRows(events[pos..r.next])
      && r.total == SumTraded(r.records)
  {
    var r := PollPositions(events, pos, broker, [], 0, []);
    assert [] + ReplyRows(events[pos..r.next]) == ReplyRows(events[pos..r.next]);
  }

  lemma StartWindow(events: seq<Event>, pos: nat, broker: string)
    requires PollPositions(events, pos, broker, [], 0, []).Positions?
    ensures var r := PollPositions(events, pos, broker, [], 0, []);
      SameFirstWindow(r.posData, r.records, broker)
  {
    assert SameFirstWindow([], [], broker);
    PolledWindow(events, pos, broker, [], 0, []);
  }

  /** The ticker of every security, as the request lists them; a security row
      with no column raises IndexError. */
  function RequestTickers(secs: Table): (r: Result<seq<string>>)
    ensures r.Ok? <==> forall k :: 0 <= k < |secs| ==> |secs[k]| > 0
    ensures r.Err? ==> r.error == IndexError
    ensures r.Ok? ==> |r.value| == |secs| && forall k :: 0 <= k < |secs| ==> r.value[k] == secs[k][0]
  {
    if secs == [] then Ok([])
    else if |secs[0]| == 0 then Err(IndexError)
    else match RequestTickers(secs[1..])
      case Err(e) => Err(e)
      case Ok(rest) =>
        assert forall k :: 1 <= k < |secs| ==> secs[k] == secs[1..][k - 1];
        Ok([secs[0][0]] + rest)
  }

  /** The `for in_sec in securities` loop that fills `securityCriteria`. */
  method AppendTickers(secs: Table) returns (r: Result<seq<string>>)
    ensures r == RequestTickers(secs)
  {
    var tickers: seq<string> := [];
    var k := 0;
    while k < |secs|
      invariant 0 <= k <= |secs|
      invariant forall j :: 0 <= j < k ==> |secs[j]| > 0
      invariant |tickers| == k && forall j :: 0 <= j < k ==> tickers[j] == secs[j][0]
    {
      if |secs[k]| == 0 {
        return Err(IndexError);
      }
      tickers := tickers + [secs[k][0]];
      k := k + 1;
    }
    assert tickers == RequestTickers(secs).value;
    return Ok(tickers);
  }

  function PositionDataOf(securities: Table, broker: string, events: seq<Event>, pos: nat): PosOutcome {
    match RequestTickers(securities)
    case Err(e) => PosCrash(e)
    case Ok(_) => PollPositions(events, pos, broker, [], 0, [])
  }

  method GetPositionData(securities: Table, broker: string, events: seq<Event>, pos: nat) returns (o: PosOutcome)
    ensures o == PositionDataOf(securities, broker, events, pos)
  {
    var tickers := AppendTickers(securities);
    if tickers.Err? {
      return PosCrash(tickers.error);
    }
    var posData: seq<Entry> := [];
    var fullPosData: seq<PosRow> := [];
    var overallTotal := 0;
    var p := pos;
    var done := false;
    while !done
      invariant PollPositions(events, pos, broker, [], 0, []) ==
        if done then Positions(posData, overallTotal, fullPosData, p)
        else PollPositions(events, p, broker, fullPosData, overallTotal, posData)
      decreases |events| - p
    {
      if p >= |events| {
        return PosStalled;
      }
      var event := events[p];
      p := p + 1;
      if event.kind == Response || event.kind == PartialResponse {
        var reply := HandlePositionReply(event.messages, event.kind == Response, fullPosData, overallTotal);
        if reply.PosReplyException? {
          return PosException;
        }
        fullPosData, overallTotal, done := reply.full, reply.total, reply.done;
      }
      posData := WindowPass(fullPosData, broker, posData);
    }
    return Positions(posData, overallTotal, fullPosData, p);
  }
}
