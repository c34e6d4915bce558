/** What the vendor session hands the report generator, as plain data: a stream
    of events, each with a type and a list of messages. Only the fields the
    script reads are kept. */
module Events {
  import opened Base

  datatype EventType = Response | PartialResponse | Timeout | OtherEvent

  /** One ranking record: `broker.acronym`, `broker.name`, `broker.rank`, and
      the `total` and `traded` volumes. */
  datatype BrokerRecord = BrokerRecord(acronym: string, name: string, rank: int, total: int, traded: int)

  /** One `securityData` entry of a reference-data reply: the DS199 (industry
      sector) and PR088 (last trade) fields, each of which may be absent. */
  datatype SecurityData = SecurityData(sector: Option<string>, lastTrade: Option<real>)

  datatype Message =
    | Exception
    | Report(records: seq<BrokerRecord>)
    | RefData(securityData: seq<SecurityData>)
    | OtherMessage

  datatype Event = Event(kind: EventType, messages: seq<Message>)

  predicate HasException(msgs: seq<Message>) {
    exists k :: 0 <= k < |msgs| && msgs[k].Exception?
  }

  predicate HasReport(msgs: seq<Message>) {
    exists k :: 0 <= k < |msgs| && msgs[k].Report?
  }

  /** One more message holds an Exception exactly when it is one or an
      earlier one is. */
  lemma ExceptionSnoc(msgs: seq<Message>, j: nat)
    requires j < |msgs|
    ensures HasException(msgs[..j + 1]) <==> HasException(msgs[..j]) || msgs[j].Exception?
  {
    if HasException(msgs[..j + 1]) && !msgs[j].Exception? {
      var k :| 0 <= k < j + 1 && msgs[..j + 1][k].Exception?;
      assert msgs[..j][k] == msgs[k];
    }
    if msgs[j].Exception? {
      assert msgs[..j + 1][j].Exception?;
    }
    if HasException(msgs[..j]) {
      var k :| 0 <= k < j && msgs[..j][k].Exception?;
      assert msgs[..j + 1][k] == msgs[k];
    }
  }

  /** One more message holds a Report exactly when it is one or an earlier
      one is. */
  lemma ReportSnoc(msgs: seq<Message>, j: nat)
    requires j < |msgs|
    ensures HasReport(msgs[..j + 1]) <==> HasReport(msgs[..j]) || msgs[j].Report?
  {
    if HasReport(msgs[..j + 1]) && !msgs[j].Report? {
      var k :| 0 <= k < j + 1 && msgs[..j + 1][k].Report?;
      assert msgs[..j][k] == msgs[k];
    }
    if msgs[j].Report? {
      assert msgs[..j + 1][j].Report?;
    }
    if HasReport(msgs[..j]) {
      var k :| 0 <= k < j && msgs[..j][k].Report?;
      assert msgs[..j + 1][k] == msgs[k];
    }
  }

  /** The records of every Report message, message by message, in order. */
  function ReportRecords(msgs: seq<Message>): seq<BrokerRecord> {
    if msgs == [] then []
    else
      var last := msgs[|msgs| - 1];
      ReportRecords(msgs[..|msgs| - 1]) + (if last.Report? then last.records else [])
  }

  lemma {:induction false} NoReportNoRecords(msgs: seq<Message>)
    requires !HasReport(msgs)
    ensures ReportRecords(msgs) == []
  {
    if msgs != [] {
      var init := msgs[..|msgs| - 1];
      assert !HasReport(init) by {
        forall k | 0 <= k < |init| ensures !init[k].Report? {
          assert init[k] == msgs[k];
        }
      }
      NoReportNoRecords(init);
    }
  }

  /** The `securityData` entries of every reference-data message, in order. */
  function AllSecurityData(msgs: seq<Message>): seq<SecurityData> {
    if msgs == [] then []
    else
      var last := msgs[|msgs| - 1];
      AllSecurityData(msgs[..|msgs| - 1]) + (if last.RefData? then last.securityData else [])
  }

  lemma {:induction false} ReportRecordsAppend(a: seq<Message>, b: seq<Message>)
    ensures ReportRecords(a + b) == ReportRecords(a) + ReportRecords(b)
    decreases |b|
  {
    if b != [] {
      var b' := b[..|b| - 1];
      assert (a + b)[..|a + b| - 1] == a + b';
      assert (a + b)[|a + b| - 1] == b[|b| - 1];
      ReportRecordsAppend(a, b');
    } else {
      assert a + b == a;
    }
  }

  lemma {:induction false} AllSecurityDataAppend(a: seq<Message>, b: seq<Message>)
    ensures AllSecurityData(a + b) == AllSecurityData(a) + AllSecurityData(b)
    decreases |b|
  {
    if b != [] {
      var b' := b[..|b| - 1];
      assert (a + b)[..|a + b| - 1] == a + b';
      assert (a + b)[|a + b| - 1] == b[|b| - 1];
      AllSecurityDataAppend(a, b');
    } else {
      assert a + b == a;
    }
  }
}
