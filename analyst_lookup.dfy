/** `get_analyst`: the analyst mapped to a ticker, by a first-match scan of the
    mapping rows `[ticker, analyst]`. A row too short for the index the scan
    takes raises IndexError. */
module AnalystLookup {
  import opened Base

  function GetAnalyst(sec: string, mappings: Table): (r: Result<string>)
    ensures r.Err? ==> r.error == IndexError
    ensures r.Ok? && r.value != "" ==>
      exists k :: 0 <= k < |mappings| && |mappings[k]| >= 2 && mappings[k][0] == sec && mappings[k][1] == r.value
    decreases |mappings|
  {
    if mappings == [] then Ok("")
    else if |mappings[0]| == 0 then Err(IndexError)
    else if mappings[0][0] == sec then
      (if |mappings[0]| < 2 then Err(IndexError) else Ok(mappings[0][1]))
    else
      var r := GetAnalyst(sec, mappings[1..]);
      assert r.Ok? && r.value != "" ==> exists k :: 1 <= k < |mappings| && |mappings[k]| >= 2 && mappings[k][0] == sec && mappings[k][1] == r.value by {
        if r.Ok? && r.value != "" {
          var j :| 0 <= j < |mappings[1..]| && |mappings[1..][j]| >= 2 && mappings[1..][j][0] == sec && mappings[1..][j][1] == r.value;
          assert mappings[j + 1] == mappings[1..][j];
        }
      }
      r
  }

  /** Rows before row k that the scan passes over: non-empty, another ticker. */
  ghost predicate SkippedBefore(sec: string, mappings: Table, k: nat)
    requires k <= |mappings|
  {
    forall j :: 0 <= j < k ==> |mappings[j]| >= 1 && mappings[j][0] != sec
  }

  /** The first row naming the ticker decides the analyst: its second column. */
  lemma {:induction false} FirstMatchWins(sec: string, mappings: Table, k: nat)
    requires k < |mappings| && SkippedBefore(sec, mappings, k)
    requires |mappings[k]| >= 2 && mappings[k][0] == sec
    ensures GetAnalyst(sec, mappings) == Ok(mappings[k][1])
  {
    if k > 0 {
      assert SkippedBefore(sec, mappings[1..], k - 1) by {
        forall j | 0 <= j < k - 1 ensures |mappings[1..][j]| >= 1 && mappings[1..][j][0] != sec {
          assert mappings[1..][j] == mappings[j + 1];
        }
      }
      FirstMatchWins(sec, mappings[1..], k - 1);
    }
  }

  /** No row names the ticker: the empty string. */
  lemma {:induction false} NoMatchIsEmpty(sec: string, mappings: Table)
    requires SkippedBefore(sec, mappings, |mappings|)
    ensures GetAnalyst(sec, mappings) == Ok("")
  {
    if mappings != [] {
      assert SkippedBefore(sec, mappings[1..], |mappings| - 1) by {
        forall j | 0 <= j < |mappings| - 1 ensures |mappings[1..][j]| >= 1 && mappings[1..][j][0] != sec {
          assert mappings[1..][j] == mappings[j + 1];
        }
      }
      NoMatchIsEmpty(sec, mappings[1..]);
    }
  }

  /** The scan raises at an empty row, or at a matching row with no second column,
      met before any usable match. */
  lemma {:induction false} ShortRowFails(sec: string, mappings: Table, k: nat)
    requires k < |mappings| && SkippedBefore(sec, mappings, k)
    requires |mappings[k]| == 0 || (mappings[k][0] == sec && |mappings[k]| < 2)
    ensures GetAnalyst(sec, mappings) == Err(IndexError)
  {
    if k > 0 {
      assert SkippedBefore(sec, mappings[1..], k - 1) by {
        forall j | 0 <= j < k - 1 ensures |mappings[1..][j]| >= 1 && mappings[1..][j][0] != sec {
          assert mappings[1..][j] == mappings[j + 1];
        }
      }
      ShortRowFails(sec, mappings[1..], k - 1);
    }
  }

  /** Rows after a row naming the ticker are never consulted, so later
      duplicate mappings cannot change the answer. */
  lemma {:induction false} LaterRowsIgnored(sec: string, mappings: Table, rest: Table, k: nat)
    requires k < |mappings| && |mappings[k]| >= 1 && mappings[k][0] == sec
    ensures GetAnalyst(sec, mappings + rest) == GetAnalyst(sec, mappings)
  {
    assert (mappings + rest)[0] == mappings[0];
    if |mappings[0]| >= 1 && mappings[0][0] != sec {
      assert (mappings + rest)[1..] == mappings[1..] + rest;
      LaterRowsIgnored(sec, mappings[1..], rest, k - 1);
    }
  }
}
