/** `import_securities` and `import_analyst_mappings`: both read a CSV file into
    a list of rows and pop its first row, the title. Opening and parsing the
    file are left to the caller; these work on the parsed rows. */
module CsvImport {
  import opened Base

  /** The parsed table without its title row; `pop(0)` on an empty list raises. */
  function DropHeader(table: Table): (r: Result<Table>)
    ensures r.Ok? <==> |table| > 0
    ensures r.Err? ==> r.error == IndexError
    ensures r.Ok? ==> |r.value| == |table| - 1
    ensures r.Ok? ==> forall k :: 0 <= k < |r.value| ==> r.value[k] == table[k + 1]
  {
    if |table| == 0 then Err(IndexError) else Ok(table[1..])
  }

  /** Putting the title back in front of what `DropHeader` kept gives the table. */
  lemma HeaderRestored(table: Table)
    requires DropHeader(table).Ok?
    ensures [table[0]] + DropHeader(table).value == table
  {
  }

  /** Dropping the title of a file that has one returns exactly its data rows. */
  lemma HeaderRoundTrip(title: Row, rows: Table)
    ensures DropHeader([title] + rows) == Ok(rows)
  {
    assert ([title] + rows)[1..] == rows;
  }

  method ImportSecurities(parsed: Table) returns (r: Result<Table>)
    ensures r == DropHeader(parsed)
  {
    var secList := parsed;
    if |secList| == 0 {
      return Err(IndexError);
    }
    secList := secList[1..];
    return Ok(secList);
  }

  method ImportAnalystMappings(parsed: Table) returns (r: Result<Table>)
    ensures r == DropHeader(parsed)
  {
    var afList := parsed;
    if |afList| == 0 {
      return Err(IndexError);
    }
    afList := afList[1..];
    return Ok(afList);
  }
}
