/**
 * What loading a SIRUTA extract produces: the rules that turn one
 * semicolon-split row into a stored record or a warning, the left-to-right
 * fold over all rows, and the two indexes derived from the stored records.
 */
module Loader {
  import opened Wrappers
  import opened Decimal
  import opened Checksum
  import opened Diacritics

  /** One stored entity (the dictionary `__parse_file` builds per row). */
  datatype Record = Record(
    siruta: int,       // SIRUTA, the key
    name: string,      // DENLOC, cedilla letters normalised
    postcode: int,     // CODP
    county: int,       // JUD
    sirutasup: int,    // SIRSUP, the superior entity
    typeCode: int,     // TIP
    level: string,     // NIV, passed through
    urban: bool,       // MED == "1"
    region: int        // REGIUNE
  )

  /** The number of columns of a SIRUTA extract. */
  const FieldCount: nat := 15

  /** The type code of a county (`JUD`) entry. */
  const CountyType: int := 40

  /** Columns 2, 3, 4, 5 and 8 hold integers (`int()` raises otherwise). */
  predicate NumericColumns(row: seq<string>)
    requires |row| == FieldCount
  {
    ParseInt(row[2]).Some? && ParseInt(row[3]).Some? && ParseInt(row[4]).Some?
    && ParseInt(row[5]).Some? && ParseInt(row[8]).Some?
  }

  /**
   * What the loader demands of a row: it is not empty (`row[0]` exists) and,
   * if it is going to be stored, its numeric columns parse.
   */
  predicate WellFormedRow(row: seq<string>) {
    |row| >= 1 && (ParseInt(row[0]).Some? && |row| == FieldCount ==> NumericColumns(row))
  }

  predicate WellFormedRows(rows: seq<seq<string>>) {
    forall i :: 0 <= i < |rows| ==> WellFormedRow(rows[i])
  }

  /** The record a row yields: only rows with an integer code and 15 fields are stored. */
  function RowRecord(row: seq<string>): (r: Option<Record>)
    requires WellFormedRow(row)
    ensures r.Some? ==> Some(r.value.siruta) == ParseInt(row[0]) && !HasCedilla(r.value.name)
  {
    match ParseInt(row[0])
    case None => None
    case Some(code) =>
      if |row| != FieldCount then None
      else Some(Record(code, Normalize(row[1]), ParseInt(row[2]).value, ParseInt(row[3]).value,
                       ParseInt(row[4]).value, ParseInt(row[5]).value, row[6], row[7] == "1",
                       ParseInt(row[8]).value))
  }

  /** Python's `str(row)` for a list of plain strings. */
  function ShowRow(row: seq<string>): (s: string)
    ensures |s| >= 2 && s[0] == '[' && s[|s| - 1] == ']'
  {
    "[" + ShowFields(row) + "]"
  }

  function ShowFields(fields: seq<string>): string {
    if fields == [] then ""
    else if |fields| == 1 then "'" + fields[0] + "'"
    else "'" + fields[0] + "', " + ShowFields(fields[1..])
  }

  /** The non-integer-code warning: the row appears in brackets after `Line `. */
  function InvalidCodeMessage(row: seq<string>): (m: string)
    ensures |m| > 33 && m[..6] == "Line [" && m[|m| - 28] == ']'
  {
    var shown := ShowRow(row);
    var m := "Line " + shown + " has an invalid SIRUTA code";
    assert m[5..5 + |shown|] == shown;
    m
  }

  /** The checksum warning; the code can be read back from it. */
  function NotValidMessage(code: int): (m: string)
    ensures |m| > 25 && ParseInt(m[12..|m| - 13]) == Some(code)
  {
    var m := "SIRUTA code " + IntToString(code) + " is not valid";
    assert m[12..|m| - 13] == IntToString(code);
    IntToStringRoundTrip(code);
    m
  }

  /** The field-count warning: the row appears in brackets after `Line `. */
  function FieldCountMessage(row: seq<string>): (m: string)
    ensures |m| > 32 && m[..6] == "Line [" && m[|m| - 27] == ']'
  {
    var shown := ShowRow(row);
    var m := "Line " + shown + " does not have 15 elements";
    assert m[5..5 + |shown|] == shown;
    m
  }

  /** The warnings one row raises, in the order the loader raises them. */
  function RowWarnings(row: seq<string>): (w: seq<string>)
    requires |row| >= 1
    ensures |w| <= 2
    ensures w == [] <==> (ParseInt(row[0]).Some? && IsValidCode(ParseInt(row[0]).value) && |row| == FieldCount)
  {
    match ParseInt(row[0])
    case None => [InvalidCodeMessage(row)]
    case Some(code) =>
      (if IsValidCode(code) then [] else [NotValidMessage(code)])
      + (if |row| != FieldCount then [FieldCountMessage(row)] else [])
  }

  /** The loader's state: the records stored so far and the last warning. */
  datatype LoadState = LoadState(data: map<int, Record>, lastError: string)

  /**
   * One row. With `enforce`, the first warning aborts the load (the warning
   * is raised as an exception); otherwise it only becomes the last error.
   */
  function Step(st: LoadState, row: seq<string>, enforce: bool): (r: Result<LoadState, string>)
    requires WellFormedRow(row)
    ensures r.Failure? <==> enforce && RowWarnings(row) != []
    ensures r.Failure? ==> r.error == RowWarnings(row)[0]
    ensures r.Success? ==> st.data.Keys <= r.value.data.Keys
  {
    var warnings := RowWarnings(row);
    if enforce && warnings != [] then Failure(warnings[0])
    else
      var data := match RowRecord(row) case Some(rec) => st.data[rec.siruta := rec] case None => st.data;
      Success(LoadState(data, if warnings == [] then st.lastError else warnings[|warnings| - 1]))
  }

  /** All rows, first to last, from an empty dictionary and an empty last error. */
  function Ingest(rows: seq<seq<string>>, enforce: bool): (r: Result<LoadState, string>)
    requires WellFormedRows(rows)
    ensures r.Failure? ==> enforce
  {
    if rows == [] then Success(LoadState(map[], ""))
    else
      match Ingest(rows[..|rows| - 1], enforce)
      case Failure(message) => Failure(message)
      case Success(st) => Step(st, rows[|rows| - 1], enforce)
  }

  /** The code a row stores under, if it is stored. */
  predicate StoresCode(row: seq<string>, k: int)
    requires WellFormedRow(row)
  {
    RowRecord(row).Some? && RowRecord(row).value.siruta == k
  }

  /**
   * The keep rule: a row is stored exactly when its code is an integer and it
   * has 15 fields (a failing checksum does not matter), under its own code,
   * with its name normalised and `urban` set exactly when column 7 is "1".
   */
  lemma RowRecordRule(row: seq<string>)
    requires WellFormedRow(row)
    ensures RowRecord(row).Some? <==> ParseInt(row[0]).Some? && |row| == FieldCount
    ensures RowRecord(row).Some? ==>
      var rec := RowRecord(row).value;
      && Some(rec.siruta) == ParseInt(row[0])
      && rec.name == Normalize(row[1]) && !HasCedilla(rec.name)
      && (rec.urban <==> row[7] == "1")
  {
    if RowRecord(row).Some? {
      NormalizeRemovesCedillas(row[1]);
    }
  }

  /** A row whose code is not an integer only sets the last error. */
  lemma SkipNonIntegerCode(st: LoadState, row: seq<string>)
    requires WellFormedRow(row) && ParseInt(row[0]).None?
    ensures Step(st, row, false) == Success(LoadState(st.data, InvalidCodeMessage(row)))
  {
  }

  /** A row with an integer code but not 15 fields is skipped after its warnings. */
  lemma SkipWrongFieldCount(st: LoadState, row: seq<string>)
    requires WellFormedRow(row) && ParseInt(row[0]).Some? && |row| != FieldCount
    ensures Step(st, row, false) == Success(LoadState(st.data, FieldCountMessage(row)))
  {
  }

  /** A well-formed row whose code fails the checksum is still stored. */
  lemma KeepBadChecksum(st: LoadState, row: seq<string>)
    requires WellFormedRow(row) && |row| == FieldCount
    requires ParseInt(row[0]).Some? && !IsValidCode(ParseInt(row[0]).value)
    ensures RowRecord(row).Some?
    ensures Step(st, row, false)
      == Success(LoadState(st.data[ParseInt(row[0]).value := RowRecord(row).value],
                           NotValidMessage(ParseInt(row[0]).value)))
  {
  }

  /** Without `enforce`, no row can abort the load. */
  lemma {:induction false} IngestTolerant(rows: seq<seq<string>>)
    requires WellFormedRows(rows)
    ensures Ingest(rows, false).Success?
  {
    if rows != [] {
      IngestTolerant(rows[..|rows| - 1]);
    }
  }

  /** The dictionary after all rows is the one before the last row, updated by that row. */
  lemma IngestLast(rows: seq<seq<string>>)
    requires WellFormedRows(rows) && rows != []
    ensures Ingest(rows, false).Success? && Ingest(rows[..|rows| - 1], false).Success?
    ensures var before := Ingest(rows[..|rows| - 1], false).value.data;
      Ingest(rows, false).value.data
        == match RowRecord(rows[|rows| - 1]) case Some(rec) => before[rec.siruta := rec] case None => before
  {
    IngestTolerant(rows[..|rows| - 1]);
  }

  /** The stored codes are exactly the codes of the stored rows. */
  lemma {:induction false} IngestKeys(rows: seq<seq<string>>, k: int)
    requires WellFormedRows(rows)
    ensures Ingest(rows, false).Success?
    ensures k in Ingest(rows, false).value.data <==> exists i :: 0 <= i < |rows| && StoresCode(rows[i], k)
  {
    IngestTolerant(rows);
    if rows != [] {
      IngestKeys(rows[..|rows| - 1], k);
      IngestLast(rows);
      StoresCodeSplit(rows, k);
    }
  }

  /** Some row stores `k` exactly when an earlier row or the last row does. */
  lemma StoresCodeSplit(rows: seq<seq<string>>, k: int)
    requires WellFormedRows(rows) && rows != []
    ensures var init := rows[..|rows| - 1];
      (exists i :: 0 <= i < |rows| && StoresCode(rows[i], k))
      <==> (exists i :: 0 <= i < |init| && StoresCode(init[i], k)) || StoresCode(rows[|rows| - 1], k)
  {
    var init := rows[..|rows| - 1];
    if exists i :: 0 <= i < |rows| && StoresCode(rows[i], k) {
      var i :| 0 <= i < |rows| && StoresCode(rows[i], k);
      if i < |rows| - 1 {
        assert StoresCode(init[i], k);
      }
    }
    if exists i :: 0 <= i < |init| && StoresCode(init[i], k) {
      var i :| 0 <= i < |init| && StoresCode(init[i], k);
      assert StoresCode(rows[i], k);
    }
  }

  /** Every stored record sits under its own `siruta` and is the record of some row. */
  lemma {:induction false} IngestRecordsFromRows(rows: seq<seq<string>>, k: int)
    requires WellFormedRows(rows)
    ensures Ingest(rows, false).Success?
    ensures var data := Ingest(rows, false).value.data;
      k in data ==> data[k].siruta == k && exists i :: 0 <= i < |rows| && RowRecord(rows[i]) == Some(data[k])
  {
    IngestTolerant(rows);
    if rows != [] {
      var init := rows[..|rows| - 1];
      IngestRecordsFromRows(init, k);
      IngestLast(rows);
      var data := Ingest(rows, false).value.data;
      var last := RowRecord(rows[|rows| - 1]);
      if k in data {
        if last.Some? && last.value.siruta == k {
          assert RowRecord(rows[|rows| - 1]) == Some(data[k]);
        } else {
          var before := Ingest(init, false).value.data;
          var i :| 0 <= i < |init| && RowRecord(init[i]) == Some(before[k]);
          assert RowRecord(rows[i]) == Some(data[k]);
        }
      }
    }
  }

  /** A later row with the same code replaces the earlier record: the last one is kept. */
  lemma {:induction false} IngestLastRowWins(rows: seq<seq<string>>, i: nat)
    requires WellFormedRows(rows) && i < |rows| && RowRecord(rows[i]).Some?
    requires forall j :: i < j < |rows| ==> !StoresCode(rows[j], RowRecord(rows[i]).value.siruta)
    ensures Ingest(rows, false).Success?
    ensures var rec := RowRecord(rows[i]).value;
      rec.siruta in Ingest(rows, false).value.data && Ingest(rows, false).value.data[rec.siruta] == rec
  {
    var init := rows[..|rows| - 1];
    IngestLast(rows);
    if i < |rows| - 1 {
      IngestLastRowWins(init, i);
    }
  }

  /** Storing a row changes the dictionary at that row's code and nowhere else. */
  lemma StepChangesOneKey(st: LoadState, row: seq<string>, k: int)
    requires WellFormedRow(row) && !StoresCode(row, k)
    ensures Step(st, row, false).Success?
    ensures var data := Step(st, row, false).value.data;
      (k in data <==> k in st.data) && (k in data ==> data[k] == st.data[k])
  {
  }

  /** A header row (non-integer code) is dropped, so distinct data rows give `lines - 1` records. */
  lemma {:induction false} HeaderDropped(rows: seq<seq<string>>)
    requires WellFormedRows(rows) && |rows| >= 1 && ParseInt(rows[0][0]).None?
    requires forall i :: 1 <= i < |rows| ==> RowRecord(rows[i]).Some?
    requires forall i, j :: 1 <= i < j < |rows| ==> RowRecord(rows[i]).value.siruta != RowRecord(rows[j]).value.siruta
    ensures Ingest(rows, false).Success?
    ensures |Ingest(rows, false).value.data| == |rows| - 1
  {
    IngestTolerant(rows);
    if |rows| > 1 {
      var init := rows[..|rows| - 1];
      assert WellFormedRows(init) && init[0] == rows[0];
      assert forall i :: 1 <= i < |init| ==> init[i] == rows[i];
      HeaderDropped(init);
      var k := RowRecord(rows[|rows| - 1]).value.siruta;
      forall i | 0 <= i < |rows| - 1
        ensures !StoresCode(rows[i], k)
      {
        if i == 0 {
          assert RowRecord(rows[0]).None?;
        }
      }
      LastCodeIsNew(rows);
      IngestLast(rows);
    } else {
      assert rows[..0] == [];
    }
  }

  /** When no earlier row stores the last row's code, the dictionary before it lacks that code. */
  lemma LastCodeIsNew(rows: seq<seq<string>>)
    requires WellFormedRows(rows) && |rows| >= 1 && RowRecord(rows[|rows| - 1]).Some?
    requires forall i :: 0 <= i < |rows| - 1 ==> !StoresCode(rows[i], RowRecord(rows[|rows| - 1]).value.siruta)
    ensures Ingest(rows[..|rows| - 1], false).Success?
    ensures RowRecord(rows[|rows| - 1]).value.siruta !in Ingest(rows[..|rows| - 1], false).value.data
  {
    var init := rows[..|rows| - 1];
    var k := RowRecord(rows[|rows| - 1]).value.siruta;
    forall i | 0 <= i < |init|
      ensures !StoresCode(init[i], k)
    {
      assert init[i] == rows[i];
    }
    IngestKeys(init, k);
  }

  /** Reading one more row is one more `Step`. */
  lemma IngestPrefixStep(rows: seq<seq<string>>, i: nat, st: LoadState, enforce: bool)
    requires WellFormedRows(rows) && i < |rows|
    requires Ingest(rows[..i], enforce) == Success(st)
    ensures Ingest(rows[..i + 1], enforce) == Step(st, rows[i], enforce)
  {
    assert rows[..i + 1][..i] == rows[..i];
  }

  /**
   * After a clean prefix, the next row either aborts the whole load with the
   * message it raised or extends the prefix by one step.
   */
  lemma IngestNextRow(rows: seq<seq<string>>, i: nat, st: LoadState, enforce: bool,
                      raised: Option<string>, next: LoadState)
    requires WellFormedRows(rows) && i < |rows|
    requires Ingest(rows[..i], enforce) == Success(st)
    requires Step(st, rows[i], enforce) == if raised.Some? then Failure(raised.value) else Success(next)
    ensures raised.Some? ==> Ingest(rows, enforce) == Failure(raised.value)
    ensures raised.None? ==> Ingest(rows[..i + 1], enforce) == Success(next)
  {
    IngestPrefixStep(rows, i, st, enforce);
    if raised.Some? {
      IngestFailurePersists(rows, i + 1, enforce);
    }
  }

  /** Once a load has aborted, the remaining rows are never read. */
  lemma {:induction false} IngestFailurePersists(rows: seq<seq<string>>, j: nat, enforce: bool)
    requires WellFormedRows(rows) && j <= |rows| && Ingest(rows[..j], enforce).Failure?
    ensures Ingest(rows, enforce) == Ingest(rows[..j], enforce)
  {
    if j < |rows| {
      var init := rows[..|rows| - 1];
      assert init[..j] == rows[..j];
      IngestFailurePersists(init, j, enforce);
    } else {
      assert rows[..j] == rows;
    }
  }

  /** With `enforce` and no warning on any row, the load is the tolerant one. */
  lemma {:induction false} EnforcedWithoutWarnings(rows: seq<seq<string>>)
    requires WellFormedRows(rows)
    requires forall i :: 0 <= i < |rows| ==> RowWarnings(rows[i]) == []
    ensures Ingest(rows, true) == Ingest(rows, false)
  {
    if rows != [] {
      EnforcedWithoutWarnings(rows[..|rows| - 1]);
    }
  }

  /** With `enforce`, the load fails with the first warning of the first row that has one. */
  lemma EnforcedStopsAtFirstWarning(rows: seq<seq<string>>, i: nat)
    requires WellFormedRows(rows) && i < |rows|
    requires RowWarnings(rows[i]) != []
    requires forall j :: 0 <= j < i ==> RowWarnings(rows[j]) == []
    ensures Ingest(rows, true) == Failure(RowWarnings(rows[i])[0])
  {
    var prefix := rows[..i];
    assert forall j :: 0 <= j < |prefix| ==> prefix[j] == rows[j];
    EnforcedWithoutWarnings(prefix);
    IngestTolerant(prefix);
    var st := Ingest(prefix, false).value;
    IngestNextRow(rows, i, st, true, Some(RowWarnings(rows[i])[0]), st);
  }

  /** With `enforce`, an extract that starts with its header line never loads. */
  lemma EnforcedRejectsHeader(rows: seq<seq<string>>)
    requires WellFormedRows(rows) && |rows| >= 1 && ParseInt(rows[0][0]).None?
    ensures Ingest(rows, true) == Failure(InvalidCodeMessage(rows[0]))
  {
    EnforcedStopsAtFirstWarning(rows, 0);
  }

  /** The county numbers that have a county (type 40) entry. */
  function CountyNumbers(data: map<int, Record>): set<int> {
    set c | c in data && data[c].typeCode == CountyType :: data[c].county
  }

  /** `c` is a county entry of county `k` named `name`. */
  predicate IsCountyEntry(data: map<int, Record>, c: int, k: int, name: string) {
    c in data && data[c].typeCode == CountyType && data[c].county == k && data[c].name == name
  }

  /**
   * What `_counties` holds once built: a key per county number that has a
   * county entry, mapped to the name of such an entry.
   */
  ghost predicate IsCountyIndex(data: map<int, Record>, counties: map<int, string>) {
    && counties.Keys == CountyNumbers(data)
    && forall k :: k in counties ==> exists c :: IsCountyEntry(data, c, k, counties[k])
  }

  /** At most one county entry per county number, as in the published extract. */
  predicate OneEntryPerCounty(data: map<int, Record>) {
    forall c1, c2 ::
      (c1 in data && c2 in data && data[c1].typeCode == CountyType
       && data[c2].typeCode == CountyType && data[c1].county == data[c2].county) ==> c1 == c2
  }

  /** With one county entry per county, the county index is fully determined. */
  lemma CountyIndexUnique(data: map<int, Record>, m1: map<int, string>, m2: map<int, string>)
    requires IsCountyIndex(data, m1) && IsCountyIndex(data, m2) && OneEntryPerCounty(data)
    ensures m1 == m2
  {
    forall k | k in m1
      ensures m1[k] == m2[k]
    {
      var c1 :| IsCountyEntry(data, c1, k, m1[k]);
      var c2 :| IsCountyEntry(data, c2, k, m2[k]);
    }
  }

  /** The codes whose superior code is `c` (what `get_inf_codes` collects). */
  function ChildCodes(data: map<int, Record>, c: int): (s: set<int>)
    ensures s <= data.Keys
  {
    set k | k in data && data[k].sirutasup == c
  }

  /** The header line of an extract. */
  const HeaderRow: seq<string> :=
    ["SIRUTA", "DENLOC", "CODP", "JUD", "SIRSUP", "TIP", "NIV", "MED", "REGIUNE",
     "FSJ", "FS2", "FS3", "FSL", "rang", "fictiv"]

  /** The header is skipped: its code is not an integer. */
  lemma HeaderRowSkipped(st: LoadState)
    ensures WellFormedRow(HeaderRow)
    ensures Step(st, HeaderRow, false) == Success(LoadState(st.data, InvalidCodeMessage(HeaderRow)))
  {
    assert !IsDigit(HeaderRow[0][0]);
    assert ParseInt(HeaderRow[0]).None?;
  }
}
