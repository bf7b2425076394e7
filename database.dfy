/**
 * The SIRUTA database object: the records loaded from an extract, the county
 * index built from them, the last warning message, and the lookups.
 */
module Database {
  import opened Wrappers
  import opened Decimal
  import opened Checksum
  import opened Text
  import opened Names
  import opened Loader

  /**
   * What a lookup does: return a value, return `None`, or raise a
   * `SirutaCodeWarning` (when warnings are enforced).
   */
  datatype Reply<+T> = Returned(value: T) | ReturnedNone | Raised(message: string)

  /** The warning of every lookup of an absent code; the code can be read back from it. */
  function NotInDatabaseMessage(code: int): (m: string)
    ensures |m| > 35 && ParseInt(m[12..|m| - 23]) == Some(code)
  {
    var m := "SIRUTA code " + IntToString(code) + " is not in the database";
    assert m[12..|m| - 23] == IntToString(code);
    IntToStringRoundTrip(code);
    m
  }

  /** The reply to a lookup of a code that is not stored. */
  function Absent<T>(enforce: bool, code: int): Reply<T> {
    if enforce then Raised(NotInDatabaseMessage(code)) else ReturnedNone
  }

  /** `_village_type`: the descriptions of the 15 entity types. */
  const VillageTypes: map<int, string> :=
    map[
      1 := "municipiu re\U{0219}edin\U{021B}\U{0103} de jude\U{021B}",
      2 := "ora\U{0219} ce apar\U{021B}ine de jude\U{021B}",
      3 := "comun\U{0103}",
      4 := "municipiu, altul dec\U{00E2}t re\U{0219}edin\U{021B}a de jude\U{021B}",
      5 := "ora\U{0219} re\U{0219}edin\U{021B}\U{0103} de jude\U{021B}",
      6 := "Sector al  municipiului Bucure\U{0219}ti",
      9 := "localitate  component\U{0103}, re\U{0219}edin\U{021B}\U{0103} de municipiu",
      10 := "localitate component\U{0103} a unui municipiu alta dec\U{00E2}t re\U{0219}edin\U{021B}\U{0103} de municipiu",
      11 := "sat ce apar\U{021B}ine de municipiu",
      17 := "localitate component\U{0103}, re\U{0219}edin\U{021B}\U{0103} a ora\U{0219}ului",
      18 := "localitate  component\U{0103} a unui ora\U{0219}, alta dec\U{00E2}t re\U{0219}edin\U{021B}\U{0103} de ora\U{0219}",
      19 := "sat care apar\U{021B}ine unui ora\U{0219}",
      22 := "sat re\U{0219}edin\U{021B}\U{0103} de comun\U{0103}",
      23 := "sat ce apar\U{021B}ine de comun\U{0103}, altul dec\U{00E2}t re\U{0219}edin\U{021B}\U{0103} de comun\U{0103} ",
      40 := "jude\U{021B}"
    ]

  /** The descriptions the lookups of the test extract expect, and a type the table lacks. */
  lemma VillageTypeExamples()
    ensures 3 in VillageTypes && VillageTypes[3] == "comun\U{0103}"
    ensures 9 in VillageTypes
      && VillageTypes[9] == "localitate  component\U{0103}, re\U{0219}edin\U{021B}\U{0103} de municipiu"
    ensures 40 in VillageTypes && VillageTypes[40] == "jude\U{021B}"
    ensures 7 !in VillageTypes
  {
  }

  class SirutaDatabase {
    /** `_data`: the stored records by SIRUTA code. */
    var data: map<int, Record>
    /** `_counties`: county number to the name of its county entry. */
    var counties: map<int, string>
    /** `_last_error`: the message of the most recent warning. */
    var lastError: string
    /** `_enforce_warnings`: raise warnings instead of ignoring them. */
    var enforceWarnings: bool

    /** The fields as `__init__` sets them before reading the extract. */
    constructor Empty(enforce: bool)
      ensures data == map[] && counties == map[] && lastError == "" && enforceWarnings == enforce
    {
      data := map[];
      counties := map[];
      lastError := "";
      enforceWarnings := enforce;
    }

    /** `__notify_error`: record the message; report whether it is raised. */
    method NotifyError(message: string, enforce: bool) returns (raised: bool)
      modifies this`lastError
      ensures lastError == message && raised == (enforce || enforceWarnings)
    {
      lastError := message;
      raised := enforce || enforceWarnings;
    }

    /** `get_last_error`. */
    method GetLastError() returns (message: string)
      ensures message == lastError
    {
      message := lastError;
    }

    /**
     * `__parse_file`: read the rows in order, storing each well-formed row
     * under its code; a raised warning aborts with its message.
     */
    method ParseFile(rows: seq<seq<string>>) returns (raised: Option<string>)
      requires WellFormedRows(rows)
      requires data == map[] && lastError == ""
      modifies this`data, this`lastError
      ensures Ingest(rows, enforceWarnings).Success? ==>
        && raised == None
        && data == Ingest(rows, enforceWarnings).value.data
        && lastError == Ingest(rows, enforceWarnings).value.lastError
      ensures Ingest(rows, enforceWarnings).Failure? ==>
        raised == Some(Ingest(rows, enforceWarnings).error) && lastError == raised.value
    {
      var i := 0;
      assert rows[..0] == [];
      while i < |rows|
        invariant 0 <= i <= |rows|
        invariant Ingest(rows[..i], enforceWarnings) == Success(LoadState(data, lastError))
      {
        ghost var before := LoadState(data, lastError);
        raised := ParseRow(rows[i]);
        IngestNextRow(rows, i, before, enforceWarnings, raised, LoadState(data, lastError));
        if raised.Some? {
          return;
        }
        i := i + 1;
      }
      assert rows[..|rows|] == rows;
      raised := None;
    }

    /** The body of the `for row in reader` loop of `__parse_file`, for one row. */
    method ParseRow(row: seq<string>) returns (raised: Option<string>)
      requires WellFormedRow(row)
      modifies this`data, this`lastError
      ensures Step(LoadState(old(data), old(lastError)), row, enforceWarnings)
        == if raised.Some? then Failure(raised.value) else Success(LoadState(data, lastError))
      ensures raised.Some? ==> lastError == raised.value
    {
      var parsed := ParseInt(row[0]);
      if parsed.None? {
        assert RowWarnings(row) == [InvalidCodeMessage(row)];
        var r := NotifyError(InvalidCodeMessage(row), false);
        return if r then Some(lastError) else None;
      }
      var siruta := parsed.value;
      var valid := SirutaIsValid(siruta);
      if !valid {
        var r := NotifyError(NotValidMessage(siruta), false);
        if r {
          assert RowWarnings(row)[0] == NotValidMessage(siruta);
          return Some(lastError);
        }
      }
      if |row| != FieldCount {
        assert RowWarnings(row)[|RowWarnings(row)| - 1] == FieldCountMessage(row);
        var r := NotifyError(FieldCountMessage(row), false);
        return if r then Some(lastError) else None;
      }
      assert RowWarnings(row) == if valid then [] else [NotValidMessage(siruta)];
      var urban := false;
      if row[7] == "1" {
        urban := true;
      }
      data := data[siruta := Record(siruta, Diacritics.Normalize(row[1]), ParseInt(row[2]).value,
                                    ParseInt(row[3]).value, ParseInt(row[4]).value,
                                    ParseInt(row[5]).value, row[6], urban, ParseInt(row[8]).value)];
      raised := None;
    }

    /** `__build_county_list`: one pass over the records collecting county entries. */
    method BuildCountyList()
      requires counties == map[]
      modifies this`counties
      ensures IsCountyIndex(data, counties)
    {
      var pending := data.Keys;
      // The existential guard gives the `:|` below its witness; with `pending != {}` the verifier finds none.
      while exists key :: key in pending
        invariant pending <= data.Keys
        invariant forall c :: c in data && c !in pending && data[c].typeCode == CountyType
                             ==> data[c].county in counties
        invariant forall k :: k in counties ==>
                    exists c :: c !in pending && IsCountyEntry(data, c, k, counties[k])
        decreases |pending|
      {
        var c :| c in pending;
        if data[c].typeCode == CountyType {
          counties := counties[data[c].county := data[c].name];
        }
        pending := pending - {c};
      }
    }

    /** `get_name`. */
    method GetName(siruta: int, prefix: bool) returns (r: Reply<string>)
      modifies this`lastError
      ensures siruta in data ==>
        && lastError == old(lastError)
        && r == Returned(if prefix then data[siruta].name else WithoutPrefixes(data[siruta].name))
      ensures siruta !in data ==> lastError == NotInDatabaseMessage(siruta) && r == Absent(enforceWarnings, siruta)
    {
      if siruta !in data {
        var raised := NotifyError(NotInDatabaseMessage(siruta), false);
        return if raised then Raised(lastError) else ReturnedNone;
      }
      if prefix {
        r := Returned(data[siruta].name);
      } else {
        var name := DropPrefixes(data[siruta].name);
        r := Returned(name);
      }
    }

    /** `get_sup_code`. */
    method GetSupCode(siruta: int) returns (r: Reply<int>)
      modifies this`lastError
      ensures siruta in data ==> lastError == old(lastError) && r == Returned(data[siruta].sirutasup)
      ensures siruta !in data ==> lastError == NotInDatabaseMessage(siruta) && r == Absent(enforceWarnings, siruta)
    {
      if siruta !in data {
        var raised := NotifyError(NotInDatabaseMessage(siruta), false);
        return if raised then Raised(lastError) else ReturnedNone;
      }
      r := Returned(data[siruta].sirutasup);
    }

    /** `get_sup_name`: the name of the superior entity, if both codes are stored. */
    method GetSupName(siruta: int, prefix: bool) returns (r: Reply<string>)
      modifies this`lastError
      ensures siruta !in data ==> lastError == NotInDatabaseMessage(siruta) && r == Absent(enforceWarnings, siruta)
      ensures siruta in data && data[siruta].sirutasup !in data ==>
        lastError == NotInDatabaseMessage(data[siruta].sirutasup)
        && r == Absent(enforceWarnings, data[siruta].sirutasup)
      ensures siruta in data && data[siruta].sirutasup in data ==>
        var sup := data[data[siruta].sirutasup];
        lastError == old(lastError) && r == Returned(if prefix then sup.name else WithoutPrefixes(sup.name))
    {
      var supcode := GetSupCode(siruta);
      if supcode.Raised? {
        return Raised(supcode.message);
      }
      if supcode.ReturnedNone? {
        return ReturnedNone;
      }
      if supcode.value !in data {
        var raised := NotifyError(NotInDatabaseMessage(supcode.value), false);
        return if raised then Raised(lastError) else ReturnedNone;
      }
      if prefix {
        r := Returned(data[supcode.value].name);
      } else {
        var name := DropPrefixes(data[supcode.value].name);
        r := Returned(name);
      }
    }

    /** `get_postal_code`. */
    method GetPostalCode(siruta: int) returns (r: Reply<int>)
      modifies this`lastError
      ensures siruta in data ==> lastError == old(lastError) && r == Returned(data[siruta].postcode)
      ensures siruta !in data ==> lastError == NotInDatabaseMessage(siruta) && r == Absent(enforceWarnings, siruta)
    {
      if siruta !in data {
        var raised := NotifyError(NotInDatabaseMessage(siruta), false);
        return if raised then Raised(lastError) else ReturnedNone;
      }
      r := Returned(data[siruta].postcode);
    }

    /** `get_type`. */
    method GetType(siruta: int) returns (r: Reply<int>)
      modifies this`lastError
      ensures siruta in data ==> lastError == old(lastError) && r == Returned(data[siruta].typeCode)
      ensures siruta !in data ==> lastError == NotInDatabaseMessage(siruta) && r == Absent(enforceWarnings, siruta)
    {
      if siruta !in data {
        var raised := NotifyError(NotInDatabaseMessage(siruta), false);
        return if raised then Raised(lastError) else ReturnedNone;
      }
      r := Returned(data[siruta].typeCode);
    }

    /** `get_type_string`: `None`, without a warning, for a type missing from the table. */
    method GetTypeString(siruta: int) returns (r: Reply<string>)
      modifies this`lastError
      ensures siruta in data ==>
        && lastError == old(lastError)
        && r == (if data[siruta].typeCode in VillageTypes
                 then Returned(VillageTypes[data[siruta].typeCode]) else ReturnedNone)
      ensures siruta !in data ==> lastError == NotInDatabaseMessage(siruta) && r == Absent(enforceWarnings, siruta)
    {
      if siruta !in data {
        var raised := NotifyError(NotInDatabaseMessage(siruta), false);
        return if raised then Raised(lastError) else ReturnedNone;
      }
      var typeCode := data[siruta].typeCode;
      if typeCode in VillageTypes {
        r := Returned(VillageTypes[typeCode]);
      } else {
        r := ReturnedNone;
      }
    }

    /** `get_county`. */
    method GetCounty(siruta: int) returns (r: Reply<int>)
      modifies this`lastError
      ensures siruta in data ==> lastError == old(lastError) && r == Returned(data[siruta].county)
      ensures siruta !in data ==> lastError == NotInDatabaseMessage(siruta) && r == Absent(enforceWarnings, siruta)
    {
      if siruta !in data {
        var raised := NotifyError(NotInDatabaseMessage(siruta), false);
        return if raised then Raised(lastError) else ReturnedNone;
      }
      r := Returned(data[siruta].county);
    }

    /** `get_county_string`: the county's name from the county index, `None` if it has none. */
    method GetCountyString(siruta: int, prefix: bool) returns (r: Reply<string>)
      modifies this`lastError
      ensures siruta in data ==>
        && lastError == old(lastError)
        && r == (if data[siruta].county in counties
                 then Returned(if prefix then counties[data[siruta].county]
                               else WithoutCountyPrefixes(counties[data[siruta].county]))
                 else ReturnedNone)
      ensures siruta !in data ==> lastError == NotInDatabaseMessage(siruta) && r == Absent(enforceWarnings, siruta)
    {
      if siruta !in data {
        var raised := NotifyError(NotInDatabaseMessage(siruta), false);
        return if raised then Raised(lastError) else ReturnedNone;
      }
      var county := data[siruta].county;
      if county in counties {
        if prefix {
          r := Returned(counties[county]);
        } else {
          r := Returned(WithoutCountyPrefixes(counties[county]));
        }
      } else {
        r := ReturnedNone;
      }
    }

    /** `get_region`. */
    method GetRegion(siruta: int) returns (r: Reply<int>)
      modifies this`lastError
      ensures siruta in data ==> lastError == old(lastError) && r == Returned(data[siruta].region)
      ensures siruta !in data ==> lastError == NotInDatabaseMessage(siruta) && r == Absent(enforceWarnings, siruta)
    {
      if siruta !in data {
        var raised := NotifyError(NotInDatabaseMessage(siruta), false);
        return if raised then Raised(lastError) else ReturnedNone;
      }
      r := Returned(data[siruta].region);
    }

    /**
     * `get_inf_codes`: every stored code whose superior is `siruta`, each
     * once; an empty list when there are none.
     */
    method GetInfCodes(siruta: int) returns (r: Reply<seq<int>>)
      modifies this`lastError
      ensures siruta in data ==>
        && lastError == old(lastError)
        && r.Returned?
        && (forall i, j :: 0 <= i < j < |r.value| ==> r.value[i] != r.value[j])
        && (forall k :: k in r.value <==> k in ChildCodes(data, siruta))
      ensures siruta !in data ==> lastError == NotInDatabaseMessage(siruta) && r == Absent(enforceWarnings, siruta)
    {
      if siruta !in data {
        var raised := NotifyError(NotInDatabaseMessage(siruta), false);
        return if raised then Raised(lastError) else ReturnedNone;
      }
      var ret: seq<int> := [];
      var pending := data.Keys;
      // The existential guard gives the `:|` below its witness; with `pending != {}` the verifier finds none.
      while exists key :: key in pending
        invariant pending <= data.Keys
        invariant forall i, j :: 0 <= i < j < |ret| ==> ret[i] != ret[j]
        invariant forall k :: k in ret <==> k in data && k !in pending && data[k].sirutasup == siruta
        decreases |pending|
      {
        var entry :| entry in pending;
        if data[entry].sirutasup == siruta {
          ret := ret + [entry];
        }
        pending := pending - {entry};
      }
      r := Returned(ret);
    }

    /** How `get_all_counties` lists the county `k` of the index. */
    function CountyListed(k: int, prefix: bool): string
      requires k in counties
      reads this
    {
      if prefix then counties[k] else WithoutCountyPrefixes(counties[k])
    }

    /** Every name `get_all_counties` can list. */
    function ListedCounties(prefix: bool): set<string>
      reads this
    {
      set k | k in counties :: CountyListed(k, prefix)
    }

    /**
     * `get_all_counties` before its locale sort: every county index value
     * once, with `JUDEȚUL `/`MUNICIPIUL ` removed when `prefix` is false.
     * `order` names the county number behind each entry.
     */
    method GetAllCounties(prefix: bool) returns (names: seq<string>, ghost order: seq<int>)
      ensures |names| == |counties|
      ensures forall i :: 0 <= i < |names| ==> names[i] in ListedCounties(prefix)
      ensures forall name :: name in ListedCounties(prefix) ==> name in names
      ensures |order| == |names|
      ensures forall i, j :: 0 <= i < j < |order| ==> order[i] != order[j]
      ensures forall k :: k in order <==> k in counties
      ensures forall i :: 0 <= i < |names| ==> order[i] in counties && names[i] == CountyListed(order[i], prefix)
    {
      names, order := [], [];
      var pending := counties.Keys;
      // The existential guard gives the `:|` below its witness; with `pending != {}` the verifier finds none.
      while exists key :: key in pending
        invariant pending <= counties.Keys
        invariant |order| == |names| && |names| + |pending| == |counties|
        invariant forall i, j :: 0 <= i < j < |order| ==> order[i] != order[j]
        invariant forall k :: k in order <==> k in counties && k !in pending
        invariant forall i :: 0 <= i < |names| ==> order[i] in counties && names[i] == counties[order[i]]
        decreases |pending|
      {
        var k :| k in pending;
        names, order := names + [counties[k]], order + [k];
        pending := pending - {k};
      }
      if !prefix {
        for index := 0 to |names|
          invariant |names| == |order|
          invariant forall i :: 0 <= i < |names| ==> order[i] in counties
          invariant forall i :: 0 <= i < index ==> names[i] == WithoutCountyPrefixes(counties[order[i]])
          invariant forall i :: index <= i < |names| ==> names[i] == counties[order[i]]
        {
          names := names[index := WithoutCountyPrefixes(names[index])];
        }
      }
      forall i | 0 <= i < |names|
        ensures names[i] in ListedCounties(prefix)
      {
        assert order[i] in counties && names[i] == CountyListed(order[i], prefix);
      }
      forall name | name in ListedCounties(prefix)
        ensures name in names
      {
        var k :| k in counties && name == CountyListed(k, prefix);
        var i :| 0 <= i < |order| && order[i] == k;
        assert names[i] == name;
      }
    }
  }

  /**
   * Construction (`__init__` after the file is found): parse the rows, then
   * build the county index. With `enforce`, the first warning aborts and no
   * database is produced.
   */
  method Open(rows: seq<seq<string>>, enforce: bool) returns (r: Result<SirutaDatabase, string>)
    requires WellFormedRows(rows)
    ensures r.Failure? <==> Ingest(rows, enforce).Failure?
    ensures r.Failure? ==> r.error == Ingest(rows, enforce).error
    ensures r.Success? ==>
      && fresh(r.value)
      && r.value.data == Ingest(rows, enforce).value.data
      && r.value.lastError == Ingest(rows, enforce).value.lastError
      && IsCountyIndex(r.value.data, r.value.counties)
      && r.value.enforceWarnings == enforce
  {
    var db := new SirutaDatabase.Empty(enforce);
    var raised := db.ParseFile(rows);
    if raised.Some? {
      return Failure(raised.value);
    }
    db.BuildCountyList();
    r := Success(db);
  }
}
