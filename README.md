# SIRUTA registry, modelled in Dafny

`sirutalib` loads an extract of SIRUTA, the Romanian register of
administrative units, into memory. An extract is a semicolon-separated file
with one row per unit. The `SirutaDatabase` object keeps the rows as records
keyed by SIRUTA code. It also keeps an index of counties and the message of
the most recent warning. Lookups by code return a unit's name, its superior
unit, its postal code, type, county and region, and the codes of its
subordinate units.

This project models that object and proves what it promises:

- `decimal.dfy` (module `Decimal`): Python's `str()` and `int()` on integers,
  and `int(n / 10)`, which truncates toward zero.
- `checksum.dfy` (module `Checksum`): the SIRUTA check-digit algorithm. It
  uses the weights 1, 2, 3, 5, 7, the digit sum of each weighted digit, and
  `(11 - s mod 10) mod 10`. Codes whose text is longer than six characters
  are rejected. The loop is proved against a specification function, and the
  published test codes are proved valid or invalid.
- `diacritics.dfy` (module `Diacritics`): names are normalised as they are
  loaded. Ş ş Ţ ţ (cedilla) become Ș ș Ț ț (comma below).
- `text.dfy` (module `Text`): `str.replace` (left to right, no overlaps) and
  `str.strip` (Python's whitespace set).
- `names.dfy` (module `Names`): the administrative prefixes `JUDEȚUL `,
  `MUNICIPIUL `, `ORAȘ ` and `BUCUREȘTI `. Name lookups remove all four and
  trim. County lookups remove only the first two and do not trim.
- `loader.dfy` (module `Loader`): how each row becomes a record or a warning,
  and the left-to-right fold over all rows. It also defines the county index
  and the child-code set that the lookups must match.
- `database.dfy` (module `Database`): the class `SirutaDatabase`. It has the
  fields `data`, `counties`, `lastError` and `enforceWarnings`, the loading
  loop, the county-index loop and every lookup by code. `Open` is the
  constructor path after the file has been found.

A warning is modelled as follows. `lastError` is always set. If warnings are
enforced, the operation raises: a lookup then returns `Raised(message)`
instead of `None`, and loading returns `Failure(message)`.

## Notes on the code

- `get_name` and `get_sup_name` remove each prefix wherever it occurs in a
  name, not only at its start (sirutalib.py:237).
- `get_inf_codes` returns an empty list for a stored code without children,
  although its docstring promises `None` (sirutalib.py:407-408, 417-423).

## Model

| member | source | states |
|---|---|---|
| Checksum.SirutaIsValid | sirutalib.py:181-209 | the loop's verdict is exactly `IsValidCode`: at most six characters of text, and the last digit equals the check digit computed from the five digits before it |
| Checksum.IsValidCode | sirutalib.py:195-208 | the check-digit rule: the text has at most six characters and the last digit (`n % 10`) is the check digit of `int(n / 10)`; every valid code lies between -99999 and 999999 |
| Checksum.LoopStep | sirutalib.py:201-205 | one pass of the loop keeps both invariants: the remaining code is the body truncated by the next power of ten, and the checksum is the weighted sum so far |
| Checksum.ClosingSteps | sirutalib.py:206-209 | the three statements after the loop and the comparison give exactly `IsValidCode`, once the checksum is the weighted sum of the body |
| Checksum.NextDigit | sirutalib.py:201-203 | each pass of the loop exposes the next digit from the right and keeps the rest equal to the code truncated by the next power of ten |
| Checksum.LongCodesInvalid | sirutalib.py:195-196 | every code whose decimal text is longer than six characters is invalid |
| Checksum.CheckDigitDecides | sirutalib.py:197-209 | for a body below 100000 and a last digit d, the code is valid exactly when d is the check digit of the body |
| Checksum.ValidCodeDeterminedByBody | sirutalib.py:197-209 | two valid non-negative codes with the same digits before the last are equal, so each body has one valid code |
| Checksum.DigitSumBelow100 | sirutalib.py:203-204 | the digit sum of a weighted digit (below 100) is its tens digit plus its units digit |
| Checksum.WeightedDigit | sirutalib.py:203-204 | the digit sum of a digit times a weight of at most 7 is the tens digit plus the units digit of the product |
| Checksum.DigitSum | sirutalib.py:204 | `sum(map(int, str(left)))`: the digit sum of a single digit is the digit itself |
| Checksum.WeightedSumUnfolded | sirutalib.py:197-204 | the weighted sum is the digit sums of the five weighted digits, with weights 1, 2, 3, 5, 7 |
| Checksum.CheckDigitOfDigits | sirutalib.py:197-208 | the check digit written out in terms of the five digits of the body |
| Checksum.DigitsOf | sirutalib.py:202-203 | the digits the loop extracts from a body are its decimal digits from the right |
| Checksum.ValidCode179132 | testsiruta.py:141 | 179132 is valid |
| Checksum.ValidCode29 | testsiruta.py:142 | 29 is valid |
| Checksum.ValidCode500 | testsiruta.py:130-131 | 500 is valid: a correct code that no entity has |
| Checksum.InvalidCode1234567 | testsiruta.py:143 | 1234567 is invalid |
| Checksum.InvalidCode86453 | testsiruta.py:145 | 86453 is invalid |
| Checksum.InvalidCode179197 | testsiruta.py:147 | 179197 is invalid |
| Checksum.Digit | sirutalib.py:202-203 | an extracted digit is below 10 |
| Checksum.CheckDigitFor | sirutalib.py:206-208 | a check digit is below 10 |
| Decimal.IntToStringRoundTrip | sirutalib.py:145 | `int(str(n)) == n` for every integer n |
| Decimal.NatToStringRoundTrip | sirutalib.py:195 | the digits of `str(n)` read back as n |
| Decimal.NatToStringLength | sirutalib.py:195 | `str(n)` has at most k digits exactly when n < 10^k |
| Decimal.TextLengthAboveSix | sirutalib.py:195 | `len(str(n)) > 6` exactly when n ≥ 1000000 or n ≤ -100000, the sign counting as a character |
| Decimal.TruncDivTwice | sirutalib.py:202 | truncating toward zero by a and then by b is truncating by a·b |
| Decimal.NatToString | sirutalib.py:195 | `str(n)` of a natural number is a non-empty digit string without leading zeros |
| Decimal.IntToString | sirutalib.py:195 | `str(n)` is non-empty and starts with `-` exactly when n is negative |
| Decimal.DigitChar | sirutalib.py:204 | the digit character of d reads back as d |
| Decimal.TruncDiv | sirutalib.py:202 | `int(n / d)` keeps the sign of n |
| Decimal.ParseInt | sirutalib.py:145-148 | only a non-empty text parses as an integer; that `str(n)` of every integer parses back to n is stated by `Decimal.IntToStringRoundTrip` |
| Diacritics.Normalize | sirutalib.py:114 | the translation keeps the length and maps each character through the table |
| Diacritics.Translate | sirutalib.py:114 | the `_dia_trans` table: a cedilla letter becomes a comma-below letter, every other character is kept |
| Diacritics.TranslateMovesOnlyCedillas | sirutalib.py:114 | a character changes exactly when it is Ş ş Ţ ţ, becomes its comma-below form, and is never left a cedilla |
| Diacritics.NormalizeRemovesCedillas | sirutalib.py:160 | a normalised name contains no cedilla letter |
| Diacritics.NormalizeKeepsOtherCharacters | sirutalib.py:160 | every other character is unchanged |
| Diacritics.NormalizeFixesCedillaFree | sirutalib.py:160 | a name without cedillas is unchanged |
| Diacritics.NormalizeIdempotent | sirutalib.py:160 | normalising twice is normalising once |
| Text.ReplaceAbsent | sirutalib.py:237 | `replace` leaves a string without the pattern unchanged |
| Text.Replace | sirutalib.py:237 | `str.replace`: a replacement no longer than the pattern never lengthens the text, and one no shorter never shortens it |
| Text.ReplaceSkipsHead | sirutalib.py:237 | a head that cannot start the pattern is kept, and `replace` continues after it |
| Text.ReplaceLeading | sirutalib.py:237 | a leading occurrence is replaced and the scan continues after it |
| Text.TrimStart | sirutalib.py:238 | `lstrip` drops a whitespace-only prefix and leaves a suffix that does not start with whitespace |
| Text.TrimEnd | sirutalib.py:238 | `rstrip` drops a whitespace-only suffix and leaves a prefix that does not end with whitespace |
| Text.Strip | sirutalib.py:238 | `str.strip` never lengthens a string and leaves no whitespace at either end |
| Text.StripIsTrimmedFactor | sirutalib.py:238 | `strip` returns the factor of s that has whitespace only around it and no whitespace at either end |
| Text.StripTrimmed | sirutalib.py:238 | a trimmed string is its own strip |
| Text.StripIdempotent | sirutalib.py:238 | stripping twice is stripping once |
| Names.DropPrefixes | sirutalib.py:234-238 | the loop over `_prefixes` followed by `strip` computes `WithoutPrefixes` |
| Names.RemoveAll | sirutalib.py:235-237 | removing the prefixes one after another, each with `replace`, never lengthens the name |
| Names.WithoutPrefixes | sirutalib.py:234-238 | the name `get_name` and `get_sup_name` return with `prefix=False` is no longer than the stored name and never begins or ends with whitespace |
| Names.WithoutCountyPrefixes | sirutalib.py:377-378 | the county name with only `JUDEȚUL ` and `MUNICIPIUL ` removed, as `get_county_string` and `get_all_counties` return it, is no longer than the stored name |
| Names.WithoutPrefixesOfPrefixed | sirutalib.py:232-238 | a prefix followed by a bare trimmed name gives back the bare name |
| Names.WithoutCountyPrefixesOfPrefixed | sirutalib.py:373-378 | `JUDEȚUL ` or `MUNICIPIUL ` followed by a bare name gives back the bare name |
| Names.WithoutPrefixesOfUnprefixed | sirutalib.py:232-238 | a name that contains no prefix is only stripped, and county lookups leave it unchanged |
| Names.RemoveFirstPrefixes | sirutalib.py:235-237 | removing the prefixes in order drops prefix i once its turn comes and keeps the rest of the name |
| Names.RemoveNoneOf | sirutalib.py:235-237 | removing prefixes from a name that contains none changes nothing |
| Names.EarlierPrefixesStartElsewhere | sirutalib.py:113 | no later prefix contains the first letter of an earlier one |
| Names.TooLongToOccur | sirutalib.py:237 | a pattern longer than the text does not occur in it |
| Names.AlbaWithoutPrefix | testsiruta.py:122-127 | `JUDEȚUL ALBA` without its prefix is `ALBA`, in both name and county lookups |
| Loader.RowRecordRule | sirutalib.py:144-168 | a row yields a record exactly when its code is an integer and it has 15 fields; the record's key is its code, its name is normalised, and it is urban exactly when column 7 is "1" |
| Loader.RowRecord | sirutalib.py:154-168 | a stored record carries the code its row parsed to, and its name has no cedilla letter |
| Loader.RowWarnings | sirutalib.py:145-153 | a row raises at most two warnings, and none exactly when its code is an integer that passes the checksum and it has 15 fields |
| Loader.ShowRow | sirutalib.py:147 | `str(row)` is the fields inside `[` and `]` |
| Loader.InvalidCodeMessage | sirutalib.py:147 | the warning for a row whose code is not an integer starts with `Line [` and shows the row in brackets |
| Loader.NotValidMessage | sirutalib.py:150 | the checksum message; the code reads back from it |
| Loader.FieldCountMessage | sirutalib.py:152 | the warning for a row without 15 fields starts with `Line [` and shows the row in brackets |
| Loader.Step | sirutalib.py:144-168 | one row: it fails exactly when warnings are enforced and the row warns, with the first warning; otherwise no stored code is lost |
| Loader.Ingest | sirutalib.py:143-168 | the whole loop as a fold over the rows from an empty dictionary; it fails only when warnings are enforced |
| Loader.SkipNonIntegerCode | sirutalib.py:144-148 | a row whose code is not an integer leaves the records unchanged and records the invalid-code warning |
| Loader.SkipWrongFieldCount | sirutalib.py:151-153 | a row with an integer code and a field count other than 15 leaves the records unchanged and records the field-count warning |
| Loader.KeepBadChecksum | sirutalib.py:149-168 | a 15-field row with a bad checksum is still stored, and the warning names its code |
| Loader.HeaderRowSkipped | sirutalib.py:144-148 | the header line of an extract is skipped with the invalid-code warning |
| Loader.IngestTolerant | sirutalib.py:143-168 | without enforcement, loading never fails |
| Loader.IngestLast | sirutalib.py:158-168 | the last row stores its record over what the earlier rows produced, or changes nothing |
| Loader.IngestKeys | sirutalib.py:143-168 | a code is stored exactly when some row stores it |
| Loader.StoresCodeSplit | sirutalib.py:143-168 | some row stores a code exactly when an earlier row or the last row does |
| Loader.IngestRecordsFromRows | sirutalib.py:158-168 | each stored record is keyed by its own code and comes from some row |
| Loader.IngestLastRowWins | sirutalib.py:158 | the record of a row that no later row overrides is the one stored |
| Loader.StepChangesOneKey | sirutalib.py:158 | a row leaves every code it does not store untouched |
| Loader.HeaderDropped | testsiruta.py:107-114 | a header followed by rows with distinct valid codes stores one record fewer than there are lines |
| Loader.LastCodeIsNew | sirutalib.py:158 | when no earlier row stores the last row's code, the dictionary before the last row lacks that code |
| Loader.IngestPrefixStep | sirutalib.py:143 | loading one more row is one more step of the fold |
| Loader.IngestNextRow | sirutalib.py:143-168 | after rows that loaded cleanly, a next row that raises aborts the whole load with its message, and one that does not extends the load by its step |
| Loader.IngestFailurePersists | sirutalib.py:120-127 | once a warning has been raised, the later rows do not matter |
| Loader.EnforcedWithoutWarnings | sirutalib.py:120-127 | with no warnings in the rows, enforcement changes nothing |
| Loader.EnforcedStopsAtFirstWarning | sirutalib.py:120-127 | with enforcement, loading fails with the first warning of the first row that has one |
| Loader.EnforcedRejectsHeader | sirutalib.py:144-148 | with enforcement, an extract that starts with a header fails with the invalid-code warning |
| Loader.CountyIndexUnique | sirutalib.py:177-179 | with one county entry per county, only one county index fits the records |
| Loader.ChildCodes | sirutalib.py:419-421 | the stored codes whose superior is the given code |
| Database.SirutaDatabase.Empty | sirutalib.py:93-118 | a new object has no records, no counties, an empty last error and the requested enforcement |
| Database.VillageTypeExamples | sirutalib.py:96-112 | the type table gives `comună` for type 3, the component-locality description for type 9 and `județ` for type 40, and lacks type 7 |
| Database.NotInDatabaseMessage | sirutalib.py:229 | the message of every lookup of an absent code; the code reads back from it |
| Database.SirutaDatabase.NotifyError | sirutalib.py:120-127 | the message becomes the last error, and it is raised when the call or the object enforces warnings |
| Database.SirutaDatabase.GetLastError | sirutalib.py:211-212 | returns the last error |
| Database.SirutaDatabase.ParseFile | sirutalib.py:129-168 | after the loop, the records and the last error are those of the fold over the rows; with enforcement, the first warning is raised |
| Database.SirutaDatabase.ParseRow | sirutalib.py:144-168 | one pass of the loop performs one step of the fold |
| Database.SirutaDatabase.BuildCountyList | sirutalib.py:170-179 | the county index has a key exactly for the counties that have a type-40 entry, and maps each to the name of such an entry |
| Database.SirutaDatabase.GetName | sirutalib.py:214-238 | a stored code gives its name, with or without prefixes; an absent code gives `None` or raises, with the not-in-database message as last error |
| Database.SirutaDatabase.GetSupCode | sirutalib.py:240-256 | a stored code gives its superior's code; an absent code gives `None` or raises, with the not-in-database message |
| Database.SirutaDatabase.GetSupName | sirutalib.py:258-287 | the superior's name when both codes are stored; `None` or raise, naming the code that is missing, otherwise |
| Database.SirutaDatabase.GetPostalCode | sirutalib.py:289-304 | a stored code gives its postal code; an absent code gives `None` or raises |
| Database.SirutaDatabase.GetType | sirutalib.py:306-320 | a stored code gives its type; an absent code gives `None` or raises |
| Database.SirutaDatabase.GetTypeString | sirutalib.py:322-341 | a stored code gives the description of its type from the 15-entry table, or `None` without a warning when the type is not in it; an absent code gives `None` or raises |
| Database.SirutaDatabase.GetCounty | sirutalib.py:343-357 | a stored code gives its county number; an absent code gives `None` or raises |
| Database.SirutaDatabase.GetCountyString | sirutalib.py:359-381 | a stored code gives its county's indexed name, with only `JUDEȚUL ` and `MUNICIPIUL ` removed when asked, or `None` when the county has no entry; an absent code gives `None` or raises |
| Database.SirutaDatabase.GetRegion | sirutalib.py:383-397 | a stored code gives its region; an absent code gives `None` or raises |
| Database.SirutaDatabase.GetInfCodes | sirutalib.py:399-423 | a stored code gives exactly the stored codes whose superior it is, each once, possibly none; an absent code gives `None` or raises |
| Database.SirutaDatabase.GetAllCounties | sirutalib.py:425-441 | returns one name per county in the index, and the names listed are exactly the county names, with `JUDEȚUL ` and `MUNICIPIUL ` removed when asked |
| Database.Open | sirutalib.py:80-118 | construction fails exactly when the fold raises, with its message; otherwise the object holds the fold's records and last error and a county index that matches them |

## Left out

- Finding and opening the file, and the CSV reader (sirutalib.py:81-92, 141-142). The input is a sequence of rows already split on `;`. A missing file always raises, and that is not modelled.
- Python 2 decoding of fields (sirutalib.py:137-140).
- The mechanics of the `warnings` module (filters, stack level). Only the last-error update and the enforced raise are modelled.
- Database.SirutaDatabase.GetAllCounties: the locale-dependent sort is left out, so the contract states which names are returned and not their order.
- Dictionary iteration order. Several county entries can share a county number, and the index then keeps the name of one of them: `BuildCountyList` proves only that it is one of them (unique when there is one entry per county). The order of `GetInfCodes` is not stated either.
- The lookups by name (sirutalib.py:448-474). They only raise `NotImplementedError`.
- Decimal.ParseInt: it accepts an optional sign followed by ASCII digits. Python's `int()` also accepts surrounding whitespace, underscores and non-ASCII digits.
- Rows on which the source raises an uncaught exception are excluded by preconditions (`WellFormedRow`): an empty row, and a 15-field row with an integer code whose columns 2, 3, 4, 5 or 8 are not integers.
- Loader.ShowRow: the invalid-code and field-count messages render a row like Python 3's `str(list)` of plain fields, each in single quotes. They can differ from the source's text in four cases: quotes and backslashes inside a field are not escaped; Python 3 writes non-printable characters (tab, newline, other control characters, U+00A0) as escapes such as `\t`, `\n`, `\xa0`; Python wraps a field that contains `'` in double quotes; and under Python 2 (sirutalib.py:47, 137-140) the row holds undecoded bytes, so every non-ASCII byte of a name prints as `\xNN`.
- Checksum.SirutaIsValid: takes an integer. The source also converts a string argument with `int()`, and that conversion is not modelled. Negative codes follow Python 3 semantics: `%` as in Python, and `int(n / 10)` truncating toward zero. Under Python 2, `siruta / 10` on integers floors, so a negative code would yield other digits.
- Codes and numbers are unbounded integers, as in Python.
