# StopAndFrisk in Dafny

A verified model of `StopAndFrisk`, an in-memory store of NYPD stop-and-frisk
records grouped by year. It has one loader and five aggregation queries.

- **Loader.** `readFile` reads CSV rows. Each row becomes one record, built
  from fixed columns: year 0, description 2, arrested 13, frisked 16, gender
  52, race 66 and location 71. The record goes through a find-or-create step
  on the `database` list of year groups: it is appended to every group of
  its year, or to a new group added at the end.
- **Queries.**
  - `populationStopped` returns the records of one year and race.
  - `friskedVSArrested` returns the percent frisked and the percent arrested.
  - `genderBias` returns a 2x3 table of half-weighted race/gender shares
    with a sum column.
  - `crimeIncrease` returns the change in the percentage of records whose
    description contains a substring.
  - `mostCommonBorough` returns the borough with the most stops, keeping
    the earliest on ties.

The model has four modules:

- `Records` (records.dfy):
  - the record and the decoded row (`Entry`);
  - `Integer.parseInt` on a year field;
  - the row decoder and an encoder that inverts it;
  - the decoded prefix of a list of rows.
- `Aggregates` (aggregates.dfy) holds the store as a value, a sequence of
  `YearGroup`s:
  - the loader's step (`Load`, `LoadAll`);
  - each query as a function, with the lemmas that say what each one means;
  - the link between "every group of the year" scans and "first group of
    the year" scans.
- `Store` (store.dfy) holds the classes:
  - `SFYear`, whose `records` grow in place;
  - `StopAndFrisk`, whose `database` field the loader updates.

  Each Java loop is a method with loop invariants. Each method is proved
  equal to its `Aggregates` function on `View()`, a value snapshot of the
  store. `Valid()` is the store invariant: at most one group per year.
- `Scenario` (scenario.dfy) is a worked example. It loads three rows and
  states each query's answer.

Three loops have no `break` in the code, so they visit every group of the
requested year:

- the loader's append loop;
- `populationStopped`;
- `crimeIncrease`, whose total is the size of the last such group.

The other three queries stop at the first group of the year. The model
follows each loop as written. Lemmas then show that under `Valid()`, which
the loader maintains, both kinds of scan see the same single group.

A row that is too short, or whose year field does not parse, makes the code
throw in the middle of loading. The rows before it stay loaded. `ReadFile`
models this as an error result: it returns `ok == false` and keeps exactly
the rows before the bad one.

## Model

| member | source | states |
|---|---|---|
| Records.ParseInt | Code/StopAndFrisk.java:67 | a parsed year comes from a non-empty string, fits in a Java int, and has the sign of the string |
| Records.ParseIntMeaning | Code/StopAndFrisk.java:67 | a string parses exactly when it is an optional sign followed by one or more decimal digits whose value fits in a Java int, and the result is that signed decimal value |
| Records.ParseShowInt | Code/StopAndFrisk.java:67 | every Java int is read back from its decimal spelling |
| Records.DecodeRow | Code/StopAndFrisk.java:65-73 | a row decodes exactly when it has at least 72 fields and field 0 parses as an int; then the year is that int, description, gender, race and location are fields 2, 52, 66 and 71 as they stand, and arrested/frisked are true exactly when fields 13/16 are "Y" |
| Records.EncodeRow | Code/StopAndFrisk.java:65-73 | the row written for an entry has exactly the 72 columns the decoder reads |
| Records.DecodeEncode | Code/StopAndFrisk.java:65-76 | decoding the row written for any entry with an int-range year gives back that entry: every column lands in its field |
| Records.DecodePrefix | Code/StopAndFrisk.java:63-76 | the entries loaded before an exception are the decoded leading rows, each the decoding of its row, stopping exactly at the first row that does not decode |
| Records.DecodePrefixStep | Code/StopAndFrisk.java:63-76 | a bad row ends the loaded entries; a good one is followed by the entries of the rows after it |
| Records.DecodePrefixAdvance | Code/StopAndFrisk.java:63-76 | one loop step over row k: the loaded entries either stop there or gain row k's entry |
| Records.DataRows | Code/StopAndFrisk.java:60 | the data rows are the input without its header line, in order |
| Aggregates.Lookup | Code/StopAndFrisk.java:136-148 | a year that no group has gives no records |
| Aggregates.LookupFirst | Code/StopAndFrisk.java:136-148 | a scan that stops at the first group of the year reads that group's records |
| Aggregates.LookupUnique | Code/StopAndFrisk.java:177-196 | with one group per year, any group of the year is the one the first-match scan finds |
| Aggregates.LookupSnoc | Code/StopAndFrisk.java:85-89 | adding a group at the end changes the records seen for its year only when the year had no group before |
| Aggregates.AppendWhere | Code/StopAndFrisk.java:79-84 | appending to every group of a year keeps the number of groups and each group's year |
| Aggregates.LookupAppendWhere | Code/StopAndFrisk.java:79-84 | after the append loop, a present year's records end with the new record; other years are untouched |
| Aggregates.TotalAppendWhere | Code/StopAndFrisk.java:79-84 | the append loop adds one record per group of the year |
| Aggregates.GroupsOfUnique | Code/StopAndFrisk.java:78-89 | with unique years, a year has one group if present and none otherwise |
| Aggregates.LoadStep | Code/StopAndFrisk.java:78-89 | loading one row keeps at most one group per year, makes the year present, appends the record to that year's records, leaves other years unchanged, and adds exactly one record in total |
| Aggregates.Load | Code/StopAndFrisk.java:78-89 | one find-or-create step keeps the number of groups or adds one |
| Aggregates.LoadKeeps | Code/StopAndFrisk.java:78-89 | one find-or-create step leaves every old group in its place with its year, appends the record to the groups of its year and to no other, and adds a group holding just the record at the end exactly when the year was absent |
| Aggregates.LoadAllLength | Code/StopAndFrisk.java:63-91 | loading rows adds at most one group per row, and every old group stays in its place with its year while its records only grow at the end |
| Aggregates.LoadAllSnoc | Code/StopAndFrisk.java:63-91 | loading one more row is one more find-or-create step |
| Aggregates.LoadAllSpec | Code/StopAndFrisk.java:63-91 | loading rows keeps years unique, adds one record per row, and each year's records are followed by that year's rows in input order |
| Aggregates.LoadAllCounts | Code/StopAndFrisk.java:63-91 | loading rows into a store with one group per year keeps one group per year and adds one record per row |
| Aggregates.LoadAllLookup | Code/StopAndFrisk.java:63-91 | loading rows into a store with one group per year appends each year's rows, in input order, to that year's records |
| Aggregates.FilterRace | Code/StopAndFrisk.java:111-115 | the filtered records are no more than the input |
| Aggregates.FilterRaceMembers | Code/StopAndFrisk.java:111-115 | a record is in the result exactly when it is an input record of the requested race |
| Aggregates.FilterRaceAppend | Code/StopAndFrisk.java:109-118 | the filter keeps order: the filter of a concatenation is the concatenation of the filters |
| Aggregates.StoppedAcross | Code/StopAndFrisk.java:109-118 | a year that no group has gives no stopped records |
| Aggregates.StoppedAcrossStep | Code/StopAndFrisk.java:109-118 | each group visited adds its filtered records when it has the year, and nothing otherwise |
| Aggregates.StoppedAcrossUnique | Code/StopAndFrisk.java:105-120 | with one group per year, the scan over every group returns the year's records of that race, in insertion order |
| Aggregates.CountFrisked | Code/StopAndFrisk.java:139-142 | the frisked count is at most the number of records |
| Aggregates.CountArrested | Code/StopAndFrisk.java:143-145 | the arrested count is at most the number of records |
| Aggregates.Percent | Code/StopAndFrisk.java:151-154 | a percentage is never negative, and is 0 when the total is 0 (the division is skipped) |
| Aggregates.PercentRange | Code/StopAndFrisk.java:151-154 | a count that is part of its total gives a percentage in [0, 100] with percentage * total == 100 * count |
| Aggregates.FriskedVsArrestedOf | Code/StopAndFrisk.java:150-155 | two values, and [0, 0] for no records |
| Aggregates.FriskedVsArrestedMeaning | Code/StopAndFrisk.java:133-155 | the two values are the percent frisked and the percent arrested of the year's records, each in [0, 100]; the counts are independent |
| Aggregates.TallyOf | Code/StopAndFrisk.java:171-193 | each race's F and M counts add up to at most that race's total, and the two totals to at most the number of records |
| Aggregates.CountOne | Code/StopAndFrisk.java:179-192 | a record of a race other than "B" and "W" changes no counter, and one record adds at most one to the two race totals |
| Aggregates.CountRG | Code/StopAndFrisk.java:179-192 | the records of one race and gender are no more than the records |
| Aggregates.TallyGenderCounts | Code/StopAndFrisk.java:179-192 | the four gender counters are the numbers of records of race "B"/"W" and gender "F"/"M" |
| Aggregates.TallyTotalsArePopulations | Code/StopAndFrisk.java:180-189 | the B and W totals are the numbers of records of race "B" and "W" |
| Aggregates.GenderTable | Code/StopAndFrisk.java:197-209 | a 2x3 table whose column 2 is column 0 plus column 1 in each row, with a race's column all zero when its total is 0 |
| Aggregates.HalfShare | Code/StopAndFrisk.java:198-204 | a half-weighted share is never negative, and is 0 when the race total is 0 (the division is skipped) |
| Aggregates.HalfShareScales | Code/StopAndFrisk.java:198-204 | a half-weighted share times the race total is 50 times the count |
| Aggregates.HalfShareSum | Code/StopAndFrisk.java:198-204 | two half-weighted shares of disjoint counts are non-negative and add up to at most 50 |
| Aggregates.ColumnMeaning | Code/StopAndFrisk.java:198-204 | in one race column, each cell times the race total is 50 times its gender count, and the two cells add up to at most 50 |
| Aggregates.GenderBiasCells | Code/StopAndFrisk.java:179-209 | each of the four race/gender cells times the number of records of that race is 50 times the number of records of that race and gender |
| Aggregates.GenderTableMeaning | Code/StopAndFrisk.java:197-209 | every race cell is count / total * 0.5 * 100 (cell * total == 50 * count), non-negative, and F + M in a race column is at most 50 |
| Aggregates.IndexOf | Code/StopAndFrisk.java:239 | String.indexOf from 0: -1 exactly when the substring occurs nowhere, otherwise its first occurrence |
| Aggregates.IndexOfFrom | Code/StopAndFrisk.java:239 | String.indexOf: -1 exactly when the substring occurs nowhere at or after the start, otherwise the first such occurrence |
| Aggregates.CountMatching | Code/StopAndFrisk.java:238-242 | the number of matching descriptions is at most the number of records |
| Aggregates.CrimeTally | Code/StopAndFrisk.java:234-253 | a year that no group has gives a count and a total of 0 |
| Aggregates.CrimePercentAcross | Code/StopAndFrisk.java:255-265 | a year that no group has gives 0 percent |
| Aggregates.CrimeIncreaseAcross | Code/StopAndFrisk.java:234-270 | the same year twice gives 0, and so do two years that no group has |
| Aggregates.CrimeTallyStep | Code/StopAndFrisk.java:234-253 | each group of the year adds its matching count and replaces the total with its size |
| Aggregates.CrimePercent | Code/StopAndFrisk.java:255-265 | 0 for a year with no records |
| Aggregates.CrimePercentRange | Code/StopAndFrisk.java:258-265 | the percentage is in [0, 100] and times the total gives 100 times the matching count |
| Aggregates.CrimeTallyUnique | Code/StopAndFrisk.java:234-253 | with one group per year, the scan's count and total are the year's matching count and record count |
| Aggregates.CrimeIncreaseMeaning | Code/StopAndFrisk.java:226-273 | with unique years, the result is percent(year2) - percent(year1), lies in [-100, 100], swapping the years negates it, and equal years give 0 |
| Aggregates.CrimeIncreaseNoMatch | Code/StopAndFrisk.java:226-273 | no matching description in either year gives 0 |
| Aggregates.NoMatchCount | Code/StopAndFrisk.java:238-242 | records without a match count 0 |
| Aggregates.BoroughIndexFrom | Code/StopAndFrisk.java:292-297 | the first borough at or after the start that the location equals ignoring case, or none when it equals none |
| Aggregates.BoroughIndexExact | Code/StopAndFrisk.java:292-297 | a location equal to a borough ignoring case is counted for that borough; the break never hides a later match, since the names have distinct lengths |
| Aggregates.EqualsIgnoreCase | Code/StopAndFrisk.java:293 | equal strings match, and matching strings have the same length |
| Aggregates.BoroughIndexNames | Code/StopAndFrisk.java:293 | a location is counted for borough i exactly when it equals borough i ignoring case |
| Aggregates.CountNamed | Code/StopAndFrisk.java:291-298 | the records located in a borough are no more than the records |
| Aggregates.BoroughCounts | Code/StopAndFrisk.java:287-298 | five counts |
| Aggregates.BoroughCountsNamed | Code/StopAndFrisk.java:287-298 | count i is the number of records whose location equals borough i ignoring case |
| Aggregates.Located | Code/StopAndFrisk.java:291-298 | the records that name a borough are no more than the records |
| Aggregates.BoroughCountsTotal | Code/StopAndFrisk.java:291-298 | each record is counted in at most one borough: the counts add up to the records that name a borough |
| Aggregates.ArgMax | Code/StopAndFrisk.java:302-307 | the scan ends on a largest count, and on the earliest of equal largest counts |
| Aggregates.MostCommonOf | Code/StopAndFrisk.java:302-309 | the result is one of the five boroughs |
| Aggregates.MostCommonMeaning | Code/StopAndFrisk.java:287-309 | the result is a borough with the most records located in it, earliest in the fixed order among ties |
| Aggregates.MostCommonDefault | Code/StopAndFrisk.java:302-309 | when no record names a borough the result is "Brooklyn" |
| Aggregates.AbsentYear | Code/StopAndFrisk.java:105-310 | for a year with no group: no stopped records, [0, 0], an all-zero gender table, a crime count and total of 0 and so 0 percent, and "Brooklyn" |
| Scenario.ThreeRowLoad | Code/StopAndFrisk.java:78-89 | three rows over two years load into one group per year, in input order, with 3 records in total |
| Scenario.ScenarioFriskedVsArrested | Code/StopAndFrisk.java:130-157 | the example years give [50, 50] and [100, 100] |
| Scenario.ScenarioGenderBias | Code/StopAndFrisk.java:168-212 | the example year gives [[50, 0, 50], [0, 50, 50]] |
| Scenario.ScenarioPopulationStopped | Code/StopAndFrisk.java:105-120 | the example year's Black records are the one Black record |
| Scenario.ScenarioCrimeIncrease | Code/StopAndFrisk.java:226-273 | "ROB" goes from 50% to 100%, an increase of 50 |
| Scenario.ScenarioMostCommonBorough2010 | Code/StopAndFrisk.java:284-310 | a one-one tie between Brooklyn and Manhattan goes to Brooklyn, with the location matched ignoring case |
| Scenario.ScenarioMostCommonBorough2011 | Code/StopAndFrisk.java:284-310 | a lower-case "bronx" is counted for the Bronx |
| Store.SFYear.constructor | Code/StopAndFrisk.java:86 | a new year group has its year and no records |
| Store.SFYear.AddRecord | Code/StopAndFrisk.java:81 | adding a record appends it to the group's records |
| Store.StopAndFrisk.ValidMeaning | Code/StopAndFrisk.java:78-89 | the store invariant holds exactly when the snapshot has one group per year, and under it no group object is listed twice |
| Store.StopAndFrisk.View | Code/StopAndFrisk.java:18 | the snapshot has one group per SFYear, in list order, with unique years when the store is valid |
| Store.StopAndFrisk.constructor | Code/StopAndFrisk.java:25-27 | a new store is empty and valid |
| Store.StopAndFrisk.AppendToYear | Code/StopAndFrisk.java:78-84 | the loop appends the record to every group of its year, and found is true exactly when there was one |
| Store.StopAndFrisk.Insert | Code/StopAndFrisk.java:78-89 | the find-or-create step is Load on the snapshot, keeps one group per year, and keeps old groups or adds only fresh ones |
| Store.StopAndFrisk.ReadFile | Code/StopAndFrisk.java:56-93 | the store becomes LoadAll of the decoded leading rows after the header, stays valid, and ok is true exactly when every row decoded |
| Store.StopAndFrisk.PopulationStopped | Code/StopAndFrisk.java:105-120 | the result is the scan over every group of the year, and with a valid store the year's records of that race in order |
| Store.StopAndFrisk.FriskedVsArrested | Code/StopAndFrisk.java:130-157 | the result is FriskedVsArrestedOf the first group of the year |
| Store.StopAndFrisk.GenderBias | Code/StopAndFrisk.java:168-212 | the result is GenderTable of the counters of the first group of the year |
| Store.StopAndFrisk.CrimeIncrease | Code/StopAndFrisk.java:226-273 | the result is the scan over every group, and with a valid store percent(year2) - percent(year1) |
| Store.StopAndFrisk.MostCommonBorough | Code/StopAndFrisk.java:284-310 | the result is MostCommonOf the first group of the year |
| Store.SelectRace | Code/StopAndFrisk.java:111-115 | the loop collects exactly FilterRace of the records |
| Store.CountFlags | Code/StopAndFrisk.java:139-146 | the two counters end as the frisked and arrested counts |
| Store.CountRaceGender | Code/StopAndFrisk.java:179-193 | the six counters end as TallyOf the records |
| Store.FillTable | Code/StopAndFrisk.java:197-211 | the filled results array is GenderTable of the counters |
| Store.CountDescription | Code/StopAndFrisk.java:238-242 | the counter ends as the number of descriptions containing the substring |
| Store.CountBoroughs | Code/StopAndFrisk.java:291-298 | starting from zero counts, the loop leaves BoroughCounts of the records in the array |
| Store.MatchBorough | Code/StopAndFrisk.java:292-297 | the index of the first borough the location equals ignoring case, or -1 exactly when it equals none |
| Store.MaxIndex | Code/StopAndFrisk.java:302-307 | the scan ends on ArgMax of the counts |

## Left out

- File input through `StdIn.setFile`, `readLine` and `isEmpty`. The loader
  takes the file as a sequence of rows already split into fields, header
  first. `String.split(",")` is not modelled: it drops trailing empty
  fields and ignores quoting, and neither quirk is captured.
  Blank trailing lines, which `StdIn.isEmpty` skips, are not modelled either.
- The exception on a short row or a non-numeric year. It becomes
  `ReadFile`'s `ok == false` result. No exception object is modelled.
- Records.ParseInt: accepts only ASCII digits, while `Integer.parseInt`
  also accepts other Unicode decimal digits.
- Aggregates.EqualsIgnoreCase: folds only ASCII letters, while
  `equalsIgnoreCase` also folds other Unicode letters. The five borough
  names are ASCII.
- Percentages are exact `real`s, not IEEE-754 doubles, so rounding is not
  modelled. `crimeIncrease`'s `double` counters are modelled as natural
  numbers, which they equal while below 2^53.
- Store.CountFlags, Store.CountRaceGender, Store.CountBoroughs: the Java
  `int` counters would wrap past 2^31 - 1 records. The model's counters
  are unbounded.
- The debug `System.out.println` calls in `crimeIncrease`.
- `getDatabase`, which hands out the live list. Aliasing through it is not
  modelled.
- Inner loops become helper methods: `SelectRace`, `CountFlags`,
  `CountRaceGender`, `CountDescription`, `CountBoroughs`, `MatchBorough`,
  `MaxIndex`, and `AppendToYear` for the loader's `for` loop. In the code
  they are written inline in their callers, in the same order.
- Code/SFYear.java and Code/SFRecord.java are not part of this model.
  `SFYear` is modelled from its use: a constant year and a record list
  that `addRecord` appends to. `SFRecord` is modelled as an immutable
  datatype.
