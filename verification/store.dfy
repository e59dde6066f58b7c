/**
 * The in-memory store of stop records, grouped by year: class SFYear (one
 * year's records, appended to in place) and class StopAndFrisk (the
 * database list, the loader and the five queries). Every method is proved
 * equal to a function of module Aggregates on the store's snapshot View().
 */
module Store {
  import opened Records
  import opened Aggregates

  /** All records of one year; AddRecord appends. */
  class SFYear {
    const currentYear: int
    var records: seq<SFRecord>

    constructor (year: int)
      ensures currentYear == year && records == []
    {
      currentYear := year;
      records := [];
    }

    method AddRecord(r: SFRecord)
      modifies this
      ensures records == old(records) + [r]
    {
      records := records + [r];
    }
  }

  class StopAndFrisk {
    /** The year groups, in the order their years were first seen. */
    var database: seq<SFYear>

    /** At most one group per year (which also makes the groups distinct objects). */
    ghost predicate Valid()
      reads this
    {
      forall i, j :: 0 <= i < j < |database| ==> database[i].currentYear != database[j].currentYear
    }

    /** The store's contents as a value. */
    ghost function View(): (v: seq<YearGroup>)
      reads this, database
      ensures |v| == |database|
      ensures forall i :: 0 <= i < |database| ==> v[i] == YearGroup(database[i].currentYear, database[i].records)
      ensures Valid() ==> UniqueYears(v)
    {
      seq(|database|, i reads this, database requires 0 <= i < |database| =>
        YearGroup(database[i].currentYear, database[i].records))
    }

    /**
     * Valid is exactly "one group per year" of the snapshot, and under it
     * no group object is listed twice, so appending to one group changes
     * no other.
     */
    lemma ValidMeaning()
      ensures Valid() <==> UniqueYears(View())
      ensures Valid() ==> forall i, j :: 0 <= i < j < |database| ==> database[i] != database[j]
    {
      var v := View();
      if UniqueYears(v) {
        forall i, j | 0 <= i < j < |database|
          ensures database[i].currentYear != database[j].currentYear
        {
          assert v[i].year != v[j].year;
        }
      }
    }

    constructor ()
      ensures Valid() && View() == []
    {
      database := [];
    }

    /**
     * The for loop of readFile's find-or-create step: appends the record to
     * every group of its year, and reports whether there was one.
     */
    method AppendToYear(e: Entry) returns (found: bool)
      requires Valid()
      modifies database
      ensures found <==> HasYear(old(View()), e.year)
      ensures View() == AppendWhere(old(View()), e.year, e.record)
    {
      found := false;
      var i := 0;
      while i < |database|
        invariant 0 <= i <= |database|
        invariant Valid()
        invariant found <==> exists j :: 0 <= j < i && database[j].currentYear == e.year
        invariant forall j :: 0 <= j < |database| ==>
          (database[j].records ==
            if j < i && database[j].currentYear == e.year then old(database[j].records) + [e.record]
            else old(database[j].records))
      {
        var group := database[i];
        if group.currentYear == e.year {
          group.AddRecord(e.record);
          found := true;
        }
        i := i + 1;
      }
      ghost var before := old(View());
      if found {
        var j :| 0 <= j < |database| && database[j].currentYear == e.year;
        assert before[j].year == e.year;
      } else {
        assert forall j :: 0 <= j < |before| ==> before[j].year != e.year;
      }
      assert View() == AppendWhere(before, e.year, e.record);
    }

    /**
     * The find-or-create step of readFile for one decoded row: the record
     * goes to every group of its year, or, when there is none, to a new
     * group appended to the database.
     */
    method Insert(e: Entry)
      requires Valid()
      modifies this, database
      ensures Valid()
      ensures View() == Load(old(View()), e)
      ensures forall i :: 0 <= i < |database| ==> database[i] in old(database) || fresh(database[i])
    {
      var found := AppendToYear(e);
      if !found {
        ghost var before := old(View());
        ghost var groups := database;
        assert View() == before by {
          assert forall j :: 0 <= j < |before| ==> before[j].year != e.year;
          assert AppendWhere(before, e.year, e.record) == before;
        }
        var group := new SFYear(e.year);
        group.AddRecord(e.record);
        database := database + [group];
        forall j | 0 <= j < |before|
          ensures View()[j] == before[j]
        {
          assert database[j] == groups[j] && groups[j] != group;
        }
        assert View()[|before|] == YearGroup(e.year, [e.record]);
        assert View() == before + [YearGroup(e.year, [e.record])];
      }
    }

    /**
     * readFile on an input already split into rows of fields, the first row
     * being the header. The rows are loaded in order; at the first row that
     * is too short or whose year is not an integer Java's readFile throws, so
     * here ok is false and the store keeps exactly the rows loaded before it.
     */
    method ReadFile(input: seq<seq<string>>) returns (ok: bool)
      requires Valid()
      modifies this, database
      ensures Valid()
      ensures View() == LoadAll(old(View()), DecodePrefix(DataRows(input)))
      ensures ok <==> |DecodePrefix(DataRows(input))| == |DataRows(input)|
    {
      var rows := DataRows(input);
      ghost var loaded: seq<Entry> := [];
      var k := 0;
      while k < |rows|
        invariant 0 <= k <= |rows|
        invariant Valid()
        invariant |loaded| == k
        invariant DecodePrefix(rows) == loaded + DecodePrefix(rows[k..])
        invariant View() == LoadAll(old(View()), loaded)
        invariant forall i :: 0 <= i < |database| ==> database[i] in old(database) || fresh(database[i])
      {
        var decoded := DecodeRow(rows[k]);
        DecodePrefixAdvance(rows, loaded, k);
        if decoded.None? {
          return false;
        }
        Insert(decoded.value);
        LoadAllSnoc(old(View()), loaded, decoded.value);
        loaded := loaded + [decoded.value];
        k := k + 1;
      }
      assert rows[k..] == [];
      assert DecodePrefix(rows) == loaded;
      ok := true;
    }

    /**
     * populationStopped: the records of the given year and race, in
     * insertion order. The loop visits every group of that year; with one
     * group per year that is the year's own records, filtered.
     */
    method PopulationStopped(year: int, race: string) returns (records: seq<SFRecord>)
      ensures records == StoppedAcross(View(), year, race)
      ensures Valid() ==> records == FilterRace(Lookup(View(), year), race)
    {
      ghost var view := View();
      records := [];
      var i := 0;
      while i < |database|
        invariant 0 <= i <= |database|
        invariant records == StoppedAcross(view[..i], year, race)
      {
        var group := database[i];
        StoppedAcrossStep(view, year, race, i);
        if group.currentYear == year {
          var matched := SelectRace(group.records, race);
          records := records + matched;
        }
        i := i + 1;
      }
      assert view[..i] == view;
      if Valid() {
        StoppedAcrossUnique(view, year, race);
      }
      assert View() == view;
    }

    /**
     * friskedVSArrested: percent frisked and percent arrested among the
     * records of the first group of the year; [0, 0] when there is none or
     * it is empty.
     */
    method FriskedVsArrested(year: int) returns (percentages: seq<real>)
      ensures percentages == FriskedVsArrestedOf(Lookup(View(), year))
    {
      ghost var view := View();
      ghost var recs: seq<SFRecord> := [];
      var friskedCount, arrestedCount, totalRecords := 0, 0, 0;
      var i := 0;
      while i < |database|
        invariant 0 <= i <= |database|
        invariant forall j :: 0 <= j < i ==> database[j].currentYear != year
        invariant friskedCount == 0 && arrestedCount == 0 && totalRecords == 0
      {
        if database[i].currentYear == year {
          totalRecords := |database[i].records|;
          friskedCount, arrestedCount := CountFlags(database[i].records);
          recs := database[i].records;
          LookupFirst(view, year, i);
          break;
        }
        i := i + 1;
      }
      assert recs == Lookup(view, year);
      assert friskedCount == CountFrisked(recs) && arrestedCount == CountArrested(recs) && totalRecords == |recs|;
      var results := new real[2](_ => 0.0);
      if totalRecords > 0 {
        results[0] := (friskedCount as real / totalRecords as real) * 100.0;
        results[1] := (arrestedCount as real / totalRecords as real) * 100.0;
      }
      assert results[0] == Percent(friskedCount, totalRecords);
      assert results[1] == Percent(arrestedCount, totalRecords);
      percentages := results[..];
      assert View() == view;
    }

    /**
     * genderBias: the 2x3 table of half-weighted shares (rows female, male;
     * columns Black, White, sum) over the first group of the year.
     */
    method GenderBias(year: int) returns (table: seq<seq<real>>)
      ensures table == GenderTable(TallyOf(Lookup(View(), year)))
    {
      ghost var view := View();
      var counters := TallyOf([]);
      var i := 0;
      while i < |database|
        invariant 0 <= i <= |database|
        invariant forall j :: 0 <= j < i ==> database[j].currentYear != year
        invariant counters == TallyOf([])
      {
        if database[i].currentYear == year {
          counters := CountRaceGender(database[i].records);
          LookupFirst(view, year, i);
          break;
        }
        i := i + 1;
      }
      table := FillTable(counters);
    }

    /**
     * crimeIncrease: percent of year2's records whose description contains
     * crimeDescription minus the same for year1. The scan visits every
     * group; the years are never reordered.
     */
    method CrimeIncrease(crimeDescription: string, year1: int, year2: int) returns (percent: real)
      ensures percent == CrimeIncreaseAcross(View(), crimeDescription, year1, year2)
      ensures Valid() ==> (percent ==
        CrimePercent(Lookup(View(), year2), crimeDescription) - CrimePercent(Lookup(View(), year1), crimeDescription))
    {
      ghost var view := View();
      var count1, count2, total1, total2 := 0, 0, 0, 0;
      var i := 0;
      while i < |database|
        invariant 0 <= i <= |database|
        invariant count1 == CrimeTally(view[..i], crimeDescription, year1).0
        invariant total1 == CrimeTally(view[..i], crimeDescription, year1).1
        invariant count2 == CrimeTally(view[..i], crimeDescription, year2).0
        invariant total2 == CrimeTally(view[..i], crimeDescription, year2).1
      {
        var group := database[i];
        CrimeTallyStep(view, crimeDescription, year1, i);
        CrimeTallyStep(view, crimeDescription, year2, i);
        if group.currentYear == year1 {
          total1 := |group.records|;
          var matching := CountDescription(group.records, crimeDescription);
          count1 := count1 + matching;
        }
        if group.currentYear == year2 {
          total2 := |group.records|;
          var matching := CountDescription(group.records, crimeDescription);
          count2 := count2 + matching;
        }
        i := i + 1;
      }
      assert view[..i] == view;
      var percent1, percent2 := 0.0, 0.0;
      if total1 > 0 {
        percent1 := (count1 as real / total1 as real) * 100.0;
      }
      if total2 > 0 {
        percent2 := (count2 as real / total2 as real) * 100.0;
      }
      percent := percent2 - percent1;
      if Valid() {
        CrimeIncreaseMeaning(view, crimeDescription, year1, year2);
      }
    }

    /**
     * mostCommonBorough: count the first group's records per borough (a
     * location counts for the first borough it equals ignoring case), then
     * scan for the largest count, keeping the earliest on ties.
     */
    method MostCommonBorough(year: int) returns (borough: string)
      ensures borough == MostCommonOf(Lookup(View(), year))
    {
      ghost var view := View();
      ghost var recs: seq<SFRecord> := [];
      var counts := new int[|Boroughs|](_ => 0);
      var i := 0;
      while i < |database|
        invariant 0 <= i <= |database|
        invariant forall j :: 0 <= j < i ==> database[j].currentYear != year
        invariant counts[..] == BoroughCounts([])
      {
        if database[i].currentYear == year {
          recs := database[i].records;
          LookupFirst(view, year, i);
          CountBoroughs(database[i].records, counts);
          assert View() == view;
          break;
        }
        i := i + 1;
      }
      assert recs == Lookup(view, year) && counts[..] == BoroughCounts(recs);
      var maxIndex := MaxIndex(counts);
      assert maxIndex == ArgMax(BoroughCounts(recs));
      borough := Boroughs[maxIndex];
      assert View() == view;
    }
  }

  /** The inner loop of populationStopped: the records of the given race, in order. */
  method SelectRace(records: seq<SFRecord>, race: string) returns (matched: seq<SFRecord>)
    ensures matched == FilterRace(records, race)
  {
    matched := [];
    var k := 0;
    while k < |records|
      invariant 0 <= k <= |records|
      invariant matched == FilterRace(records[..k], race)
    {
      assert records[..k + 1][..k] == records[..k];
      if records[k].race == race {
        matched := matched + [records[k]];
      }
      k := k + 1;
    }
    assert records[..k] == records;
  }

  /** The inner loop of mostCommonBorough: tallies each record's borough into zeroed counters. */
  method CountBoroughs(records: seq<SFRecord>, counts: array<int>)
    requires counts[..] == BoroughCounts([])
    modifies counts
    ensures counts[..] == BoroughCounts(records)
  {
    var k := 0;
    while k < |records|
      invariant 0 <= k <= |records|
      invariant counts[..] == BoroughCounts(records[..k])
    {
      assert records[..k + 1][..k] == records[..k];
      var b := MatchBorough(records[k].location);
      if b >= 0 {
        counts[b] := counts[b] + 1;
      }
      k := k + 1;
    }
    assert records[..k] == records;
  }

  /** The inner loop of friskedVSArrested over one group's records. */
  method CountFlags(records: seq<SFRecord>) returns (friskedCount: nat, arrestedCount: nat)
    ensures friskedCount == CountFrisked(records)
    ensures arrestedCount == CountArrested(records)
  {
    friskedCount, arrestedCount := 0, 0;
    var k := 0;
    while k < |records|
      invariant 0 <= k <= |records|
      invariant friskedCount == CountFrisked(records[..k])
      invariant arrestedCount == CountArrested(records[..k])
    {
      assert records[..k + 1][..k] == records[..k];
      if records[k].frisked {
        friskedCount := friskedCount + 1;
      }
      if records[k].arrested {
        arrestedCount := arrestedCount + 1;
      }
      k := k + 1;
    }
    assert records[..k] == records;
  }

  /** The inner loop of genderBias: its six counters over one group's records. */
  method CountRaceGender(records: seq<SFRecord>) returns (counters: Tally)
    ensures counters == TallyOf(records)
  {
    var blackFemales, blackMales, whiteFemales, whiteMales := 0, 0, 0, 0;
    var totalBlacks, totalWhites := 0, 0;
    var k := 0;
    while k < |records|
      invariant 0 <= k <= |records|
      invariant Tally(blackFemales, blackMales, whiteFemales, whiteMales, totalBlacks, totalWhites) == TallyOf(records[..k])
    {
      assert records[..k + 1][..k] == records[..k];
      var record := records[k];
      if record.race == Black {
        totalBlacks := totalBlacks + 1;
        if record.gender == Female {
          blackFemales := blackFemales + 1;
        } else if record.gender == Male {
          blackMales := blackMales + 1;
        }
      } else if record.race == White {
        totalWhites := totalWhites + 1;
        if record.gender == Female {
          whiteFemales := whiteFemales + 1;
        } else if record.gender == Male {
          whiteMales := whiteMales + 1;
        }
      }
      k := k + 1;
    }
    assert records[..k] == records;
    counters := Tally(blackFemales, blackMales, whiteFemales, whiteMales, totalBlacks, totalWhites);
  }

  /** The end of genderBias: the 2x3 results array filled from the counters. */
  method FillTable(counters: Tally) returns (table: seq<seq<real>>)
    ensures table == GenderTable(counters)
  {
    var results := new real[2, 3]((_, _) => 0.0);
    if counters.totalBlacks > 0 {
      results[0, 0] := (counters.blackFemales as real / counters.totalBlacks as real) * 0.5 * 100.0;
      results[1, 0] := (counters.blackMales as real / counters.totalBlacks as real) * 0.5 * 100.0;
    }
    if counters.totalWhites > 0 {
      results[0, 1] := (counters.whiteFemales as real / counters.totalWhites as real) * 0.5 * 100.0;
      results[1, 1] := (counters.whiteMales as real / counters.totalWhites as real) * 0.5 * 100.0;
    }
    if counters.totalBlacks + counters.totalWhites > 0 {
      results[0, 2] := results[0, 0] + results[0, 1];
      results[1, 2] := results[1, 0] + results[1, 1];
    }
    table := [[results[0, 0], results[0, 1], results[0, 2]],
              [results[1, 0], results[1, 1], results[1, 2]]];
    ghost var expected := GenderTable(counters);
    assert table[0] == expected[0] && table[1] == expected[1];
  }

  /** One of crimeIncrease's inner loops: the records whose description contains crimeDescription. */
  method CountDescription(records: seq<SFRecord>, crimeDescription: string) returns (count: nat)
    ensures count == CountMatching(records, crimeDescription)
  {
    count := 0;
    var k := 0;
    while k < |records|
      invariant 0 <= k <= |records|
      invariant count == CountMatching(records[..k], crimeDescription)
    {
      assert records[..k + 1][..k] == records[..k];
      if IndexOf(records[k].description, crimeDescription) != -1 {
        count := count + 1;
      }
      k := k + 1;
    }
    assert records[..k] == records;
  }

  /**
   * The innermost loop of mostCommonBorough: the index of the first borough
   * the location equals ignoring case, or -1 when it names none.
   */
  method MatchBorough(location: string) returns (index: int)
    ensures -1 <= index < |Boroughs|
    ensures index == -1 <==> BoroughIndex(location).None?
    ensures index >= 0 ==> BoroughIndex(location) == Some(index)
  {
    index := -1;
    var b := 0;
    while b < |Boroughs|
      invariant 0 <= b <= |Boroughs|
      invariant forall j :: 0 <= j < b ==> !EqualsIgnoreCase(location, Boroughs[j])
    {
      if EqualsIgnoreCase(location, Boroughs[b]) {
        index := b;
        return;
      }
      b := b + 1;
    }
  }

  /**
   * The final scan of mostCommonBorough: starting from index 0, move to a
   * later index only on a strictly greater count.
   */
  method MaxIndex(counts: array<int>) returns (maxIndex: nat)
    requires counts.Length > 0
    ensures maxIndex == ArgMax(counts[..])
  {
    maxIndex := 0;
    var i := 1;
    while i < counts.Length
      invariant 1 <= i <= counts.Length
      invariant maxIndex == ArgMax(counts[..i])
    {
      assert counts[..i + 1][..i] == counts[..i];
      if counts[i] > counts[maxIndex] {
        maxIndex := i;
      }
      i := i + 1;
    }
    assert counts[..i] == counts[..];
  }
}
