/**
 * A worked example: two rows of 2010 (a Black female frisked but not
 * arrested, a White male arrested but not frisked) and one row of 2011 (a
 * Black male, frisked and arrested), loaded into an empty store, and what
 * the queries answer about it.
 */
module Scenario {
  import opened Records
  import opened Aggregates

  const BlackFemale := SFRecord("ROBBERY", false, true, "F", "B", "BROOKLYN")
  const WhiteMale := SFRecord("ASSAULT", true, false, "M", "W", "Manhattan")
  const BlackMale := SFRecord("ROBBERY", true, true, "M", "B", "bronx")

  const Rows := [Entry(2010, BlackFemale), Entry(2010, WhiteMale), Entry(2011, BlackMale)]

  /** The records of 2010 as the store holds them after loading Rows. */
  const Year2010 := [BlackFemale, WhiteMale]

  /** The records of 2011 as the store holds them after loading Rows. */
  const Year2011 := [BlackMale]

  /** The rows of each year, in file order. */
  lemma RowsByYear()
    ensures RecordsOfYear(Rows, 2010) == Year2010
    ensures RecordsOfYear(Rows, 2011) == Year2011
    ensures RecordsOfYear(Rows, 2012) == []
  {
    assert Rows[..|Rows| - 1] == Rows[..2];
    assert Rows[..2][..1] == Rows[..1];
    assert Rows[..1][..0] == [];
    assert RecordsOfYear(Rows[..1], 2010) == [BlackFemale];
    assert RecordsOfYear(Rows[..2], 2010) == Year2010;
    assert RecordsOfYear(Rows[..1], 2011) == [];
    assert RecordsOfYear(Rows[..2], 2011) == [];
    assert RecordsOfYear(Rows[..1], 2012) == [];
    assert RecordsOfYear(Rows[..2], 2012) == [];
  }

  /** Loading the three rows gives one group per year, in input order. */
  lemma ThreeRowLoad()
    ensures UniqueYears(LoadAll([], Rows))
    ensures TotalRecords(LoadAll([], Rows)) == 3
    ensures Lookup(LoadAll([], Rows), 2010) == Year2010
    ensures Lookup(LoadAll([], Rows), 2011) == Year2011
    ensures Lookup(LoadAll([], Rows), 2012) == []
  {
    LoadAllSpec([], Rows, 2010);
    LoadAllSpec([], Rows, 2011);
    LoadAllSpec([], Rows, 2012);
    RowsByYear();
  }

  lemma ScenarioFriskedVsArrested()
    ensures FriskedVsArrestedOf(Year2010) == [50.0, 50.0]
    ensures FriskedVsArrestedOf(Year2011) == [100.0, 100.0]
  {
    assert Year2010[..1] == [BlackFemale];
    assert [BlackFemale][..0] == [];
    assert Year2011[..0] == [];
    assert CountFrisked(Year2010) == 1;
    assert CountArrested(Year2010) == 1;
    assert Percent(1, 2) == 50.0;
    assert CountFrisked(Year2011) == 1;
    assert CountArrested(Year2011) == 1;
    assert Percent(1, 1) == 100.0;
  }

  lemma ScenarioGenderBias()
    ensures GenderTable(TallyOf(Year2010)) == [[50.0, 0.0, 50.0], [0.0, 50.0, 50.0]]
  {
    assert Year2010[..1] == [BlackFemale];
    assert [BlackFemale][..0] == [];
  }

  lemma ScenarioPopulationStopped()
    ensures FilterRace(Year2010, Black) == [BlackFemale]
  {
    assert Year2010[..1] == [BlackFemale];
    assert [BlackFemale][..0] == [];
  }

  lemma ScenarioCrimeIncrease()
    ensures CrimePercent(Year2010, "ROB") == 50.0
    ensures CrimePercent(Year2011, "ROB") == 100.0
    ensures CrimePercent(Year2011, "ROB") - CrimePercent(Year2010, "ROB") == 50.0
  {
    assert "ROBBERY"[0..3] == "ROB";
    assert IndexOf("ROBBERY", "ROB") == 0;
    assert "ASSAULT"[0..3] == "ASS";
    assert "ASSAULT"[1..4] == "SSA";
    assert "ASSAULT"[2..5] == "SAU";
    assert "ASSAULT"[3..6] == "AUL";
    assert "ASSAULT"[4..7] == "ULT";
    assert IndexOfFrom("ASSAULT", "ROB", 5) == -1;
    assert IndexOfFrom("ASSAULT", "ROB", 4) == -1;
    assert IndexOfFrom("ASSAULT", "ROB", 3) == -1;
    assert IndexOfFrom("ASSAULT", "ROB", 2) == -1;
    assert IndexOfFrom("ASSAULT", "ROB", 1) == -1;
    assert IndexOf("ASSAULT", "ROB") == -1;
    assert Year2010[..1] == [BlackFemale];
    assert [BlackFemale][..0] == [];
    assert Year2011[..0] == [];
    assert CountMatching([BlackFemale], "ROB") == 1;
    assert CountMatching(Year2010, "ROB") == 1;
    assert CountMatching(Year2011, "ROB") == 1;
    assert Percent(1, 2) == 50.0;
    assert Percent(1, 1) == 100.0;
  }

  lemma ScenarioMostCommonBorough2010()
    ensures MostCommonOf(Year2010) == "Brooklyn"
  {
    BoroughIndexExact("BROOKLYN", 0);
    BoroughIndexExact("Manhattan", 1);
    assert BoroughCounts([]) == [0, 0, 0, 0, 0];
    assert Year2010[..1] == [BlackFemale];
    assert [BlackFemale][..0] == [];
    assert BoroughCounts([BlackFemale]) == [1, 0, 0, 0, 0];
    var c := BoroughCounts(Year2010);
    assert c == [1, 1, 0, 0, 0];
    var k := ArgMax(c);
    assert c[0] <= c[k] <= 1;
    assert k == 0;
  }

  lemma ScenarioMostCommonBorough2011()
    ensures MostCommonOf(Year2011) == "Bronx"
  {
    BoroughIndexExact("bronx", 2);
    assert BoroughCounts([]) == [0, 0, 0, 0, 0];
    assert Year2011[..0] == [];
    var c := BoroughCounts(Year2011);
    assert c == [0, 0, 1, 0, 0];
    var k := ArgMax(c);
    assert c[2] <= c[k] <= 1;
    assert k == 2;
  }
}
