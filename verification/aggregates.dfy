/**
 * The store as a value: an insertion-ordered sequence of year groups, the
 * loader's find-or-create step on it, and the five queries as functions of
 * it. The methods of class StopAndFrisk are proved equal to these functions;
 * the lemmas here say what the functions mean.
 *
 * Three queries read only the first group of the requested year (Lookup);
 * populationStopped, crimeIncrease and the loader's append visit every
 * group of that year. The ...Across functions follow those scans as written,
 * and the lemmas show that they agree with Lookup once the store holds at
 * most one group per year (UniqueYears), which the loader maintains.
 */
module Aggregates {
  import opened Records

  /** One year's records, in insertion order (a snapshot of an SFYear). */
  datatype YearGroup = YearGroup(year: int, records: seq<SFRecord>)

  /** At most one group per year: the store's invariant. */
  ghost predicate UniqueYears(s: seq<YearGroup>) {
    forall i, j :: 0 <= i < j < |s| ==> s[i].year != s[j].year
  }

  ghost predicate HasYear(s: seq<YearGroup>, y: int) {
    exists i :: 0 <= i < |s| && s[i].year == y
  }

  // ---------------------------------------------------------------------
  // Lookup: the records of the first group of a year

  /** The records of the first group keyed by y; [] when there is none. */
  function Lookup(s: seq<YearGroup>, y: int): (r: seq<SFRecord>)
    ensures (forall i :: 0 <= i < |s| ==> s[i].year != y) ==> r == []
  {
    if s == [] then []
    else if s[0].year == y then s[0].records
    else Lookup(s[1..], y)
  }

  lemma {:induction false} LookupFirst(s: seq<YearGroup>, y: int, i: nat)
    requires i < |s| && s[i].year == y
    requires forall j :: 0 <= j < i ==> s[j].year != y
    ensures Lookup(s, y) == s[i].records
  {
    if i > 0 {
      LookupFirst(s[1..], y, i - 1);
    }
  }

  /** With unique years, the group at any index of year y is the one Lookup finds. */
  lemma LookupUnique(s: seq<YearGroup>, y: int, i: nat)
    requires UniqueYears(s)
    requires i < |s| && s[i].year == y
    ensures Lookup(s, y) == s[i].records
  {
    LookupFirst(s, y, i);
  }

  /** Lookup on a store extended by one group at the end. */
  lemma {:induction false} LookupSnoc(p: seq<YearGroup>, g: YearGroup, y: int)
    ensures Lookup(p + [g], y) ==
      if HasYear(p, y) || g.year != y then Lookup(p, y) else g.records
  {
    if !HasYear(p, y) {
      assert forall j :: 0 <= j < |p| ==> p[j].year != y;
    }
    if p == [] {
      assert !HasYear(p, y);
    } else {
      assert (p + [g])[1..] == p[1..] + [g];
      if p[0].year == y {
        assert HasYear(p, y);
      } else {
        LookupSnoc(p[1..], g, y);
        if HasYear(p, y) {
          var i :| 0 <= i < |p| && p[i].year == y;
          assert p[1..][i - 1].year == y;
        }
        if HasYear(p[1..], y) {
          var i :| 0 <= i < |p[1..]| && p[1..][i].year == y;
          assert p[i + 1].year == y;
        }
      }
    }
  }

  // ---------------------------------------------------------------------
  // The loader

  /** Every group of year y with rec appended; the other groups as they were. */
  function AppendWhere(s: seq<YearGroup>, y: int, rec: SFRecord): (r: seq<YearGroup>)
    ensures |r| == |s|
    ensures forall i :: 0 <= i < |s| ==> r[i].year == s[i].year
  {
    seq(|s|, i requires 0 <= i < |s| =>
      if s[i].year == y then YearGroup(y, s[i].records + [rec]) else s[i])
  }

  /**
   * The loader's step for one decoded row: if some group has the row's year,
   * append the record to every such group; otherwise add a new group holding
   * just that record at the end.
   */
  ghost function Load(s: seq<YearGroup>, e: Entry): (r: seq<YearGroup>)
    ensures |s| <= |r| <= |s| + 1
  {
    if HasYear(s, e.year) then AppendWhere(s, e.year, e.record)
    else s + [YearGroup(e.year, [e.record])]
  }

  /** The loader's loop: Load applied to each entry in order. */
  ghost function LoadAll(s: seq<YearGroup>, es: seq<Entry>): (r: seq<YearGroup>)
  {
    if es == [] then s else Load(LoadAll(s, es[..|es| - 1]), es[|es| - 1])
  }

  /**
   * One find-or-create step leaves every group where it was, with its year,
   * and appends the record to the groups of its year; a new group, holding
   * just the record, is added at the end exactly when the year was absent.
   */
  lemma LoadKeeps(s: seq<YearGroup>, e: Entry)
    ensures forall i :: 0 <= i < |s| ==> Load(s, e)[i].year == s[i].year
    ensures forall i :: 0 <= i < |s| ==>
      Load(s, e)[i].records == if s[i].year == e.year then s[i].records + [e.record] else s[i].records
    ensures |Load(s, e)| == |s| + 1 <==> !HasYear(s, e.year)
    ensures |Load(s, e)| == |s| + 1 ==> Load(s, e)[|s|] == YearGroup(e.year, [e.record])
  {
  }

  /**
   * Loading rows adds at most one group per row, leaves every old group
   * where it was with its year, and only ever appends to its records.
   */
  lemma {:induction false} LoadAllLength(s: seq<YearGroup>, es: seq<Entry>)
    ensures |s| <= |LoadAll(s, es)| <= |s| + |es|
    ensures forall i :: 0 <= i < |s| ==>
      LoadAll(s, es)[i].year == s[i].year && s[i].records <= LoadAll(s, es)[i].records
  {
    if es != [] {
      var p := es[..|es| - 1];
      LoadAllLength(s, p);
      LoadKeeps(LoadAll(s, p), es[|es| - 1]);
    }
  }

  /** LoadAll takes one more entry by one more Load. */
  lemma LoadAllSnoc(s: seq<YearGroup>, es: seq<Entry>, e: Entry)
    ensures LoadAll(s, es + [e]) == Load(LoadAll(s, es), e)
  {
    assert (es + [e])[..|es|] == es;
  }

  /** Total number of records in the store. */
  function TotalRecords(s: seq<YearGroup>): nat {
    if s == [] then 0 else TotalRecords(s[..|s| - 1]) + |s[|s| - 1].records|
  }

  /** Number of groups keyed by y. */
  function GroupsOf(s: seq<YearGroup>, y: int): nat {
    if s == [] then 0
    else GroupsOf(s[..|s| - 1], y) + (if s[|s| - 1].year == y then 1 else 0)
  }

  /** The records of the entries of year y, in input order. */
  function RecordsOfYear(es: seq<Entry>, y: int): seq<SFRecord> {
    if es == [] then []
    else RecordsOfYear(es[..|es| - 1], y) + (if es[|es| - 1].year == y then [es[|es| - 1].record] else [])
  }

  lemma {:induction false} LookupAppendWhere(s: seq<YearGroup>, x: int, rec: SFRecord, y: int)
    ensures Lookup(AppendWhere(s, x, rec), y) ==
      if y == x && HasYear(s, x) then Lookup(s, y) + [rec] else Lookup(s, y)
  {
    if s != [] {
      assert AppendWhere(s, x, rec)[1..] == AppendWhere(s[1..], x, rec);
      LookupAppendWhere(s[1..], x, rec, y);
      if HasYear(s, x) && s[0].year != x {
        var i :| 0 <= i < |s| && s[i].year == x;
        assert s[1..][i - 1].year == x;
      }
      if HasYear(s[1..], x) {
        var i :| 0 <= i < |s[1..]| && s[1..][i].year == x;
        assert s[i + 1].year == x;
      }
    }
  }

  /** Appending to every group of year y adds one record per such group. */
  lemma {:induction false} TotalAppendWhere(s: seq<YearGroup>, y: int, rec: SFRecord)
    ensures TotalRecords(AppendWhere(s, y, rec)) == TotalRecords(s) + GroupsOf(s, y)
  {
    if s != [] {
      var n := |s|;
      assert AppendWhere(s, y, rec)[..n - 1] == AppendWhere(s[..n - 1], y, rec);
      TotalAppendWhere(s[..n - 1], y, rec);
    }
  }

  /** With unique years, a year has exactly one group if present and none otherwise. */
  lemma {:induction false} GroupsOfUnique(s: seq<YearGroup>, y: int)
    requires UniqueYears(s)
    ensures GroupsOf(s, y) == if HasYear(s, y) then 1 else 0
  {
    if s != [] {
      var n := |s|;
      var p := s[..n - 1];
      GroupsOfUnique(p, y);
      if HasYear(p, y) {
        var i :| 0 <= i < |p| && p[i].year == y;
        assert s[i].year == y;
        assert HasYear(s, y);
      }
      if HasYear(s, y) && s[n - 1].year != y {
        var i :| 0 <= i < |s| && s[i].year == y;
        assert p[i].year == y;
      }
    }
  }

  /**
   * One loaded row: the store keeps at most one group per year, the row's
   * record is appended to its year's records, every other year is untouched,
   * and the store holds exactly one record more.
   */
  lemma LoadStep(s: seq<YearGroup>, e: Entry, y: int)
    requires UniqueYears(s)
    ensures UniqueYears(Load(s, e))
    ensures HasYear(Load(s, e), e.year)
    ensures Lookup(Load(s, e), y) == if y == e.year then Lookup(s, y) + [e.record] else Lookup(s, y)
    ensures TotalRecords(Load(s, e)) == TotalRecords(s) + 1
  {
    var t := Load(s, e);
    if HasYear(s, e.year) {
      var i :| 0 <= i < |s| && s[i].year == e.year;
      assert t[i].year == e.year;
      LookupAppendWhere(s, e.year, e.record, y);
      TotalAppendWhere(s, e.year, e.record);
      GroupsOfUnique(s, e.year);
    } else {
      var g := YearGroup(e.year, [e.record]);
      assert t == s + [g];
      assert forall i :: 0 <= i < |s| ==> s[i].year != e.year;
      assert t[|s|].year == e.year;
      LookupSnoc(s, g, y);
      if y == e.year {
      }
      assert t[..|s|] == s;
    }
  }

  /**
   * Loading a sequence of rows: the store keeps at most one group per year,
   * gains one record per row, and each year's records are followed by that
   * year's rows in input order.
   */
  lemma {:induction false} LoadAllSpec(s: seq<YearGroup>, es: seq<Entry>, y: int)
    requires UniqueYears(s)
    ensures UniqueYears(LoadAll(s, es))
    ensures TotalRecords(LoadAll(s, es)) == TotalRecords(s) + |es|
    ensures Lookup(LoadAll(s, es), y) == Lookup(s, y) + RecordsOfYear(es, y)
  {
    LoadAllCounts(s, es);
    LoadAllLookup(s, es, y);
  }

  lemma {:induction false} LoadAllCounts(s: seq<YearGroup>, es: seq<Entry>)
    requires UniqueYears(s)
    ensures UniqueYears(LoadAll(s, es))
    ensures TotalRecords(LoadAll(s, es)) == TotalRecords(s) + |es|
  {
    if es != [] {
      var p, e := es[..|es| - 1], es[|es| - 1];
      LoadAllCounts(s, p);
      LoadStep(LoadAll(s, p), e, e.year);
    }
  }

  lemma {:induction false} LoadAllLookup(s: seq<YearGroup>, es: seq<Entry>, y: int)
    requires UniqueYears(s)
    ensures Lookup(LoadAll(s, es), y) == Lookup(s, y) + RecordsOfYear(es, y)
  {
    if es != [] {
      var p, e := es[..|es| - 1], es[|es| - 1];
      LoadAllLookup(s, p, y);
      LoadAllCounts(s, p);
      var t := LoadAll(s, p);
      LoadStep(t, e, y);
      assert LoadAll(s, es) == Load(t, e);
      var before := Lookup(s, y);
      if e.year == y {
        assert RecordsOfYear(es, y) == RecordsOfYear(p, y) + [e.record];
        assert Lookup(LoadAll(s, es), y) == (before + RecordsOfYear(p, y)) + [e.record];
      } else {
        assert RecordsOfYear(es, y) == RecordsOfYear(p, y);
      }
    }
  }

  // ---------------------------------------------------------------------
  // populationStopped

  /** The records of race `race`, in their original order. */
  function FilterRace(rs: seq<SFRecord>, race: string): (r: seq<SFRecord>)
    ensures |r| <= |rs|
  {
    if rs == [] then []
    else FilterRace(rs[..|rs| - 1], race) + (if rs[|rs| - 1].race == race then [rs[|rs| - 1]] else [])
  }

  /** The filter holds exactly the records of rs whose race is `race`. */
  lemma {:induction false} FilterRaceMembers(rs: seq<SFRecord>, race: string)
    ensures forall x :: x in FilterRace(rs, race) <==> x in rs && x.race == race
  {
    if rs != [] {
      var p := rs[..|rs| - 1];
      FilterRaceMembers(p, race);
      assert rs == p + [rs[|rs| - 1]];
    }
  }

  /** Filtering keeps order: the filter of a concatenation is the concatenation of the filters. */
  lemma {:induction false} FilterRaceAppend(a: seq<SFRecord>, b: seq<SFRecord>, race: string)
    ensures FilterRace(a + b, race) == FilterRace(a, race) + FilterRace(b, race)
  {
    if b == [] {
      assert a + b == a;
    } else {
      var n := |b|;
      var last := if b[n - 1].race == race then [b[n - 1]] else [];
      assert (a + b)[..|a + b| - 1] == a + b[..n - 1];
      assert (a + b)[|a + b| - 1] == b[n - 1];
      FilterRaceAppend(a, b[..n - 1], race);
      calc {
        FilterRace(a + b, race);
        FilterRace(a + b[..n - 1], race) + last;
        FilterRace(a, race) + FilterRace(b[..n - 1], race) + last;
        FilterRace(a, race) + (FilterRace(b[..n - 1], race) + last);
        FilterRace(a, race) + FilterRace(b, race);
      }
    }
  }

  /** populationStopped as written: the matching records of every group of year y. */
  function StoppedAcross(s: seq<YearGroup>, y: int, race: string): (r: seq<SFRecord>)
    ensures !HasYear(s, y) ==> r == []
  {
    if s == [] then []
    else
      var g := s[|s| - 1];
      StoppedAcross(s[..|s| - 1], y, race) + (if g.year == y then FilterRace(g.records, race) else [])
  }

  /** One more group visited by populationStopped's scan. */
  lemma StoppedAcrossStep(s: seq<YearGroup>, y: int, race: string, i: nat)
    requires i < |s|
    ensures StoppedAcross(s[..i + 1], y, race) ==
      StoppedAcross(s[..i], y, race) + (if s[i].year == y then FilterRace(s[i].records, race) else [])
  {
    assert s[..i + 1][..i] == s[..i];
  }

  /** With unique years, populationStopped reads only the year's one group. */
  lemma {:induction false} StoppedAcrossUnique(s: seq<YearGroup>, y: int, race: string)
    requires UniqueYears(s)
    ensures StoppedAcross(s, y, race) == FilterRace(Lookup(s, y), race)
  {
    if s != [] {
      var n := |s|;
      var p, g := s[..n - 1], s[n - 1];
      assert s == p + [g];
      StoppedAcrossUnique(p, y, race);
      LookupSnoc(p, g, y);
      if g.year == y {
        assert forall j :: 0 <= j < |p| ==> p[j].year != y;
        assert !HasYear(p, y);
        assert Lookup(s, y) == g.records;
      } else {
        assert Lookup(s, y) == Lookup(p, y);
      }
    }
  }

  // ---------------------------------------------------------------------
  // friskedVSArrested

  function CountFrisked(rs: seq<SFRecord>): (n: nat)
    ensures n <= |rs|
  {
    if rs == [] then 0
    else CountFrisked(rs[..|rs| - 1]) + (if rs[|rs| - 1].frisked then 1 else 0)
  }

  function CountArrested(rs: seq<SFRecord>): (n: nat)
    ensures n <= |rs|
  {
    if rs == [] then 0
    else CountArrested(rs[..|rs| - 1]) + (if rs[|rs| - 1].arrested then 1 else 0)
  }

  /** 100 * count / total, and 0 when total is 0. */
  function Percent(count: nat, total: nat): (p: real)
    ensures total == 0 ==> p == 0.0
    ensures p >= 0.0
  {
    if total > 0 then (count as real / total as real) * 100.0 else 0.0
  }

  /** p is the share count/total expressed in percent: in [0, 100], and p * total == 100 * count. */
  ghost predicate IsPercentOf(p: real, count: nat, total: nat) {
    0.0 <= p <= 100.0 && p * total as real == 100.0 * count as real
  }

  /** A count that is part of its total gives a percentage in [0, 100] that scales back to the count. */
  lemma PercentRange(count: nat, total: nat)
    requires count <= total
    ensures IsPercentOf(Percent(count, total), count, total)
  {
  }

  /** friskedVSArrested of one year's records: percent frisked, then percent arrested. */
  function FriskedVsArrestedOf(rs: seq<SFRecord>): (r: seq<real>)
    ensures |r| == 2
    ensures rs == [] ==> r == [0.0, 0.0]
  {
    [Percent(CountFrisked(rs), |rs|), Percent(CountArrested(rs), |rs|)]
  }

  /**
   * The two values of friskedVSArrested are the percentages of frisked and
   * of arrested records; the counts are independent, so a record that was
   * both frisked and arrested adds to both.
   */
  lemma FriskedVsArrestedMeaning(rs: seq<SFRecord>)
    ensures IsPercentOf(FriskedVsArrestedOf(rs)[0], CountFrisked(rs), |rs|)
    ensures IsPercentOf(FriskedVsArrestedOf(rs)[1], CountArrested(rs), |rs|)
  {
    PercentRange(CountFrisked(rs), |rs|);
    PercentRange(CountArrested(rs), |rs|);
  }

  // ---------------------------------------------------------------------
  // genderBias

  const Black := "B"
  const White := "W"
  const Female := "F"
  const Male := "M"

  /** The six counters of genderBias. */
  datatype Tally = Tally(
    blackFemales: nat, blackMales: nat,
    whiteFemales: nat, whiteMales: nat,
    totalBlacks: nat, totalWhites: nat)

  /** One record's contribution: only races B and W count, only genders F and M fill a row. */
  function CountOne(t: Tally, r: SFRecord): (t': Tally)
    ensures r.race != Black && r.race != White ==> t' == t
    ensures t'.totalBlacks + t'.totalWhites <= t.totalBlacks + t.totalWhites + 1
  {
    if r.race == Black then
      var t' := t.(totalBlacks := t.totalBlacks + 1);
      if r.gender == Female then t'.(blackFemales := t.blackFemales + 1)
      else if r.gender == Male then t'.(blackMales := t.blackMales + 1)
      else t'
    else if r.race == White then
      var t' := t.(totalWhites := t.totalWhites + 1);
      if r.gender == Female then t'.(whiteFemales := t.whiteFemales + 1)
      else if r.gender == Male then t'.(whiteMales := t.whiteMales + 1)
      else t'
    else t
  }

  /** The counters after scanning rs. A race's F and M counts never exceed that race's total. */
  function TallyOf(rs: seq<SFRecord>): (t: Tally)
    ensures t.blackFemales + t.blackMales <= t.totalBlacks
    ensures t.whiteFemales + t.whiteMales <= t.totalWhites
    ensures t.totalBlacks + t.totalWhites <= |rs|
  {
    if rs == [] then Tally(0, 0, 0, 0, 0, 0)
    else CountOne(TallyOf(rs[..|rs| - 1]), rs[|rs| - 1])
  }

  /** The race totals of genderBias are the sizes of populationStopped for B and W. */
  lemma {:induction false} TallyTotalsArePopulations(rs: seq<SFRecord>)
    ensures TallyOf(rs).totalBlacks == |FilterRace(rs, Black)|
    ensures TallyOf(rs).totalWhites == |FilterRace(rs, White)|
  {
    if rs != [] {
      TallyTotalsArePopulations(rs[..|rs| - 1]);
    }
  }

  /** Records of the given race and gender. */
  function CountRG(rs: seq<SFRecord>, race: string, gender: string): (n: nat)
    ensures n <= |rs|
  {
    if rs == [] then 0
    else
      var r := rs[|rs| - 1];
      CountRG(rs[..|rs| - 1], race, gender) + (if r.race == race && r.gender == gender then 1 else 0)
  }

  /** The four gender counters of genderBias are the numbers of records of that race and gender. */
  lemma {:induction false} TallyGenderCounts(rs: seq<SFRecord>)
    ensures TallyOf(rs).blackFemales == CountRG(rs, Black, Female)
    ensures TallyOf(rs).blackMales == CountRG(rs, Black, Male)
    ensures TallyOf(rs).whiteFemales == CountRG(rs, White, Female)
    ensures TallyOf(rs).whiteMales == CountRG(rs, White, Male)
  {
    if rs != [] {
      TallyGenderCounts(rs[..|rs| - 1]);
    }
  }

  /**
   * The cells of genderBias in terms of the records: each race cell times
   * that race's record count is 50 times the records of that race and gender.
   */
  lemma GenderBiasCells(rs: seq<SFRecord>)
    ensures IsHalfShareOf(GenderTable(TallyOf(rs))[0][0], CountRG(rs, Black, Female), |FilterRace(rs, Black)|)
    ensures IsHalfShareOf(GenderTable(TallyOf(rs))[1][0], CountRG(rs, Black, Male), |FilterRace(rs, Black)|)
    ensures IsHalfShareOf(GenderTable(TallyOf(rs))[0][1], CountRG(rs, White, Female), |FilterRace(rs, White)|)
    ensures IsHalfShareOf(GenderTable(TallyOf(rs))[1][1], CountRG(rs, White, Male), |FilterRace(rs, White)|)
  {
    var t := TallyOf(rs);
    TallyGenderCounts(rs);
    TallyTotalsArePopulations(rs);
    var table := GenderTable(t);
    assert table[0][0] == HalfShare(t.blackFemales, t.totalBlacks);
    assert table[1][0] == HalfShare(t.blackMales, t.totalBlacks);
    assert table[0][1] == HalfShare(t.whiteFemales, t.totalWhites);
    assert table[1][1] == HalfShare(t.whiteMales, t.totalWhites);
    HalfShareScales(t.blackFemales, t.totalBlacks);
    HalfShareScales(t.blackMales, t.totalBlacks);
    HalfShareScales(t.whiteFemales, t.totalWhites);
    HalfShareScales(t.whiteMales, t.totalWhites);
  }

  /** cell is count / total * 0.5 * 100 in the scaled-back form cell * total == 50 * count. */
  ghost predicate IsHalfShareOf(cell: real, count: nat, total: nat) {
    cell * total as real == 50.0 * count as real
  }

  lemma HalfShareScales(count: nat, total: nat)
    requires count <= total
    ensures IsHalfShareOf(HalfShare(count, total), count, total)
  {
    HalfShareSum(count, 0, total);
  }

  /** count / total * 0.5 * 100, and 0 when total is 0. */
  function HalfShare(count: nat, total: nat): (h: real)
    ensures total == 0 ==> h == 0.0
    ensures h >= 0.0
  {
    if total > 0 then (count as real / total as real) * 0.5 * 100.0 else 0.0
  }

  /** The 2x3 table: row 0 females, row 1 males; columns Black, White, and their sum. */
  function GenderTable(t: Tally): (table: seq<seq<real>>)
    ensures |table| == 2 && |table[0]| == 3 && |table[1]| == 3
    ensures forall g :: 0 <= g < 2 ==> table[g][2] == table[g][0] + table[g][1]
    ensures t.totalBlacks == 0 ==> table[0][0] == 0.0 && table[1][0] == 0.0
    ensures t.totalWhites == 0 ==> table[0][1] == 0.0 && table[1][1] == 0.0
  {
    var bf := HalfShare(t.blackFemales, t.totalBlacks);
    var wf := HalfShare(t.whiteFemales, t.totalWhites);
    var bm := HalfShare(t.blackMales, t.totalBlacks);
    var wm := HalfShare(t.whiteMales, t.totalWhites);
    var any := t.totalBlacks + t.totalWhites > 0;
    [[bf, wf, if any then bf + wf else 0.0],
     [bm, wm, if any then bm + wm else 0.0]]
  }

  lemma HalfShareSum(a: nat, b: nat, total: nat)
    requires a + b <= total
    ensures 0.0 <= HalfShare(a, total) && 0.0 <= HalfShare(b, total)
    ensures HalfShare(a, total) + HalfShare(b, total) <= 50.0
    ensures HalfShare(a, total) * total as real == 50.0 * a as real
  {
  }

  /**
   * Meaning of each cell of genderBias: a cell times its race total is 50
   * times its gender count, every cell is at least 0, and within a race
   * column the female and male cells add up to at most 50 (less when some
   * records of that race have another gender).
   */
  lemma GenderTableMeaning(t: Tally)
    requires t.blackFemales + t.blackMales <= t.totalBlacks
    requires t.whiteFemales + t.whiteMales <= t.totalWhites
    ensures var table := GenderTable(t);
      && table[0][0] * t.totalBlacks as real == 50.0 * t.blackFemales as real
      && table[1][0] * t.totalBlacks as real == 50.0 * t.blackMales as real
      && table[0][1] * t.totalWhites as real == 50.0 * t.whiteFemales as real
      && table[1][1] * t.totalWhites as real == 50.0 * t.whiteMales as real
      && table[0][0] >= 0.0 && table[1][0] >= 0.0 && table[0][1] >= 0.0 && table[1][1] >= 0.0
      && table[0][0] + table[1][0] <= 50.0
      && table[0][1] + table[1][1] <= 50.0
  {
    var table := GenderTable(t);
    assert table[0][0] == HalfShare(t.blackFemales, t.totalBlacks);
    assert table[1][0] == HalfShare(t.blackMales, t.totalBlacks);
    assert table[0][1] == HalfShare(t.whiteFemales, t.totalWhites);
    assert table[1][1] == HalfShare(t.whiteMales, t.totalWhites);
    ColumnMeaning(t.blackFemales, t.blackMales, t.totalBlacks);
    ColumnMeaning(t.whiteFemales, t.whiteMales, t.totalWhites);
  }

  /** One race column of genderBias: both cells scale back to their counts and add up to at most 50. */
  lemma ColumnMeaning(females: nat, males: nat, total: nat)
    requires females + males <= total
    ensures HalfShare(females, total) * total as real == 50.0 * females as real
    ensures HalfShare(males, total) * total as real == 50.0 * males as real
    ensures HalfShare(females, total) >= 0.0 && HalfShare(males, total) >= 0.0
    ensures HalfShare(females, total) + HalfShare(males, total) <= 50.0
  {
    HalfShareSum(females, males, total);
    HalfShareSum(males, females, total);
  }

  // ---------------------------------------------------------------------
  // crimeIncrease

  ghost predicate OccursAt(s: string, d: string, i: int) {
    0 <= i && i + |d| <= |s| && s[i..i + |d|] == d
  }

  /** String.indexOf(d, from): the first occurrence of d at or after from, or -1. */
  function IndexOfFrom(s: string, d: string, from: nat): (r: int)
    ensures r == -1 <==> forall i :: from <= i ==> !OccursAt(s, d, i)
    ensures r != -1 ==> from <= r && OccursAt(s, d, r)
    ensures r != -1 ==> forall i :: from <= i < r ==> !OccursAt(s, d, i)
    decreases |s| - from
  {
    if from + |d| > |s| then -1
    else if s[from..from + |d|] == d then assert OccursAt(s, d, from); from
    else IndexOfFrom(s, d, from + 1)
  }

  /** String.indexOf(d): the first index where d occurs in s, or -1. */
  function IndexOf(s: string, d: string): (r: int)
    ensures r == -1 <==> forall i :: 0 <= i ==> !OccursAt(s, d, i)
    ensures r != -1 ==> 0 <= r && OccursAt(s, d, r) && forall i :: 0 <= i < r ==> !OccursAt(s, d, i)
  {
    IndexOfFrom(s, d, 0)
  }

  /** Records whose description contains d as a substring. */
  function CountMatching(rs: seq<SFRecord>, d: string): (n: nat)
    ensures n <= |rs|
  {
    if rs == [] then 0
    else CountMatching(rs[..|rs| - 1], d) + (if IndexOf(rs[|rs| - 1].description, d) != -1 then 1 else 0)
  }

  /**
   * crimeIncrease's counters for year y as written: the matching records of
   * every group of year y summed, and the size of the last such group.
   */
  function CrimeTally(s: seq<YearGroup>, d: string, y: int): (r: (nat, nat))
    ensures !HasYear(s, y) ==> r == (0, 0)
  {
    if s == [] then (0, 0)
    else
      var (count, total) := CrimeTally(s[..|s| - 1], d, y);
      var g := s[|s| - 1];
      if g.year == y then (count + CountMatching(g.records, d), |g.records|) else (count, total)
  }

  /** One more group visited by crimeIncrease's scan. */
  lemma CrimeTallyStep(s: seq<YearGroup>, d: string, y: int, i: nat)
    requires i < |s|
    ensures CrimeTally(s[..i + 1], d, y) ==
      if s[i].year == y then (CrimeTally(s[..i], d, y).0 + CountMatching(s[i].records, d), |s[i].records|)
      else CrimeTally(s[..i], d, y)
  {
    assert s[..i + 1][..i] == s[..i];
  }

  function CrimePercentAcross(s: seq<YearGroup>, d: string, y: int): (p: real)
    ensures !HasYear(s, y) ==> p == 0.0
  {
    var (count, total) := CrimeTally(s, d, y);
    Percent(count, total)
  }

  /** crimeIncrease as written: the second year's percentage minus the first's. */
  function CrimeIncreaseAcross(s: seq<YearGroup>, d: string, y1: int, y2: int): (r: real)
    ensures y1 == y2 ==> r == 0.0
    ensures !HasYear(s, y1) && !HasYear(s, y2) ==> r == 0.0
  {
    CrimePercentAcross(s, d, y2) - CrimePercentAcross(s, d, y1)
  }

  /** Percentage of one year's records whose description contains d. */
  function CrimePercent(rs: seq<SFRecord>, d: string): (p: real)
    ensures rs == [] ==> p == 0.0
  {
    Percent(CountMatching(rs, d), |rs|)
  }

  /** The percentage lies in [0, 100] and scales back to the matching count. */
  lemma CrimePercentRange(rs: seq<SFRecord>, d: string)
    ensures IsPercentOf(CrimePercent(rs, d), CountMatching(rs, d), |rs|)
  {
    PercentRange(CountMatching(rs, d), |rs|);
  }

  /** With unique years, crimeIncrease's counters are those of the year's one group. */
  lemma {:induction false} CrimeTallyUnique(s: seq<YearGroup>, d: string, y: int)
    requires UniqueYears(s)
    ensures CrimeTally(s, d, y) == (CountMatching(Lookup(s, y), d), |Lookup(s, y)|)
  {
    if s != [] {
      var n := |s|;
      var p, g := s[..n - 1], s[n - 1];
      assert s == p + [g];
      CrimeTallyUnique(p, d, y);
      LookupSnoc(p, g, y);
      assert s[..n - 1] == p;
      if g.year == y {
        assert forall j :: 0 <= j < |p| ==> p[j].year != y;
        assert !HasYear(p, y);
        assert Lookup(s, y) == g.records;
        assert CrimeTally(p, d, y) == (0, 0);
        assert CrimeTally(s, d, y) == (CountMatching(g.records, d), |g.records|);
      } else {
        assert Lookup(s, y) == Lookup(p, y);
        assert CrimeTally(s, d, y) == CrimeTally(p, d, y);
      }
    }
  }

  /**
   * With unique years, crimeIncrease is percent(y2) - percent(y1) over each
   * year's records, lies in [-100, 100], never swaps its years (swapping
   * them negates the result) and is 0 when both years are the same.
   */
  lemma CrimeIncreaseMeaning(s: seq<YearGroup>, d: string, y1: int, y2: int)
    requires UniqueYears(s)
    ensures CrimeIncreaseAcross(s, d, y1, y2) ==
      CrimePercent(Lookup(s, y2), d) - CrimePercent(Lookup(s, y1), d)
    ensures -100.0 <= CrimeIncreaseAcross(s, d, y1, y2) <= 100.0
    ensures CrimeIncreaseAcross(s, d, y2, y1) == -CrimeIncreaseAcross(s, d, y1, y2)
    ensures y1 == y2 ==> CrimeIncreaseAcross(s, d, y1, y2) == 0.0
  {
    CrimeTallyUnique(s, d, y1);
    CrimeTallyUnique(s, d, y2);
    CrimePercentRange(Lookup(s, y1), d);
    CrimePercentRange(Lookup(s, y2), d);
  }

  /** No matching description in either year gives no change. */
  lemma {:induction false} CrimeIncreaseNoMatch(s: seq<YearGroup>, d: string, y1: int, y2: int)
    requires UniqueYears(s)
    requires forall r :: r in Lookup(s, y1) + Lookup(s, y2) ==> IndexOf(r.description, d) == -1
    ensures CrimeIncreaseAcross(s, d, y1, y2) == 0.0
  {
    CrimeIncreaseMeaning(s, d, y1, y2);
    NoMatchCount(Lookup(s, y1), d);
    NoMatchCount(Lookup(s, y2), d);
  }

  lemma {:induction false} NoMatchCount(rs: seq<SFRecord>, d: string)
    requires forall r :: r in rs ==> IndexOf(r.description, d) == -1
    ensures CountMatching(rs, d) == 0
  {
    if rs != [] {
      assert rs[|rs| - 1] in rs;
      NoMatchCount(rs[..|rs| - 1], d);
    }
  }

  // ---------------------------------------------------------------------
  // mostCommonBorough

  /** The fixed borough names, in the order that breaks ties. */
  const Boroughs: seq<string> := ["Brooklyn", "Manhattan", "Bronx", "Queens", "Staten Island"]

  /** ASCII lower case. */
  function ToLower(c: char): char {
    if 'A' <= c <= 'Z' then (c as int + 32) as char else c
  }

  /** String.equalsIgnoreCase, over ASCII letters. */
  predicate EqualsIgnoreCase(a: string, b: string)
    ensures a == b ==> EqualsIgnoreCase(a, b)
    ensures EqualsIgnoreCase(a, b) ==> |a| == |b|
  {
    |a| == |b| && forall i :: 0 <= i < |a| ==> ToLower(a[i]) == ToLower(b[i])
  }

  /** The first borough at index from or later that loc names, ignoring case. */
  function BoroughIndexFrom(loc: string, from: nat): (r: Option<nat>)
    requires from <= |Boroughs|
    ensures r.Some? ==> from <= r.value < |Boroughs| && EqualsIgnoreCase(loc, Boroughs[r.value])
    ensures r.Some? ==> forall j :: from <= j < r.value ==> !EqualsIgnoreCase(loc, Boroughs[j])
    ensures r.None? ==> forall j :: from <= j < |Boroughs| ==> !EqualsIgnoreCase(loc, Boroughs[j])
    decreases |Boroughs| - from
  {
    if from == |Boroughs| then None
    else if EqualsIgnoreCase(loc, Boroughs[from]) then Some(from)
    else BoroughIndexFrom(loc, from + 1)
  }

  /** The bucket a location falls into, or None when it names no borough. */
  function BoroughIndex(loc: string): Option<nat> {
    BoroughIndexFrom(loc, 0)
  }

  /** A location that equals a borough name ignoring case falls into that borough's bucket and no other. */
  lemma BoroughIndexExact(loc: string, i: nat)
    requires i < |Boroughs| && EqualsIgnoreCase(loc, Boroughs[i])
    ensures BoroughIndex(loc) == Some(i)
  {
    assert forall j :: 0 <= j < |Boroughs| && j != i ==> |Boroughs[j]| != |Boroughs[i]|;
  }

  /** A location falls into bucket i exactly when it equals borough i ignoring case. */
  lemma BoroughIndexNames(loc: string, i: nat)
    requires i < |Boroughs|
    ensures BoroughIndex(loc) == Some(i) <==> EqualsIgnoreCase(loc, Boroughs[i])
  {
    if EqualsIgnoreCase(loc, Boroughs[i]) {
      BoroughIndexExact(loc, i);
    }
  }

  /** Records whose location equals borough i ignoring case. */
  function CountNamed(rs: seq<SFRecord>, i: nat): (n: nat)
    requires i < |Boroughs|
    ensures n <= |rs|
  {
    if rs == [] then 0
    else CountNamed(rs[..|rs| - 1], i) + (if EqualsIgnoreCase(rs[|rs| - 1].location, Boroughs[i]) then 1 else 0)
  }

  /** The five per-borough counts after scanning rs. */
  function BoroughCounts(rs: seq<SFRecord>): (c: seq<nat>)
    ensures |c| == |Boroughs|
  {
    if rs == [] then seq(|Boroughs|, _ => 0)
    else
      var c := BoroughCounts(rs[..|rs| - 1]);
      match BoroughIndex(rs[|rs| - 1].location)
      case None => c
      case Some(i) => c[i := c[i] + 1]
  }

  /** Count i of mostCommonBorough is the number of records located in borough i. */
  lemma {:induction false} BoroughCountsNamed(rs: seq<SFRecord>, i: nat)
    requires i < |Boroughs|
    ensures BoroughCounts(rs)[i] == CountNamed(rs, i)
  {
    if rs != [] {
      var p := rs[..|rs| - 1];
      BoroughCountsNamed(p, i);
      BoroughIndexNames(rs[|rs| - 1].location, i);
    }
  }

  /** Records whose location names one of the boroughs. */
  function Located(rs: seq<SFRecord>): (n: nat)
    ensures n <= |rs|
  {
    if rs == [] then 0
    else Located(rs[..|rs| - 1]) + (if BoroughIndex(rs[|rs| - 1].location).Some? then 1 else 0)
  }

  function Sum(c: seq<nat>): nat {
    if c == [] then 0 else Sum(c[..|c| - 1]) + c[|c| - 1]
  }

  lemma {:induction false} SumIncrement(c: seq<nat>, i: nat)
    requires i < |c|
    ensures Sum(c[i := c[i] + 1]) == Sum(c) + 1
  {
    var n := |c|;
    if i < n - 1 {
      assert c[i := c[i] + 1][..n - 1] == c[..n - 1][i := c[i] + 1];
      SumIncrement(c[..n - 1], i);
    } else {
      assert c[i := c[i] + 1][..n - 1] == c[..n - 1];
    }
  }

  lemma {:induction false} SumZero(c: seq<nat>)
    requires Sum(c) == 0
    ensures forall i :: 0 <= i < |c| ==> c[i] == 0
  {
    if c != [] {
      SumZero(c[..|c| - 1]);
    }
  }

  lemma {:induction false} SumOfZeros(n: nat)
    ensures Sum(seq(n, _ => 0)) == 0
  {
    if n > 0 {
      assert seq(n, _ => 0)[..n - 1] == seq(n - 1, _ => 0);
      SumOfZeros(n - 1);
    }
  }

  /**
   * Each record is counted in at most one borough: the counts add up to the
   * number of records whose location names a borough.
   */
  lemma {:induction false} BoroughCountsTotal(rs: seq<SFRecord>)
    ensures Sum(BoroughCounts(rs)) == Located(rs)
  {
    if rs == [] {
      SumOfZeros(|Boroughs|);
    } else {
      var p := rs[..|rs| - 1];
      BoroughCountsTotal(p);
      match BoroughIndex(rs[|rs| - 1].location)
      case None =>
      case Some(i) => SumIncrement(BoroughCounts(p), i);
    }
  }

  /**
   * The index the maximum scan ends on: the largest count, and among equal
   * largest counts the earliest, since the scan replaces only on a strictly
   * greater count.
   */
  function ArgMax(c: seq<int>): (k: nat)
    requires |c| > 0
    ensures k < |c|
    ensures forall j :: 0 <= j < |c| ==> c[j] <= c[k]
    ensures forall j :: 0 <= j < k ==> c[j] < c[k]
  {
    if |c| == 1 then 0
    else
      var k := ArgMax(c[..|c| - 1]);
      if c[|c| - 1] > c[k] then |c| - 1 else k
  }

  /** mostCommonBorough of one year's records. */
  function MostCommonOf(rs: seq<SFRecord>): (b: string)
    ensures b in Boroughs
  {
    Boroughs[ArgMax(BoroughCounts(rs))]
  }

  /**
   * mostCommonBorough names a borough with the most records located in it,
   * and the earliest in the fixed order among boroughs with as many.
   */
  lemma MostCommonMeaning(rs: seq<SFRecord>)
    ensures exists k :: (0 <= k < |Boroughs| && MostCommonOf(rs) == Boroughs[k]
      && (forall j :: 0 <= j < |Boroughs| ==> CountNamed(rs, j) <= CountNamed(rs, k))
      && (forall j :: 0 <= j < k ==> CountNamed(rs, j) < CountNamed(rs, k)))
  {
    var c := BoroughCounts(rs);
    var k := ArgMax(c);
    forall j | 0 <= j < |Boroughs|
      ensures c[j] == CountNamed(rs, j)
    {
      BoroughCountsNamed(rs, j);
    }
    assert MostCommonOf(rs) == Boroughs[k];
  }

  /** When no record names a borough (an absent or empty year among them), the answer is "Brooklyn". */
  lemma MostCommonDefault(rs: seq<SFRecord>)
    requires Located(rs) == 0
    ensures MostCommonOf(rs) == "Brooklyn"
  {
    var c := BoroughCounts(rs);
    BoroughCountsTotal(rs);
    SumZero(c);
    var k := ArgMax(c);
    assert c[0] == 0 && c[k] == 0;
  }

  // ---------------------------------------------------------------------
  // A year with no group

  /**
   * Every query on a year the store does not hold: no stopped records,
   * [0, 0], an all-zero table, no change in crime, and "Brooklyn".
   */
  lemma {:induction false} AbsentYear(s: seq<YearGroup>, y: int, race: string, d: string)
    requires !HasYear(s, y)
    ensures StoppedAcross(s, y, race) == []
    ensures FriskedVsArrestedOf(Lookup(s, y)) == [0.0, 0.0]
    ensures GenderTable(TallyOf(Lookup(s, y))) == [[0.0, 0.0, 0.0], [0.0, 0.0, 0.0]]
    ensures CrimeTally(s, d, y) == (0, 0)
    ensures CrimePercentAcross(s, d, y) == 0.0
    ensures MostCommonOf(Lookup(s, y)) == "Brooklyn"
  {
    assert forall j :: 0 <= j < |s| ==> s[j].year != y;
    MostCommonDefault([]);
    if s != [] {
      var p := s[..|s| - 1];
      assert !HasYear(p, y) by {
        assert forall j :: 0 <= j < |p| ==> p[j].year == s[j].year;
      }
      AbsentYear(p, y, race, d);
    }
  }
}
