/**
 * One stop-and-frisk record and the fixed-column row decoder that builds it.
 *
 * A data row is taken as the sequence of its comma-separated fields. The
 * decoder reads the year from column 0 with the rules of Java's
 * Integer.parseInt, and the record's fields from columns 2, 13, 16, 52, 66
 * and 71. A row that is too short, or whose year does not parse, is an error:
 * Java's readFile throws an exception there, and the decoder returns None.
 */
module Records {

  datatype Option<T> = None | Some(value: T)

  /** One stop event. Immutable once built. */
  datatype SFRecord = SFRecord(
    description: string,
    arrested: bool,
    frisked: bool,
    gender: string,
    race: string,
    location: string)

  /** A decoded row: the year it belongs to and its record. */
  datatype Entry = Entry(year: int, record: SFRecord)

  // Column positions of the input format (0-based).
  const YearColumn := 0
  const DescriptionColumn := 2
  const ArrestedColumn := 13
  const FriskedColumn := 16
  const GenderColumn := 52
  const RaceColumn := 66
  const LocationColumn := 71

  /** The fewest fields a row can have: the last column read is 71. */
  const RowWidth := 72

  /** The only flag value that reads as true. */
  const Yes := "Y"

  // Range of a Java int.
  const MinInt := -0x8000_0000
  const MaxInt := 0x7fff_ffff

  predicate IsDigit(c: char) {
    '0' <= c <= '9'
  }

  predicate AllDigits(s: string) {
    forall i :: 0 <= i < |s| ==> IsDigit(s[i])
  }

  /** The value of a string of decimal digits, most significant first. */
  function DigitsValue(s: string): nat
    requires AllDigits(s)
  {
    if s == [] then 0
    else DigitsValue(s[..|s| - 1]) * 10 + (s[|s| - 1] as int - '0' as int)
  }

  /** The digits of a numeral: the string without its leading sign, if any. */
  function Unsigned(s: string): string {
    if |s| > 0 && (s[0] == '-' || s[0] == '+') then s[1..] else s
  }

  /** A numeral: an optional '-' or '+' sign followed by at least one decimal digit. */
  predicate IsNumeral(s: string) {
    |Unsigned(s)| > 0 && AllDigits(Unsigned(s))
  }

  /**
   * Integer.parseInt on a decimal string: an optional '-' or '+' sign,
   * then at least one digit, and a value that fits in a Java int.
   * Anything else is the NumberFormatException case, here None.
   */
  function ParseInt(s: string): (r: Option<int>)
    ensures r.Some? ==> |s| > 0 && MinInt <= r.value <= MaxInt
    ensures r.Some? && s[0] == '-' ==> r.value <= 0
    ensures r.Some? && s[0] != '-' ==> r.value >= 0
  {
    if |s| == 0 then None
    else
      var digits := if s[0] == '-' || s[0] == '+' then s[1..] else s;
      if |digits| == 0 || !AllDigits(digits) then None
      else
        var v: int := if s[0] == '-' then -(DigitsValue(digits) as int) else DigitsValue(digits);
        if MinInt <= v <= MaxInt then Some(v) else None
  }

  /** The value a numeral denotes: its digits' value, negated after a '-'. */
  function Magnitude(s: string): int
    requires IsNumeral(s)
  {
    if s[0] == '-' then -(DigitsValue(Unsigned(s)) as int) else DigitsValue(Unsigned(s))
  }

  /**
   * parseInt accepts exactly the numerals whose value fits in a Java int,
   * and returns that value.
   */
  lemma ParseIntMeaning(s: string)
    ensures ParseInt(s).Some? <==> IsNumeral(s) && MinInt <= Magnitude(s) <= MaxInt
    ensures ParseInt(s).Some? ==> ParseInt(s).value == Magnitude(s)
  {
  }

  function DigitChar(d: nat): char
    requires d < 10
  {
    ('0' as int + d) as char
  }

  /** Shortest decimal spelling of a natural number. */
  function ShowNat(n: nat): (s: string)
    ensures |s| > 0 && AllDigits(s)
  {
    if n < 10 then [DigitChar(n)] else ShowNat(n / 10) + [DigitChar(n % 10)]
  }

  /** Decimal spelling of an integer, with a '-' when negative. */
  function ShowInt(n: int): string {
    if n < 0 then "-" + ShowNat(-n) else ShowNat(n)
  }

  lemma {:induction false} ShowNatValue(n: nat)
    ensures DigitsValue(ShowNat(n)) == n
  {
    if n >= 10 {
      var s := ShowNat(n);
      assert s[..|s| - 1] == ShowNat(n / 10);
      ShowNatValue(n / 10);
    }
  }

  /** Reading back what ShowInt wrote gives the same year. */
  lemma ParseShowInt(n: int)
    requires MinInt <= n <= MaxInt
    ensures ParseInt(ShowInt(n)) == Some(n)
  {
    var s := ShowInt(n);
    if n < 0 {
      assert s[1..] == ShowNat(-n);
      ShowNatValue(-n);
    } else {
      ShowNatValue(n);
    }
  }

  /**
   * Entry e is what a long enough row says: the year column parsed as an
   * integer, the description, gender, race and location columns as they
   * stand, and arrested / frisked set exactly when their column is "Y".
   */
  ghost predicate ReadsRow(fields: seq<string>, e: Entry)
    requires |fields| >= RowWidth
  {
    && ParseInt(fields[YearColumn]) == Some(e.year)
    && e.record.description == fields[DescriptionColumn]
    && (e.record.arrested <==> fields[ArrestedColumn] == Yes)
    && (e.record.frisked <==> fields[FriskedColumn] == Yes)
    && e.record.gender == fields[GenderColumn]
    && e.record.race == fields[RaceColumn]
    && e.record.location == fields[LocationColumn]
  }

  /**
   * Decodes one row. None when the row has fewer than RowWidth fields or its
   * year field is not an integer.
   */
  function DecodeRow(fields: seq<string>): (r: Option<Entry>)
    ensures r.Some? <==> |fields| >= RowWidth && ParseInt(fields[YearColumn]).Some?
    ensures r.Some? ==> ReadsRow(fields, r.value)
  {
    if |fields| < RowWidth then None
    else match ParseInt(fields[YearColumn])
      case None => None
      case Some(year) =>
        Some(Entry(year, SFRecord(
          fields[DescriptionColumn],
          fields[ArrestedColumn] == Yes,
          fields[FriskedColumn] == Yes,
          fields[GenderColumn],
          fields[RaceColumn],
          fields[LocationColumn])))
  }

  /** A row that decodes to the given entry; unread columns are left empty. */
  function EncodeRow(e: Entry): (fields: seq<string>)
    ensures |fields| == RowWidth
  {
    seq(RowWidth, i =>
      if i == YearColumn then ShowInt(e.year)
      else if i == DescriptionColumn then e.record.description
      else if i == ArrestedColumn then (if e.record.arrested then Yes else "N")
      else if i == FriskedColumn then (if e.record.frisked then Yes else "N")
      else if i == GenderColumn then e.record.gender
      else if i == RaceColumn then e.record.race
      else if i == LocationColumn then e.record.location
      else "")
  }

  /** Decoding inverts encoding for every year a Java int can hold. */
  lemma DecodeEncode(e: Entry)
    requires MinInt <= e.year <= MaxInt
    ensures DecodeRow(EncodeRow(e)) == Some(e)
  {
    var fields := EncodeRow(e);
    ParseShowInt(e.year);
    assert fields[YearColumn] == ShowInt(e.year);
    assert (fields[ArrestedColumn] == Yes) == e.record.arrested;
    assert (fields[FriskedColumn] == Yes) == e.record.frisked;
    assert fields[DescriptionColumn] == e.record.description;
    assert fields[GenderColumn] == e.record.gender;
    assert fields[RaceColumn] == e.record.race;
    assert fields[LocationColumn] == e.record.location;
  }

  /**
   * The entries of the leading rows that decode, stopping at the first row
   * that does not: what the loader has stored when that row throws.
   */
  function DecodePrefix(rows: seq<seq<string>>): (r: seq<Entry>)
    ensures |r| <= |rows|
    ensures forall i :: 0 <= i < |r| ==> DecodeRow(rows[i]) == Some(r[i])
    ensures |r| < |rows| ==> DecodeRow(rows[|r|]).None?
  {
    if rows == [] then []
    else match DecodeRow(rows[0])
      case None => []
      case Some(e) => [e] + DecodePrefix(rows[1..])
  }

  /** A row that decodes is followed, in the decoded prefix, by the rows after it. */
  lemma DecodePrefixStep(rows: seq<seq<string>>, k: nat)
    requires k < |rows|
    ensures DecodeRow(rows[k]).None? ==> DecodePrefix(rows[k..]) == []
    ensures DecodeRow(rows[k]).Some? ==>
      DecodePrefix(rows[k..]) == [DecodeRow(rows[k]).value] + DecodePrefix(rows[k + 1..])
  {
    assert rows[k..][1..] == rows[k + 1..];
  }

  /**
   * One step of a left-to-right decoding loop that has decoded the entries
   * `loaded` from the rows before k: row k either ends the prefix or adds
   * its entry to it.
   */
  lemma DecodePrefixAdvance(rows: seq<seq<string>>, loaded: seq<Entry>, k: nat)
    requires k < |rows|
    requires DecodePrefix(rows) == loaded + DecodePrefix(rows[k..])
    ensures DecodeRow(rows[k]).None? ==> DecodePrefix(rows) == loaded
    ensures DecodeRow(rows[k]).Some? ==>
      DecodePrefix(rows) == (loaded + [DecodeRow(rows[k]).value]) + DecodePrefix(rows[k + 1..])
  {
    DecodePrefixStep(rows, k);
    if DecodeRow(rows[k]).Some? {
      assert loaded + ([DecodeRow(rows[k]).value] + DecodePrefix(rows[k + 1..])) ==
        (loaded + [DecodeRow(rows[k]).value]) + DecodePrefix(rows[k + 1..]);
    }
  }

  /** The data rows of an input: everything after the header line. */
  function DataRows(input: seq<seq<string>>): (rows: seq<seq<string>>)
    ensures |input| > 0 ==> |rows| == |input| - 1
    ensures |input| > 0 ==> forall i :: 0 <= i < |rows| ==> rows[i] == input[i + 1]
    ensures |input| == 0 ==> rows == []
  {
    if |input| == 0 then [] else input[1..]
  }
}
