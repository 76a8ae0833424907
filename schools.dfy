/**
 * The school directory: the search response built from a `schools` row,
 * with the first graduation year a school's founding date allows, and the
 * autocomplete search over the directory.
 */
module Schools {
  import opened Common

  const ELEMENTARY: string := "초등학교"
  const HIGH: string := "고등학교"

  /** The most results one search returns. */
  const SEARCH_LIMIT: nat := 20

  /** One row of the directory; `foundDate` is written "YYYYMMDD" when present. */
  datatype School = School(
    id: nat,
    schoolCode: string,
    schoolName: string,
    schoolType: string,
    region: string,
    address: Option<string>,
    foundationType: Option<string>,
    foundDate: Option<string>,
    coeducation: Option<string>,
    highSchoolType: Option<string>)

  datatype SchoolView = SchoolView(
    id: nat,
    schoolCode: string,
    schoolName: string,
    schoolType: string,
    region: string,
    address: Option<string>,
    foundationType: Option<string>,
    foundDate: Option<string>,
    coeducation: Option<string>,
    highSchoolType: Option<string>,
    graduationYearFrom: Option<int>)

  /** Years from admission to graduation: six at an elementary school, three at every other kind. */
  function YearsToGraduate(schoolType: string): nat {
    if schoolType == ELEMENTARY then 6 else 3
  }

  /**
   * The first year a class can have graduated: the year in the first four
   * characters of the founding date plus the years to graduate; none when
   * the date is missing, shorter than four characters, or its first four
   * characters are not a number.
   */
  function GraduationYearFrom(foundDate: Option<string>, schoolType: string): (r: Option<int>)
    ensures r.None? <==> foundDate.None? || |foundDate.value| < 4 || ParseInt(foundDate.value[..4]).None?
    ensures r.Some? ==> r.value == ParseInt(foundDate.value[..4]).value + YearsToGraduate(schoolType)
  {
    if foundDate.None? || |foundDate.value| < 4 then None
    else
      match ParseInt(foundDate.value[..4])
      case None => None
      case Some(year) => Some(year + YearsToGraduate(schoolType))
  }

  /** A founding date "YYYYMMDD" with a four-digit year: the first class graduates six or three years later. */
  lemma FoundedInYear(year: nat, rest: string, schoolType: string)
    requires 1000 <= year <= 9999
    ensures GraduationYearFrom(Some(Digits(year) + rest), schoolType)
            == Some(year + if schoolType == ELEMENTARY then 6 else 3)
  {
    var d := Digits(year) + rest;
    DigitsLength(year);
    assert d[..4] == Digits(year);
    DigitsRoundTrip(year);
  }

  /** A number from 1000 to 9999 has four digits. */
  lemma DigitsLength(year: nat)
    requires 1000 <= year <= 9999
    ensures |Digits(year)| == 4
  {
    assert Digits(year) == Digits(year / 10) + [DigitChar(year % 10)];
    assert Digits(year / 10) == Digits(year / 100) + [DigitChar(year / 10 % 10)];
    assert Digits(year / 100) == Digits(year / 1000) + [DigitChar(year / 100 % 10)];
  }

  /** `Integer.parseInt` accepts a sign, so a date starting "+198" or "-123" still yields a year. */
  lemma SignedYearAccepted()
    ensures GraduationYearFrom(Some("+1980301"), HIGH) == Some(201)
    ensures GraduationYearFrom(Some("-123"), ELEMENTARY) == Some(-117)
    ensures GraduationYearFrom(Some("19a0"), HIGH).None?
    ensures GraduationYearFrom(Some("198"), HIGH).None?
  {
    assert "+1980301"[..4] == "+198" && "+198"[1..] == "198";
    assert "198"[..2] == "19" && "19"[..1] == "1" && "1"[..0] == "";
    assert DigitsValue("1") == 1 && DigitsValue("19") == 19 && DigitsValue("198") == 198;
    assert "-123"[..4] == "-123" && "-123"[1..] == "123";
    assert "123"[..2] == "12" && "12"[..1] == "1";
    assert DigitsValue("12") == 12 && DigitsValue("123") == 123;
    assert "19a0"[..4] == "19a0" && !IsDigit("19a0"[2]);
  }

  /** `SchoolSearchResponse.from`: every column copied, plus the graduation year derived from the founding date. */
  function From(s: School): (v: SchoolView)
    ensures v.id == s.id && v.schoolCode == s.schoolCode && v.schoolName == s.schoolName
    ensures v.schoolType == s.schoolType && v.region == s.region && v.address == s.address
    ensures v.foundationType == s.foundationType && v.foundDate == s.foundDate
    ensures v.coeducation == s.coeducation && v.highSchoolType == s.highSchoolType
    ensures v.graduationYearFrom == GraduationYearFrom(s.foundDate, s.schoolType)
  {
    SchoolView(s.id, s.schoolCode, s.schoolName, s.schoolType, s.region, s.address, s.foundationType,
               s.foundDate, s.coeducation, s.highSchoolType, GraduationYearFrom(s.foundDate, s.schoolType))
  }

  /** The three repository searches: the name contains the keyword, optionally with the type and the region. */
  datatype Query =
    | ByName(keyword: string)
    | ByNameAndType(keyword: string, schoolType: string)
    | ByNameTypeRegion(keyword: string, schoolType: string, region: string)

  predicate Hits(q: Query, s: School) {
    IsSubstring(q.keyword, s.schoolName)
    && (q.ByName? || s.schoolType == q.schoolType)
    && (!q.ByNameTypeRegion? || s.region == q.region)
  }

  /** The rows a query returns, in the directory's order. */
  function Found(rows: seq<School>, q: Query): (r: seq<School>)
    ensures |r| <= |rows|
    ensures forall i | 0 <= i < |r| :: Hits(q, r[i]) && r[i] in rows
    ensures forall i | 0 <= i < |rows| && Hits(q, rows[i]) :: rows[i] in r
  {
    if rows == [] then []
    else if Hits(q, rows[|rows| - 1]) then Found(rows[..|rows| - 1], q) + [rows[|rows| - 1]]
    else Found(rows[..|rows| - 1], q)
  }

  /**
   * The query `search` runs: with a non-blank type and a non-blank region
   * it filters on both, with a non-blank type alone on the type, and
   * otherwise on the name only; the keyword is always trimmed.
   */
  function QueryFor(keyword: string, schoolType: Option<string>, region: Option<string>): (q: Query)
    ensures q.keyword == Trim(keyword)
    ensures q.ByNameTypeRegion? <==> HasText(schoolType) && HasText(region)
    ensures q.ByNameAndType? <==> HasText(schoolType) && !HasText(region)
    ensures !q.ByName? ==> q.schoolType == schoolType.value
    ensures q.ByNameTypeRegion? ==> q.region == region.value
  {
    if HasText(schoolType) && HasText(region) then ByNameTypeRegion(Trim(keyword), schoolType.value, region.value)
    else if HasText(schoolType) then ByNameAndType(Trim(keyword), schoolType.value)
    else ByName(Trim(keyword))
  }

  /**
   * `SchoolService.search`: nothing for a missing keyword or one shorter than
   * two characters once trimmed; otherwise the first twenty rows of the
   * chosen query, each turned into a response.
   */
  function Search(rows: seq<School>, keyword: Option<string>, schoolType: Option<string>, region: Option<string>)
    : (r: seq<SchoolView>)
    ensures keyword.None? || |Trim(keyword.value)| < 2 ==> r == []
    ensures |r| <= SEARCH_LIMIT
    ensures keyword.Some? && |Trim(keyword.value)| >= 2 ==>
      var found := Found(rows, QueryFor(keyword.value, schoolType, region));
      && |r| == (if |found| < SEARCH_LIMIT then |found| else SEARCH_LIMIT)
      && forall i | 0 <= i < |r| :: r[i] == From(found[i])
  {
    if keyword.None? || |Trim(keyword.value)| < 2 then []
    else
      var found := Found(rows, QueryFor(keyword.value, schoolType, region));
      var n := if |found| < SEARCH_LIMIT then |found| else SEARCH_LIMIT;
      seq(n, i requires 0 <= i < n => From(found[i]))
  }

  /** Every result names a directory row whose name contains the trimmed keyword. */
  lemma ResultsMatchKeyword(rows: seq<School>, keyword: string, schoolType: Option<string>, region: Option<string>, i: nat)
    requires i < |Search(rows, Some(keyword), schoolType, region)|
    ensures var v := Search(rows, Some(keyword), schoolType, region)[i];
      |Trim(keyword)| >= 2 && IsSubstring(Trim(keyword), v.schoolName)
      && exists j | 0 <= j < |rows| :: From(rows[j]) == v
  {
    var found := Found(rows, QueryFor(keyword, schoolType, region));
    assert found[i] in rows;
    var j :| 0 <= j < |rows| && rows[j] == found[i];
    assert From(rows[j]) == Search(rows, Some(keyword), schoolType, region)[i];
  }

  /** A region given without a type is ignored. */
  lemma RegionNeedsType(rows: seq<School>, keyword: Option<string>, schoolType: Option<string>, region: Option<string>)
    requires !HasText(schoolType)
    ensures Search(rows, keyword, schoolType, region) == Search(rows, keyword, schoolType, None)
  {
  }

  /** Surrounding spaces in the keyword change nothing. */
  lemma KeywordTrimmed(rows: seq<School>, keyword: string, schoolType: Option<string>, region: Option<string>)
    ensures Search(rows, Some(keyword), schoolType, region) == Search(rows, Some(Trim(keyword)), schoolType, region)
  {
    TrimTwice(keyword);
    var q := QueryFor(keyword, schoolType, region);
    assert QueryFor(Trim(keyword), schoolType, region) == q;
  }

  /** A typed search returns schools of that type only. */
  lemma TypedSearchKeepsType(rows: seq<School>, keyword: Option<string>, schoolType: Option<string>, region: Option<string>, i: nat)
    requires HasText(schoolType) && i < |Search(rows, keyword, schoolType, region)|
    ensures Search(rows, keyword, schoolType, region)[i].schoolType == schoolType.value
  {
    var found := Found(rows, QueryFor(keyword.value, schoolType, region));
    assert Hits(QueryFor(keyword.value, schoolType, region), found[i]);
  }
}
