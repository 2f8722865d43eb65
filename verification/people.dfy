/**
 * The rules of the `Person` model that do not touch the database:
 * birthdate resolution with estimation placeholders, age, the display
 * pattern of a birthdate, the birth fields of the demographics record,
 * and gender codes.
 *
 * Placeholders: an estimated birthdate on 1 July means only the year is
 * known; an estimated birthdate on the 15th means the year and month are.
 */
module People {
  import opened Values
  import opened Calendar

  /** `birthdate` together with `birthdate_estimated == 1`. */
  datatype Birthdate = Birthdate(date: Date, estimated: bool)

  datatype Person = Person(gender: Option<string>, birth: Option<Birthdate>, dateCreated: Date)

  datatype BirthError =
    | MissingYear       // "No year passed for estimated birthdate"
    | UnresolvedMonth   // the month resolved to nil, which `Date.new` refuses
    | InvalidDate       // `Date.new` refused the day or month

  /** `Date::MONTHNAMES` without its leading nil. */
  const MonthNames: seq<string> := ["January", "February", "March", "April", "May", "June",
    "July", "August", "September", "October", "November", "December"]

  /** `Date::ABBR_MONTHNAMES` without its leading nil. */
  const AbbrMonthNames: seq<string> := ["Jan", "Feb", "Mar", "Apr", "May", "Jun",
    "Jul", "Aug", "Sep", "Oct", "Nov", "Dec"]

  /** First position of `s` in `names`. */
  function Position(names: seq<string>, s: string): (r: Option<nat>)
    ensures r.Some? ==> r.value < |names| && names[r.value] == s
    ensures r.Some? ==> forall j :: 0 <= j < r.value ==> names[j] != s
    ensures r.None? <==> s !in names
  {
    if |names| == 0 then None
    else if names[0] == s then Some(0)
    else match Position(names[1..], s)
      case None => None
      case Some(i) => Some(i + 1)
  }

  /** `table.index(f)` for a Ruby month table, whose position 0 holds nil. */
  function TableIndex(names: seq<string>, f: Field): (r: Option<int>)
    ensures r == Some(0) <==> f.Nil?
    ensures r.Some? && r.value != 0 ==> 1 <= r.value <= |names| && f == Text(names[r.value - 1])
  {
    match f
    case Nil => Some(0)
    case Text(s) => (match Position(names, s) case None => None case Some(i) => Some(i + 1))
    case Num(_) => None
  }

  /** A month name or abbreviation, for months 1 to 12. */
  predicate IsMonthWord(f: Field, m: int) {
    IsWordIn(MonthNames, AbbrMonthNames, f, m)
  }

  /** `f` is the `m`-th (from 1) word of either table. */
  predicate IsWordIn(names: seq<string>, abbr: seq<string>, f: Field, m: int) {
    1 <= m <= |names| && m <= |abbr| && (f == Text(names[m - 1]) || f == Text(abbr[m - 1]))
  }

  /** No name appears twice in the table. */
  predicate Distinct(names: seq<string>) {
    forall i, j :: 0 <= i < j < |names| ==> names[i] != names[j]
  }

  /** Every name starts with a capital letter. */
  predicate Capitalised(names: seq<string>) {
    forall i :: 0 <= i < |names| ==> |names[i]| > 0 && 'A' <= names[i][0] <= 'Z'
  }

  /** A full name that is also an abbreviation names the same month. */
  predicate SameWhereShared(names: seq<string>, abbr: seq<string>) {
    forall i, j :: 0 <= i < |names| && 0 <= j < |abbr| && names[i] == abbr[j] ==> i == j
  }

  lemma MonthTables()
    ensures Distinct(MonthNames) && Distinct(AbbrMonthNames)
    ensures Capitalised(MonthNames) && Capitalised(AbbrMonthNames)
    ensures SameWhereShared(MonthNames, AbbrMonthNames)
  {
    DistinctNames();
    DistinctAbbreviations();
    SharedMay();
  }

  lemma DistinctNames()
    ensures Distinct(MonthNames) && Capitalised(MonthNames)
  {
  }

  lemma DistinctAbbreviations()
    ensures Distinct(AbbrMonthNames) && Capitalised(AbbrMonthNames)
  {
  }

  lemma SharedMay()
    ensures SameWhereShared(MonthNames, AbbrMonthNames)
  {
  }

  lemma PositionOfDistinct(names: seq<string>, i: int)
    requires 0 <= i < |names| && Distinct(names)
    ensures Position(names, names[i]) == Some(i)
  {
  }

  lemma CapitalReadsZero(s: string)
    requires |s| > 0 && 'A' <= s[0] <= 'Z'
    ensures StrToI(s) == 0
  {
    assert !IsAsciiSpace(s[0]) && !IsDigit(s[0]);
    assert SkipSpaces(s) == s;
    assert DigitRun(s) == 0;
    assert s[..0] == [];
    assert !RadixPrefixed(s) && Unsigned(s) == LeadingNumber(s) == 0;
  }

  /** A word of either table reads as the number 0. */
  lemma WordReadsZero(names: seq<string>, abbr: seq<string>, f: Field, m: int)
    requires Capitalised(names) && Capitalised(abbr) && IsWordIn(names, abbr, f, m)
    ensures ToI(f) == 0
  {
    CapitalReadsZero(f.s);
  }

  /** A month word is found at its month by the two-table lookup. */
  lemma TwoTablesFind(names: seq<string>, abbr: seq<string>, f: Field, m: int)
    requires |names| == |abbr| && Distinct(names) && Distinct(abbr)
    requires Capitalised(names) && Capitalised(abbr) && SameWhereShared(names, abbr)
    requires IsWordIn(names, abbr, f, m)
    ensures TwoTableIndex(names, abbr, f) == Some(m)
  {
    if f == Text(names[m - 1]) {
      PositionOfDistinct(names, m - 1);
    } else {
      AbbreviationFound(names, abbr, f.s, m);
    }
  }

  lemma AbbreviationFound(names: seq<string>, abbr: seq<string>, s: string, m: int)
    requires |names| == |abbr| && Distinct(abbr) && SameWhereShared(names, abbr)
    requires 1 <= m <= |abbr| && s == abbr[m - 1] && s != names[m - 1]
    ensures Position(names, s).None? && Position(abbr, s) == Some(m - 1)
  {
    PositionOfDistinct(abbr, m - 1);
  }

  /** The month of `set_birthdate`: a number, a full English name or a
      three-letter abbreviation; nil gives 0, and anything else gives nil. */
  function ResolveMonth(month: Field): (r: Option<int>)
    ensures r == Some(0) <==> month.Nil?
    ensures ToI(month) != 0 ==> r == Some(ToI(month))
    ensures forall m :: IsMonthWord(month, m) ==> r == Some(m)
    ensures r.Some? && r.value != 0 ==> r.value == ToI(month) || IsMonthWord(month, r.value)
  {
    MonthTables();
    ResolveIn(MonthNames, AbbrMonthNames, month)
  }

  /** `ResolveMonth` over any two tables with the properties of the
      month tables. */
  function ResolveIn(names: seq<string>, abbr: seq<string>, month: Field): (r: Option<int>)
    requires |names| == |abbr| && Distinct(names) && Distinct(abbr)
    requires Capitalised(names) && Capitalised(abbr) && SameWhereShared(names, abbr)
    ensures r == Some(0) <==> month.Nil?
    ensures ToI(month) != 0 ==> r == Some(ToI(month))
    ensures forall m :: IsWordIn(names, abbr, month, m) ==> r == Some(m)
    ensures r.Some? && r.value != 0 ==> r.value == ToI(month) || IsWordIn(names, abbr, month, r.value)
  {
    WordsFound(names, abbr, month);
    var n := ToI(month);
    if n != 0 then Some(n)
    else TwoTableIndex(names, abbr, month)
  }

  lemma WordsFound(names: seq<string>, abbr: seq<string>, f: Field)
    requires |names| == |abbr| && Distinct(names) && Distinct(abbr)
    requires Capitalised(names) && Capitalised(abbr) && SameWhereShared(names, abbr)
    ensures forall m :: IsWordIn(names, abbr, f, m) ==>
      ToI(f) == 0 && TwoTableIndex(names, abbr, f) == Some(m)
  {
    forall m | IsWordIn(names, abbr, f, m)
      ensures ToI(f) == 0 && TwoTableIndex(names, abbr, f) == Some(m)
    {
      WordReadsZero(names, abbr, f, m);
      TwoTablesFind(names, abbr, f, m);
    }
  }

  /** `names.index(f) || abbr.index(f)`: position 0 (nil) of the first
      table is returned as it is. */
  function TwoTableIndex(names: seq<string>, abbr: seq<string>, f: Field): (r: Option<int>)
    requires |names| == |abbr|
    ensures r == Some(0) <==> f.Nil?
    ensures r.Some? && r.value != 0 ==>
      1 <= r.value <= |names| && (f == Text(names[r.value - 1]) || f == Text(abbr[r.value - 1]))
  {
    var byName := TableIndex(names, f);
    if byName.Some? && byName.value != 0 then byName else TableIndex(abbr, f)
  }

  /** The day counts as not given: blank, "Unknown", or the number 0. */
  predicate DayUnknown(day: Field) {
    Blank(day) || day == Text("Unknown") || day == Num(0)
  }

  /** Only the two placeholder dates are ever estimated. */
  predicate Canonical(b: Birthdate) {
    !b.estimated || (b.date.month == 7 && b.date.day == 1) || b.date.day == 15
  }

  function Build(y: int, m: Option<int>, d: int, estimated: bool): Result<Birthdate, BirthError> {
    if m.None? then Err(UnresolvedMonth)
    else match Civil(y, m.value, d)
      case None => Err(InvalidDate)
      case Some(date) => Ok(Birthdate(date, estimated))
  }

  /** `set_birthdate(year, month, day)`. */
  function SetBirthdate(year: Field, month: Field, day: Field): (r: Result<Birthdate, BirthError>)
    ensures r == Err(MissingYear) <==> year.Nil?
    ensures r.Ok? ==> Valid(r.value.date) && r.value.date.year == ToI(year) && Canonical(r.value)
    // month not known: 1 July, estimated
    ensures !year.Nil? && (month.Nil? || month == Text("Unknown"))
      ==> r == Ok(Birthdate(Date(ToI(year), 7, 1), true))
    // month known, day not: the 15th, estimated
    ensures var m := ResolveMonth(month);
      !year.Nil? && month != Text("Unknown") && m.Some? && 1 <= m.value <= 12 && DayUnknown(day)
      ==> r == Ok(Birthdate(Date(ToI(year), m.value, 15), true))
    // both known: exactly that date
    ensures var m := ResolveMonth(month);
      !year.Nil? && month != Text("Unknown") && m.Some? && !DayUnknown(day)
      && Valid(Date(ToI(year), m.value, ToI(day)))
      ==> r == Ok(Birthdate(Date(ToI(year), m.value, ToI(day)), false))
    ensures !year.Nil? && month != Text("Unknown") && ResolveMonth(month).None? ==> r == Err(UnresolvedMonth)
    ensures r.Ok? && !r.value.estimated ==> !DayUnknown(day) && !month.Nil? && month != Text("Unknown")
    // a resolved month: `Date.new` decides, on the 15th when the day is not known
    ensures var m := ResolveMonth(month);
      !year.Nil? && month != Text("Unknown") && m.Some? && m.value != 0 ==>
      var c := Civil(ToI(year), m.value, if DayUnknown(day) then 15 else ToI(day));
      (c.None? <==> r == Err(InvalidDate))
      && (c.Some? ==> r == Ok(Birthdate(c.value, DayUnknown(day))))
  {
    if year.Nil? then Err(MissingYear)
    else
      var y := ToI(year);
      var m := ResolveMonth(month);
      if m == Some(0) || month == Text("Unknown") then Ok(Birthdate(Date(y, 7, 1), true))
      else if DayUnknown(day) then Build(y, m, 15, true)
      else Build(y, m, ToI(day), false)
  }

  /** A given day that reads as 0 is refused by `Date.new`. */
  lemma ZeroDayRefused(year: Field, month: Field, day: Field)
    requires !year.Nil? && month != Text("Unknown")
    requires ResolveMonth(month).Some? && ResolveMonth(month).value != 0
    requires !DayUnknown(day) && ToI(day) == 0
    ensures SetBirthdate(year, month, day) == Err(InvalidDate)
  {
    assert Civil(ToI(year), ResolveMonth(month).value, ToI(day)).None?;
  }

  /** The text "0" is not an unknown day: it reaches `Date.new`, which
      refuses day 0 of every month. */
  lemma DayTextZero(year: Field, month: Field)
    requires !year.Nil? && month != Text("Unknown")
    requires ResolveMonth(month).Some? && ResolveMonth(month).value != 0
    ensures SetBirthdate(year, month, Text("0")) == Err(InvalidDate)
  {
    var zero := Text(ShowInt(0));
    assert SetBirthdate(year, month, zero) == Err(InvalidDate) by {
      ShowIntToI(0);
      DigitNotBlank(ShowInt(0));
      ZeroDayRefused(year, month, zero);
    }
    assert zero == Text("0");
  }

  /** `set_birthdate_by_age(age, today)`: 1 July of the year `age` years
      before the reference date, estimated. */
  function SetBirthdateByAge(age: Field, today: Date): (b: Birthdate)
    ensures b.estimated && Valid(b.date) && Canonical(b)
    ensures b.date.year + ToI(age) == today.year
    ensures b.date.month == 7 && b.date.day == 1
  {
    Birthdate(Date(today.year - ToI(age), 7, 1), true)
  }

  /** The `k`-th anniversary of `b` has come by `today`. */
  predicate AnniversaryReached(b: Date, k: int, today: Date) {
    !Before(today, Date(b.year + k, b.month, b.day))
  }

  /** Whole years from `b` to `today`, by the formula of `age`. */
  function CompletedYears(b: Date, today: Date): (k: int)
    ensures AnniversaryReached(b, k, today) && !AnniversaryReached(b, k + 1, today)
  {
    (today.year - b.year)
      + (if (today.month - b.month) + (if today.day - b.day < 0 then -1 else 0) < 0 then -1 else 0)
  }

  /** The round-up of `age`: an estimated 1 July birthdate recorded this
      year, before July. */
  predicate RoundsUp(b: Birthdate, created: Date, today: Date) {
    b.estimated && b.date.month == 7 && b.date.day == 1
    && today.month < b.date.month && created.year == today.year
  }

  /** `age(today)`. */
  function Age(p: Person, today: Date): (r: Option<int>)
    ensures r.None? <==> p.birth.None?
    ensures r.Some? && !RoundsUp(p.birth.value, p.dateCreated, today)
      ==> AnniversaryReached(p.birth.value.date, r.value, today)
          && !AnniversaryReached(p.birth.value.date, r.value + 1, today)
    ensures r.Some? && RoundsUp(p.birth.value, p.dateCreated, today)
      ==> r.value == today.year - p.birth.value.date.year
  {
    match p.birth
    case None => None
    case Some(b) =>
      Some(CompletedYears(b.date, today) + (if RoundsUp(b, p.dateCreated, today) then 1 else 0))
  }

  /** A person whose birthdate was set from an age estimate keeps that age
      for the rest of the year the record was created in. */
  lemma AgeOfAgeEstimate(gender: Option<string>, age: Field, reference: Date, created: Date, today: Date)
    requires Valid(today)
    requires reference.year == today.year && created.year == today.year
    ensures Age(Person(gender, Some(SetBirthdateByAge(age, reference)), created), today) == Some(ToI(age))
  {
    var b := SetBirthdateByAge(age, reference);
    assert b.date == Date(today.year - ToI(age), 7, 1) && b.estimated;
    if today.month < 7 {
      assert RoundsUp(b, created, today);
      assert CompletedYears(b.date, today) == ToI(age) - 1;
    } else {
      assert !RoundsUp(b, created, today);
      assert CompletedYears(b.date, today) == ToI(age);
    }
  }

  /** `age_in_months(today)`: whole calendar months, days ignored. The
      source dereferences the birthdate, so it must be set. */
  function AgeInMonths(p: Person, today: Date): (r: int)
    requires p.birth.Some?
    ensures Valid(p.birth.value.date) && Valid(today) ==>
      (r - (if today.day < p.birth.value.date.day then 1 else 0)) / 12
        == CompletedYears(p.birth.value.date, today)
  {
    var b := p.birth.value.date;
    var years := today.year - b.year;
    var months := today.month - b.month;
    MonthsOverTwelve(years, months - (if today.day < b.day then 1 else 0));
    years * 12 + months
  }

  lemma MonthsOverTwelve(years: int, x: int)
    ensures -12 <= x <= 11 ==> (years * 12 + x) / 12 == years + (if x < 0 then -1 else 0)
  {
    if x < 0 {
      assert years * 12 + x == (years - 1) * 12 + (x + 12);
    }
  }

  /** The `strftime` patterns of `birthdate_formatted`. */
  datatype Pattern =
    | YearOnly      // "??/???/%Y"
    | MonthAndYear  // "??/%b/%Y"
    | FullDate      // "%d/%b/%Y"

  function Directive(p: Pattern): string {
    match p
    case YearOnly => "??/???/%Y"
    case MonthAndYear => "??/%b/%Y"
    case FullDate => "%d/%b/%Y"
  }

  predicate ShowsDay(p: Pattern) { p == FullDate }

  predicate ShowsMonth(p: Pattern) { p != YearOnly }

  /** `birthdate_formatted`: which parts of the birthdate are shown; nil for
      an estimated birthdate that is on neither placeholder. */
  function Formatted(b: Birthdate): (r: Option<Pattern>)
    ensures !b.estimated <==> r == Some(FullDate)
    ensures r == Some(YearOnly) <==> b.estimated && b.date.day == 1 && (b.date.month == 7 || b.date.month == 1)
    ensures r == Some(MonthAndYear) <==> b.estimated && b.date.day == 15
    ensures r.None? <==> b.estimated && b.date.day != 15 && !(b.date.day == 1 && (b.date.month == 7 || b.date.month == 1))
  {
    if b.estimated then
      if b.date.day == 1 && b.date.month == 7 then Some(YearOnly)
      else if b.date.day == 15 then Some(MonthAndYear)
      else if b.date.day == 1 && b.date.month == 1 then Some(YearOnly)
      else None
    else Some(FullDate)
  }

  /** The `birth_year`, `birth_month` and `birth_day` of `demographics`. */
  datatype BirthFields = BirthFields(year: Field, month: Field, day: Field)

  function DemographicsBirth(b: Birthdate): (r: BirthFields)
    ensures r.year == Num(b.date.year)
    ensures r.day == Text("Unknown") <==> b.estimated
    ensures !b.estimated ==> r.day == Num(b.date.day)
    ensures r.month == Text("Unknown") <==> b.estimated && b.date.month == 7 && b.date.day == 1
    ensures r.month != Text("Unknown") ==> r.month == Num(b.date.month)
  {
    if b.estimated then
      BirthFields(Num(b.date.year),
        if b.date.month == 7 && b.date.day == 1 then Text("Unknown") else Num(b.date.month),
        Text("Unknown"))
    else BirthFields(Num(b.date.year), Num(b.date.month), Num(b.date.day))
  }

  /** Reading the demographics birth fields back through `set_birthdate`
      gives the same birthdate exactly when it is exact or on a placeholder. */
  lemma {:induction false} DemographicsRoundTrip(b: Birthdate)
    requires Valid(b.date)
    ensures var f := DemographicsBirth(b);
      SetBirthdate(f.year, f.month, f.day) == Ok(b) <==> Canonical(b)
  {
    var f := DemographicsBirth(b);
    if !b.estimated {
      assert ToI(f.month) == b.date.month;
      assert !DayUnknown(f.day);
    } else if b.date.month == 7 && b.date.day == 1 {
    } else {
      assert ResolveMonth(f.month) == Some(b.date.month);
      assert DayUnknown(f.day);
      assert SetBirthdate(f.year, f.month, f.day) == Ok(Birthdate(Date(b.date.year, b.date.month, 15), true));
    }
  }

  /** Every birthdate `set_birthdate` records survives the round trip
      through `demographics`. */
  lemma SetBirthdateRoundTrip(year: Field, month: Field, day: Field)
    requires SetBirthdate(year, month, day).Ok?
    ensures var b := SetBirthdate(year, month, day).value;
      var f := DemographicsBirth(b);
      SetBirthdate(f.year, f.month, f.day) == Ok(b)
  {
    DemographicsRoundTrip(SetBirthdate(year, month, day).value);
  }

  /** The display pattern hides exactly the parts the demographics record
      reports as "Unknown". */
  lemma FormattedMatchesDemographics(b: Birthdate)
    requires Canonical(b)
    ensures Formatted(b).Some?
    ensures ShowsDay(Formatted(b).value) <==> DemographicsBirth(b).day.Num?
    ensures ShowsMonth(Formatted(b).value) <==> DemographicsBirth(b).month.Num?
  {
  }

  /** A year, month and day typed as decimal text resolve as the numbers
      do, except a day typed as "0", which is not the number 0. */
  lemma TypedNumbersAgree(y: int, m: int, d: int)
    requires d != 0
    ensures SetBirthdate(Text(ShowInt(y)), Text(ShowInt(m)), Text(ShowInt(d)))
      == SetBirthdate(Num(y), Num(m), Num(d))
  {
    ShowIntToI(y);
    TypedMonthResolves(m);
    TypedDayIsKnown(d);
  }

  lemma TypedMonthResolves(m: int)
    ensures ResolveMonth(Text(ShowInt(m))) == ResolveMonth(Num(m))
    ensures Text(ShowInt(m)) != Text("Unknown")
  {
    ShowIntToI(m);
    ShowIntStartsVisibly(m);
    if m == 0 {
      MonthTables();
      NotCapitalised(MonthNames, ShowInt(m));
      NotCapitalised(AbbrMonthNames, ShowInt(m));
    }
  }

  lemma NotCapitalised(names: seq<string>, s: string)
    requires Capitalised(names) && |s| > 0 && !('A' <= s[0] <= 'Z')
    ensures s !in names
  {
  }

  lemma TypedDayIsKnown(d: int)
    requires d != 0
    ensures !DayUnknown(Text(ShowInt(d))) && !DayUnknown(Num(d))
    ensures ToI(Text(ShowInt(d))) == d
  {
    ShowIntToI(d);
    ShowIntStartsVisibly(d);
    VisibleTextIsKnown(ShowInt(d));
  }

  /** Text starting with a sign or a digit is neither blank nor "Unknown". */
  lemma VisibleTextIsKnown(s: string)
    requires |s| > 0 && (s[0] == '-' || IsDigit(s[0]))
    ensures !DayUnknown(Text(s))
  {
    assert 45 <= s[0] as int <= 57;
    assert !IsBlankChar(s[0]);
    assert s != "Unknown" by {
      assert "Unknown"[0] == 'U';
    }
  }

  lemma ShowIntStartsVisibly(n: int)
    ensures |ShowInt(n)| > 0
    ensures ShowInt(n)[0] == '-' || IsDigit(ShowInt(n)[0])
  {
  }

  /** `gender` of `create_from_form`: "Female" and "Male" become their
      one-letter codes; any other value is kept. */
  function NormalizeGender(g: Field): (r: Field)
    ensures ToS(g) == "Female" ==> r == Text("F")
    ensures ToS(g) == "Male" ==> r == Text("M")
    ensures ToS(g) != "Female" && ToS(g) != "Male" ==> r == g
  {
    if ToS(g) == "Female" then Text("F")
    else if ToS(g) == "Male" then Text("M")
    else g
  }

  /** How the string `gender` column keeps a parameter. */
  function StoredGender(g: Field): Option<string> {
    match g
    case Nil => None
    case Text(s) => Some(s)
    case Num(n) => Some(ShowInt(n))
  }

  /** `sex`: the word for a one-letter code, nil for anything else. */
  function Sex(gender: Option<string>): (r: Option<string>)
    ensures r == Some("Male") <==> gender == Some("M")
    ensures r == Some("Female") <==> gender == Some("F")
    ensures r.None? <==> gender != Some("M") && gender != Some("F")
  {
    if gender == Some("M") then Some("Male")
    else if gender == Some("F") then Some("Female")
    else None
  }

  /** `sex` undoes the normalisation: it gives back "Male" or "Female"
      exactly for the words and codes that denote them. */
  lemma SexInvertsNormalize(g: Field)
    ensures Sex(StoredGender(NormalizeGender(g)))
      == if ToS(g) == "Male" || ToS(g) == "M" then Some("Male")
         else if ToS(g) == "Female" || ToS(g) == "F" then Some("Female")
         else None
    ensures g == Text("Male") || g == Text("Female") ==> Sex(StoredGender(NormalizeGender(g))) == Some(g.s)
  {
    if g.Num? {
      ShowIntStartsVisibly(g.n);
    }
  }
}
