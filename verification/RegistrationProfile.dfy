/**
 `validateRegistrationProfile` of `shared/time/registrationProfile.ts`: untyped input in,
 either the canonical profile or a list of issues out.
 */
module RegistrationProfile {
  import opened AlumniDirectoryData
  import opened Calendar
  import opened Decimal
  import opened DisplayText
  import opened JsText
  import opened Outcomes

  /** An untyped value. `NonInteger` is a number that is not an integer: a fraction, NaN or an infinity. */
  datatype JsValue = Undefined | Null | Bool(b: bool) | Text(s: string) | Integer(n: int) | NonInteger | Other

  /** Data and library functions that are used but not modelled. */
  datatype Tables = Tables(
    countries: set<string>,
    subdivisions: set<string>,
    upper: string -> string,
    lower: string -> string,
    nfc: string -> string,
    phoneIsAssigned: string -> bool)

  const EMPLOYMENT_STATUSES: set<string> := {"employed", "self_employed", "student", "not_currently_employed", "retired"}

  const MIN_BIRTH_YEAR := 1900
  const MAX_CODE_POINTS := 100

  /** ISO codes are upper-case and untrimmable; status names are lower-case. */
  ghost predicate Sound(t: Tables) {
    && IsNfc(t.nfc)
    && (forall c :: c in t.countries || c in t.subdivisions ==> c != "" && Trim(c) == c && t.upper(c) == c)
    && (forall s :: s in EMPLOYMENT_STATUSES ==> t.lower(s) == s)
  }

  datatype Input = Input(
    phone: JsValue, birthYear: JsValue, residenceCity: JsValue, residenceRegion: JsValue,
    residenceCountryCode: JsValue, employmentStatus: JsValue, company: JsValue, occupation: JsValue)

  datatype Profile = Profile(
    phone: string, birthYear: int, residenceCity: string, residenceRegion: Option<string>,
    residenceCountryCode: string, employmentStatus: string, company: Option<string>, occupation: Option<string>)

  datatype Field =
    | Phone | BirthYear | ResidenceCountryCode | ResidenceCity | ResidenceRegion | EmploymentStatus | Company | Occupation

  datatype Code = Required | InvalidType | InvalidFormat | OutOfRange | TooLong

  datatype Issue = Issue(field: Field, code: Code)

  datatype Validation = Valid(value: Profile) | Rejected(issues: seq<Issue>)

  // ----- Predicates of the source -----

  /** `+`, a digit from 1 to 9, and 7 to 14 more digits. */
  predicate MatchesE164(s: string) {
    9 <= |s| <= 16 && s[0] == '+' && '1' <= s[1] <= '9' && AllDigits(s[2..])
  }

  predicate IsE164Phone(t: Tables, s: string) { MatchesE164(s) && t.phoneIsAssigned(s) }

  function CurrentUtcYear(now: TimeValue): Number {
    match now
    case Invalid => NaN
    case At(ms) => Num(YearOf(ms))
  }

  predicate IsBirthYear(value: Number, now: TimeValue) {
    && value.Num?
    && CurrentUtcYear(now).Num?
    && MIN_BIRTH_YEAR <= value.n <= CurrentUtcYear(now).n
  }

  predicate IsIsoSubdivisionCode(t: Tables, value: string, country: string) {
    country in t.countries && country + "-" <= value && value in t.subdivisions
  }

  predicate RequiresCompany(status: string) { status == "employed" || status == "self_employed" }

  // ----- What is asked of each field -----

  function Listed(field: Field, code: Option<Code>): seq<Issue> {
    match code
    case None => []
    case Some(c) => [Issue(field, c)]
  }

  function PhoneCode(t: Tables, v: JsValue): Option<Code> {
    match v
    case Undefined => Some(Required)
    case Null => Some(Required)
    case Text(s) => if Trim(s) == "" then Some(Required) else if IsE164Phone(t, Trim(s)) then None else Some(InvalidFormat)
    case _ => Some(InvalidType)
  }

  /** The number a birth year stands for; NaN unless it is a number or a text of four digits. */
  function BirthYearNumber(v: JsValue): Number {
    match v
    case Integer(n) => Num(n)
    case Text(s) => if |Trim(s)| == 4 && AllDigits(Trim(s)) then Num(ValueOf(Trim(s))) else NaN
    case _ => NaN
  }

  function BirthYearCode(v: JsValue, now: TimeValue): Option<Code> {
    match v
    case Undefined => Some(Required)
    case Null => Some(Required)
    case Bool(_) => Some(InvalidType)
    case Other => Some(InvalidType)
    case _ =>
      if v == Text("") then Some(Required)
      else if IsBirthYear(BirthYearNumber(v), now) then None
      else Some(OutOfRange)
  }

  /** A code read from text; other values read as empty. */
  function Candidate(v: JsValue, fold: string -> string): string {
    if v.Text? then fold(Trim(v.s)) else ""
  }

  function CountryCode(t: Tables, v: JsValue): Option<Code> {
    match v
    case Undefined => Some(Required)
    case Null => Some(Required)
    case Text(_) =>
      var c := Candidate(v, t.upper);
      if c == "" then Some(Required) else if c in t.countries then None else Some(InvalidFormat)
    case _ => Some(InvalidType)
  }

  function TextCode(t: Tables, v: JsValue, required: bool): Option<Code> {
    var missing := if required then Some(Required) else None;
    match v
    case Undefined => missing
    case Null => missing
    case Text(s) =>
      if s == "" then missing
      else if !HasNoControl(s) then Some(InvalidFormat)
      else
        var value := NormalizeDisplayText(t.nfc, s);
        if value == "" then missing
        else if |value| > MAX_CODE_POINTS then Some(TooLong)
        else None
    case _ => Some(InvalidType)
  }

  /** The display text of a value, if it has one. */
  function DisplayOf(t: Tables, v: JsValue): Option<string> {
    if v.Text? && v.s != "" && NormalizeDisplayText(t.nfc, v.s) != "" then Some(NormalizeDisplayText(t.nfc, v.s)) else None
  }

  /** The text taken over: none if there is nothing to show or something to object to. */
  function TextValue(t: Tables, v: JsValue, required: bool): Option<string> {
    if TextCode(t, v, required).None? then DisplayOf(t, v) else None
  }

  /** Regions are optional, but for the United States, and must belong to the country. */
  function RegionCode(t: Tables, v: JsValue, country: string): Option<Code> {
    var c := Candidate(v, t.upper);
    if !v.Undefined? && !v.Null? && !v.Text? then Some(InvalidType)
    else if c == "" then (if country == "US" then Some(Required) else None)
    else if IsIsoSubdivisionCode(t, c, country) then None
    else Some(InvalidFormat)
  }

  function EmploymentCode(t: Tables, v: JsValue): Option<Code> {
    match v
    case Undefined => Some(Required)
    case Null => Some(Required)
    case Text(_) =>
      var c := Candidate(v, t.lower);
      if c == "" then Some(Required) else if c in EMPLOYMENT_STATUSES then None else Some(InvalidFormat)
    case _ => Some(InvalidType)
  }

  /** A company is asked for only from the employed. */
  function CompanyAsked(t: Tables, input: Input): bool {
    RequiresCompany(Candidate(input.employmentStatus, t.lower))
  }

  function CodeFor(t: Tables, input: Input, now: TimeValue, field: Field): Option<Code> {
    match field
    case Phone => PhoneCode(t, input.phone)
    case BirthYear => BirthYearCode(input.birthYear, now)
    case ResidenceCountryCode => CountryCode(t, input.residenceCountryCode)
    case ResidenceCity => TextCode(t, input.residenceCity, true)
    case ResidenceRegion => RegionCode(t, input.residenceRegion, Candidate(input.residenceCountryCode, t.upper))
    case EmploymentStatus => EmploymentCode(t, input.employmentStatus)
    case Company => if CompanyAsked(t, input) then TextCode(t, input.company, true) else None
    case Occupation => TextCode(t, input.occupation, false)
  }

  const FIELD_ORDER: seq<Field> :=
    [Phone, BirthYear, ResidenceCountryCode, ResidenceCity, ResidenceRegion, EmploymentStatus, Company, Occupation]

  function IssuesOf(t: Tables, input: Input, now: TimeValue, fields: seq<Field>): seq<Issue> {
    if fields == [] then []
    else
      var last := fields[|fields| - 1];
      IssuesOf(t, input, now, fields[..|fields| - 1]) + Listed(last, CodeFor(t, input, now, last))
  }

  /** What validation amounts to: the issues of the fields in order, or else the canonical profile. */
  function Assess(t: Tables, input: Input, now: TimeValue): Validation {
    var issues := IssuesOf(t, input, now, FIELD_ORDER);
    if issues == [] then Valid(Canonical(t, input)) else Rejected(issues)
  }

  /** The profile read from an input, field by field, without asking whether it is a good one. */
  function Canonical(t: Tables, input: Input): Profile {
    var region := Candidate(input.residenceRegion, t.upper);
    var year := BirthYearNumber(input.birthYear);
    var city := DisplayOf(t, input.residenceCity);
    Profile(
      if input.phone.Text? then Trim(input.phone.s) else "",
      if year.Num? then year.n else 0,
      if city.Some? then city.value else "",
      if region == "" then None else Some(region),
      Candidate(input.residenceCountryCode, t.upper),
      Candidate(input.employmentStatus, t.lower),
      if CompanyAsked(t, input) then DisplayOf(t, input.company) else None,
      DisplayOf(t, input.occupation))
  }

  // ----- The code -----

  /** The list of issues, shared by the checks that add to it. */
  class IssueList {
    var items: seq<Issue>

    constructor ()
      ensures items == []
    {
      items := [];
    }

    method Push(field: Field, code: Code)
      modifies this
      ensures items == old(items) + [Issue(field, code)]
    {
      items := items + [Issue(field, code)];
    }
  }

  method AddTextIssue(t: Tables, issues: IssueList, field: Field, rawValue: JsValue, required: bool) returns (r: Option<string>)
    modifies issues
    ensures issues.items == old(issues.items) + Listed(field, TextCode(t, rawValue, required))
    ensures r == TextValue(t, rawValue, required)
  {
    if rawValue.Undefined? || rawValue.Null? || rawValue == Text("") {
      if required {
        issues.Push(field, Required);
      }
      return None;
    }
    if !rawValue.Text? {
      issues.Push(field, InvalidType);
      return None;
    }
    if !HasNoControl(rawValue.s) {
      issues.Push(field, InvalidFormat);
      return None;
    }
    var value := NormalizeDisplayText(t.nfc, rawValue.s);
    if |value| == 0 {
      if required {
        issues.Push(field, Required);
      }
      return None;
    }
    if |value| > MAX_CODE_POINTS {
      issues.Push(field, TooLong);
      return None;
    }
    return Some(value);
  }

  method CheckPhone(t: Tables, issues: IssueList, input: Input, now: TimeValue) returns (phone: string)
    modifies issues
    ensures issues.items == old(issues.items) + Listed(Phone, CodeFor(t, input, now, Phone))
    ensures phone == Canonical(t, input).phone
  {
    hide IsE164Phone, Trim;
    phone := if input.phone.Text? then Trim(input.phone.s) else "";
    if input.phone.Undefined? || input.phone.Null? || (input.phone.Text? && phone == "") {
      issues.Push(Phone, Required);
    } else if !input.phone.Text? {
      issues.Push(Phone, InvalidType);
    } else if !IsE164Phone(t, phone) {
      issues.Push(Phone, InvalidFormat);
    }
  }

  method CheckBirthYear(t: Tables, issues: IssueList, input: Input, now: TimeValue) returns (birthYear: Number)
    modifies issues
    ensures issues.items == old(issues.items) + Listed(BirthYear, CodeFor(t, input, now, BirthYear))
    ensures birthYear == BirthYearNumber(input.birthYear)
  {
    hide IsBirthYear, Trim;
    birthYear := NaN;
    if input.birthYear.Undefined? || input.birthYear.Null? || input.birthYear == Text("") {
      issues.Push(BirthYear, Required);
      assert Trim("") == "" by { EmptyTrims(); }
    } else if input.birthYear.Bool? || input.birthYear.Other? {
      issues.Push(BirthYear, InvalidType);
    } else {
      birthYear := BirthYearNumber(input.birthYear);
    }
    if !input.birthYear.Undefined? && !input.birthYear.Null? && input.birthYear != Text("")
       && (input.birthYear.Integer? || input.birthYear.NonInteger? || input.birthYear.Text?)
       && !IsBirthYear(birthYear, now) {
      issues.Push(BirthYear, OutOfRange);
    }
  }

  lemma EmptyTrims()
    ensures Trim("") == ""
  {
  }

  method CheckCountry(t: Tables, issues: IssueList, input: Input, now: TimeValue) returns (country: string)
    modifies issues
    ensures issues.items == old(issues.items) + Listed(ResidenceCountryCode, CodeFor(t, input, now, ResidenceCountryCode))
    ensures country == Candidate(input.residenceCountryCode, t.upper)
  {
    hide Candidate;
    country := Candidate(input.residenceCountryCode, t.upper);
    if input.residenceCountryCode.Undefined? || input.residenceCountryCode.Null?
       || (input.residenceCountryCode.Text? && country == "") {
      issues.Push(ResidenceCountryCode, Required);
    } else if !input.residenceCountryCode.Text? {
      issues.Push(ResidenceCountryCode, InvalidType);
    } else if country !in t.countries {
      issues.Push(ResidenceCountryCode, InvalidFormat);
    }
  }

  method CheckRegion(t: Tables, issues: IssueList, input: Input, now: TimeValue, country: string)
    returns (region: Option<string>)
    requires country == Candidate(input.residenceCountryCode, t.upper)
    modifies issues
    ensures issues.items == old(issues.items) + Listed(ResidenceRegion, CodeFor(t, input, now, ResidenceRegion))
    ensures region == Canonical(t, input).residenceRegion
  {
    hide Trim, IsIsoSubdivisionCode;
    var candidate := if input.residenceRegion.Text? then Some(t.upper(Trim(input.residenceRegion.s))) else None;
    var missing := candidate == None || candidate == Some("");
    if !input.residenceRegion.Undefined? && !input.residenceRegion.Null? && !input.residenceRegion.Text? {
      issues.Push(ResidenceRegion, InvalidType);
    } else if country == "US" && missing {
      issues.Push(ResidenceRegion, Required);
    } else if !missing && !IsIsoSubdivisionCode(t, candidate.value, country) {
      issues.Push(ResidenceRegion, InvalidFormat);
    }
    region := if missing then None else candidate;
  }

  method CheckEmployment(t: Tables, issues: IssueList, input: Input, now: TimeValue) returns (status: string)
    modifies issues
    ensures issues.items == old(issues.items) + Listed(EmploymentStatus, CodeFor(t, input, now, EmploymentStatus))
    ensures status == Candidate(input.employmentStatus, t.lower)
  {
    hide Candidate;
    status := Candidate(input.employmentStatus, t.lower);
    if input.employmentStatus.Undefined? || input.employmentStatus.Null?
       || (input.employmentStatus.Text? && status == "") {
      issues.Push(EmploymentStatus, Required);
    } else if !input.employmentStatus.Text? {
      issues.Push(EmploymentStatus, InvalidType);
    } else if status !in EMPLOYMENT_STATUSES {
      issues.Push(EmploymentStatus, InvalidFormat);
    }
  }

  /** `validateRegistrationProfile`: its verdict is `Assess`, so its last guards never reject on their own. */
  method ValidateRegistrationProfile(t: Tables, input: Input, now: TimeValue) returns (r: Validation)
    ensures r == Assess(t, input, now)
  {
    hide IsBirthYear, TextCode, TextValue, DisplayOf, CodeFor, IssuesOf, CompanyAsked;
    TextFields(t, input, now);
    hide Candidate, BirthYearNumber, Trim, RequiresCompany, Listed, Canonical;
    var issues := new IssueList();
    var phone := CheckPhone(t, issues, input, now);
    IssuesOfAppend(t, input, now, [], Phone);
    var birthYear := CheckBirthYear(t, issues, input, now);
    IssuesOfAppend(t, input, now, [Phone], BirthYear);
    var country := CheckCountry(t, issues, input, now);
    IssuesOfAppend(t, input, now, [Phone, BirthYear], ResidenceCountryCode);
    var city := AddTextIssue(t, issues, ResidenceCity, input.residenceCity, true);
    IssuesOfAppend(t, input, now, [Phone, BirthYear, ResidenceCountryCode], ResidenceCity);
    assert issues.items == IssuesOf(t, input, now, FIELD_ORDER[..4]) by { NoFieldsNoIssues(t, input, now); PrefixesOfOrder(); }
    var region := CheckRegion(t, issues, input, now, country);
    IssuesOfAppend(t, input, now, FIELD_ORDER[..4], ResidenceRegion);
    var employment := CheckEmployment(t, issues, input, now);
    IssuesOfAppend(t, input, now, FIELD_ORDER[..5], EmploymentStatus);
    var requiresCompany := employment in EMPLOYMENT_STATUSES && RequiresCompany(employment);
    OnlyTheEmployedHaveCompanies(employment);
    var company := None;
    if requiresCompany {
      company := AddTextIssue(t, issues, Company, input.company, true);
    }
    assert Listed(Company, None) == [] by { NothingListed(Company); }
    IssuesOfAppend(t, input, now, FIELD_ORDER[..6], Company);
    var occupation := AddTextIssue(t, issues, Occupation, input.occupation, false);
    IssuesOfAppend(t, input, now, FIELD_ORDER[..7], Occupation);
    PrefixesOfOrder();
    assert issues.items == IssuesOf(t, input, now, FIELD_ORDER);
    if issues.items == [] {
      NoIssueMeansReady(t, input, now);
      NoIssueMeansShown(t, input, now);
      CanonicalIs(t, input);
    }
    if |issues.items| > 0
       || country !in t.countries
       || employment !in EMPLOYMENT_STATUSES
       || !IsBirthYear(birthYear, now)
       || city == None {
      return Rejected(issues.items);
    }
    return Valid(Profile(phone, birthYear.n, city.value, region, country, employment, company, occupation));
  }

  lemma CanonicalIs(t: Tables, input: Input)
    requires BirthYearNumber(input.birthYear).Num? && DisplayOf(t, input.residenceCity).Some?
    ensures
      var p := Canonical(t, input);
      p == Profile(p.phone, BirthYearNumber(input.birthYear).n, DisplayOf(t, input.residenceCity).value, p.residenceRegion,
                   Candidate(input.residenceCountryCode, t.upper), Candidate(input.employmentStatus, t.lower),
                   if CompanyAsked(t, input) then DisplayOf(t, input.company) else None, DisplayOf(t, input.occupation))
  {
    hide DisplayOf, Candidate, BirthYearNumber, CompanyAsked, Trim;
  }

  lemma TextFields(t: Tables, input: Input, now: TimeValue)
    ensures CodeFor(t, input, now, ResidenceCity) == TextCode(t, input.residenceCity, true)
    ensures CompanyAsked(t, input) == RequiresCompany(Candidate(input.employmentStatus, t.lower))
    ensures CodeFor(t, input, now, Company) == if CompanyAsked(t, input) then TextCode(t, input.company, true) else None
    ensures CodeFor(t, input, now, Occupation) == TextCode(t, input.occupation, false)
  {
  }

  lemma NoFieldsNoIssues(t: Tables, input: Input, now: TimeValue)
    ensures IssuesOf(t, input, now, []) == []
  {
  }

  lemma NothingListed(field: Field)
    ensures Listed(field, None) == []
  {
  }

  lemma PrefixesOfOrder()
    ensures [] + [Phone] == [Phone]
    ensures [Phone] + [BirthYear] == [Phone, BirthYear]
    ensures [Phone, BirthYear] + [ResidenceCountryCode] == [Phone, BirthYear, ResidenceCountryCode]
    ensures [Phone, BirthYear, ResidenceCountryCode] + [ResidenceCity] == FIELD_ORDER[..4]
    ensures FIELD_ORDER[..4] + [ResidenceRegion] == FIELD_ORDER[..5]
    ensures FIELD_ORDER[..5] + [EmploymentStatus] == FIELD_ORDER[..6]
    ensures FIELD_ORDER[..6] + [Company] == FIELD_ORDER[..7]
    ensures FIELD_ORDER[..7] + [Occupation] == FIELD_ORDER
  {
  }

  lemma OnlyTheEmployedHaveCompanies(status: string)
    ensures RequiresCompany(status) ==> status in EMPLOYMENT_STATUSES
  {
  }

  lemma {:induction false} NoIssuesMeansNoCodes(t: Tables, input: Input, now: TimeValue, fields: seq<Field>)
    ensures IssuesOf(t, input, now, fields) == [] <==> forall f :: f in fields ==> CodeFor(t, input, now, f).None?
    decreases |fields|
  {
    hide CodeFor;
    if fields != [] {
      var before, last := fields[..|fields| - 1], fields[|fields| - 1];
      NoIssuesMeansNoCodes(t, input, now, before);
      assert fields == before + [last];
      IssuesOfAppend(t, input, now, before, last);
      hide IssuesOf;
      assert forall f :: f in fields <==> f in before || f == last;
    }
  }

  /** Where the checks object to nothing, the last guards have nothing to object to either. */
  lemma NoIssueMeansReady(t: Tables, input: Input, now: TimeValue)
    requires IssuesOf(t, input, now, FIELD_ORDER) == []
    ensures Candidate(input.residenceCountryCode, t.upper) in t.countries
    ensures Candidate(input.employmentStatus, t.lower) in EMPLOYMENT_STATUSES
    ensures IsBirthYear(BirthYearNumber(input.birthYear), now) && BirthYearNumber(input.birthYear).Num?
    ensures TextValue(t, input.residenceCity, true).Some?
  {
    hide IssuesOf, Candidate, BirthYearNumber, NormalizeDisplayText, HasNoControl, IsBirthYear;
    NoIssuesMeansNoCodes(t, input, now, FIELD_ORDER);
    assert ResidenceCountryCode in FIELD_ORDER && EmploymentStatus in FIELD_ORDER;
    assert BirthYear in FIELD_ORDER && ResidenceCity in FIELD_ORDER;
    assert CodeFor(t, input, now, ResidenceCountryCode).None?;
    assert CodeFor(t, input, now, EmploymentStatus).None?;
    assert CodeFor(t, input, now, ResidenceCity).None?;
    assert CodeFor(t, input, now, BirthYear).None?;
    BirthYearIsANumber(BirthYearNumber(input.birthYear), now);
  }

  /** And the texts taken over are those of the canonical profile. */
  lemma NoIssueMeansShown(t: Tables, input: Input, now: TimeValue)
    requires IssuesOf(t, input, now, FIELD_ORDER) == []
    ensures TextValue(t, input.residenceCity, true) == DisplayOf(t, input.residenceCity)
    ensures CompanyAsked(t, input) ==> TextValue(t, input.company, true) == DisplayOf(t, input.company)
    ensures TextValue(t, input.occupation, false) == DisplayOf(t, input.occupation)
  {
    hide IssuesOf, TextCode, DisplayOf, CompanyAsked;
    NoIssuesMeansNoCodes(t, input, now, FIELD_ORDER);
    EveryFieldOnce();
    assert CodeFor(t, input, now, ResidenceCity).None?;
    assert CodeFor(t, input, now, Company).None? && CodeFor(t, input, now, Occupation).None?;
  }

  lemma BirthYearIsANumber(y: Number, now: TimeValue)
    ensures IsBirthYear(y, now) ==> y.Num?
  {
  }

  lemma IssuesOfAppend(t: Tables, input: Input, now: TimeValue, fields: seq<Field>, field: Field)
    ensures IssuesOf(t, input, now, fields + [field]) ==
            IssuesOf(t, input, now, fields) + Listed(field, CodeFor(t, input, now, field))
  {
    assert (fields + [field])[..|fields|] == fields;
  }

  // ----- What validation guarantees -----

  lemma {:induction false} IssuesNameTheirFields(t: Tables, input: Input, now: TimeValue, fields: seq<Field>)
    requires forall i, j :: 0 <= i < j < |fields| ==> fields[i] != fields[j]
    ensures
      var issues := IssuesOf(t, input, now, fields);
      && (forall x :: x in issues ==> x.field in fields && CodeFor(t, input, now, x.field) == Some(x.code))
      && (forall i, j :: 0 <= i < j < |issues| ==> issues[i].field != issues[j].field)
    decreases |fields|
  {
    hide CodeFor;
    if fields != [] {
      var n := |fields| - 1;
      IssuesNameTheirFields(t, input, now, fields[..n]);
      var before, last := IssuesOf(t, input, now, fields[..n]), Listed(fields[n], CodeFor(t, input, now, fields[n]));
      assert IssuesOf(t, input, now, fields) == before + last;
      assert forall i :: 0 <= i < |last| ==>
               last[i].field == fields[n] && CodeFor(t, input, now, last[i].field) == Some(last[i].code);
      assert fields == fields[..n] + [fields[n]];
      assert fields[n] !in fields[..n];
      DistinctFieldsAppend(before, last, fields[n]);
      assert forall x :: x in before + last <==> x in before || x in last;
    }
  }

  lemma DistinctFieldsAppend(before: seq<Issue>, last: seq<Issue>, field: Field)
    requires forall i, j :: 0 <= i < j < |before| ==> before[i].field != before[j].field
    requires forall i :: 0 <= i < |before| ==> before[i].field != field
    requires |last| <= 1 && forall i :: 0 <= i < |last| ==> last[i].field == field
    ensures forall i, j :: 0 <= i < j < |before + last| ==> (before + last)[i].field != (before + last)[j].field
  {
  }

  /** Every field is checked once. */
  lemma EveryFieldOnce()
    ensures forall i, j :: 0 <= i < j < |FIELD_ORDER| ==> FIELD_ORDER[i] != FIELD_ORDER[j]
    ensures forall f: Field :: f in FIELD_ORDER
  {
    forall f: Field
      ensures f in FIELD_ORDER
    {
      match f
      case Phone => assert FIELD_ORDER[0] == f;
      case BirthYear => assert FIELD_ORDER[1] == f;
      case ResidenceCountryCode => assert FIELD_ORDER[2] == f;
      case ResidenceCity => assert FIELD_ORDER[3] == f;
      case ResidenceRegion => assert FIELD_ORDER[4] == f;
      case EmploymentStatus => assert FIELD_ORDER[5] == f;
      case Company => assert FIELD_ORDER[6] == f;
      case Occupation => assert FIELD_ORDER[7] == f;
    }
  }

  lemma {:induction false} FaultsAreListed(t: Tables, input: Input, now: TimeValue, fields: seq<Field>)
    ensures forall f :: f in fields && CodeFor(t, input, now, f).Some? ==>
              Issue(f, CodeFor(t, input, now, f).value) in IssuesOf(t, input, now, fields)
    decreases |fields|
  {
    hide CodeFor;
    if fields != [] {
      var n := |fields| - 1;
      FaultsAreListed(t, input, now, fields[..n]);
      assert fields == fields[..n] + [fields[n]];
    }
  }

  /** For every input: no field is reported twice, and exactly the fields found wanting are reported. */
  lemma ReportsEachFaultOnce(t: Tables, input: Input, now: TimeValue)
    ensures Assess(t, input, now).Rejected? <==> exists f :: CodeFor(t, input, now, f).Some?
    ensures Assess(t, input, now).Rejected? ==>
              var issues := Assess(t, input, now).issues;
              && issues != []
              && (forall i, j :: 0 <= i < j < |issues| ==> issues[i].field != issues[j].field)
              && (forall f, c :: Issue(f, c) in issues <==> CodeFor(t, input, now, f) == Some(c))
  {
    hide CodeFor, IssuesOf;
    EveryFieldOnce();
    IssuesNameTheirFields(t, input, now, FIELD_ORDER);
    FaultsAreListed(t, input, now, FIELD_ORDER);
    NoIssuesMeansNoCodes(t, input, now, FIELD_ORDER);
  }

  /** A profile as input: texts, the year as a number, null for what is missing. */
  function InputOf(p: Profile): Input {
    Input(Text(p.phone), Integer(p.birthYear), Text(p.residenceCity), OrNull(p.residenceRegion), Text(p.residenceCountryCode),
          Text(p.employmentStatus), OrNull(p.company), OrNull(p.occupation))
  }

  function OrNull(v: Option<string>): JsValue {
    match v
    case None => Null
    case Some(s) => Text(s)
  }

  lemma NothingToTrim(s: string)
    requires s != [] && !IsWhiteSpace(s[0]) && !IsWhiteSpace(s[|s| - 1])
    ensures Trim(s) == s
  {
  }

  lemma PhoneIsStable(t: Tables, v: JsValue)
    requires PhoneCode(t, v).None?
    ensures v.Text? && PhoneCode(t, Text(Trim(v.s))).None? && Trim(Trim(v.s)) == Trim(v.s)
  {
    hide Trim;
    var p := Trim(v.s);
    assert IsDigit(p[2..][|p| - 3]);
    NothingToTrim(p);
  }

  lemma YearIsStable(v: JsValue, now: TimeValue, later: TimeValue)
    requires BirthYearCode(v, now).None? && now.At? && later.At? && now.ms <= later.ms
    ensures BirthYearNumber(v).Num? && BirthYearCode(Integer(BirthYearNumber(v).n), later).None?
  {
    hide YearOf;
    YearOrder(now.ms, later.ms);
  }

  lemma CodeIsStable(t: Tables, c: string)
    requires Sound(t) && (c in t.countries || c in t.subdivisions)
    ensures Candidate(Text(c), t.upper) == c && c != ""
  {
    hide Trim, IsNfc;
  }

  lemma StatusIsStable(t: Tables, s: string)
    requires Sound(t) && s in EMPLOYMENT_STATUSES
    ensures Candidate(Text(s), t.lower) == s && s != ""
  {
    hide Trim, IsNfc;
    assert !IsWhiteSpace(s[0]) && !IsWhiteSpace(s[|s| - 1]);
    NothingToTrim(s);
  }

  lemma TextIsStable(t: Tables, v: JsValue, required: bool)
    requires Sound(t) && TextCode(t, v, required).None?
    ensures required ==> DisplayOf(t, v).Some?
    ensures
      var w := OrNull(DisplayOf(t, v));
      TextCode(t, w, required).None? && DisplayOf(t, w) == DisplayOf(t, v)
  {
    hide NormalizeDisplayText, HasNoControl, IsNfc;
    if v.Text? { DisplayTextIsCanonical(t.nfc, v.s); }
  }

  lemma NullIsNoCandidate(t: Tables)
    ensures Candidate(Null, t.upper) == ""
  {
  }

  lemma RegionIsStable(t: Tables, v: JsValue, country: string)
    requires Sound(t) && RegionCode(t, v, country).None?
    ensures
      var c := Candidate(v, t.upper);
      var w := OrNull(if c == "" then None else Some(c));
      RegionCode(t, w, country).None? && Candidate(w, t.upper) == c
  {
    hide Candidate, Sound;
    NullIsNoCandidate(t);
    var c := Candidate(v, t.upper);
    if c != "" {
      CodeIsStable(t, c);
    }
  }

  /** What each field of an accepted input satisfies. */
  lemma AcceptedFields(t: Tables, input: Input, now: TimeValue)
    requires Assess(t, input, now).Valid?
    ensures forall f :: CodeFor(t, input, now, f).None?
    ensures now.At?
    ensures Candidate(input.residenceCountryCode, t.upper) in t.countries
    ensures Candidate(input.employmentStatus, t.lower) in EMPLOYMENT_STATUSES
  {
    hide CodeFor, IssuesOf, Candidate, BirthYearNumber;
    EveryFieldOnce();
    NoIssuesMeansNoCodes(t, input, now, FIELD_ORDER);
    NoIssueMeansReady(t, input, now);
  }

  /** Validating a canonical profile again, at the same or a later time, accepts it unchanged. */
  lemma ValidationIsACanonicaliser(t: Tables, input: Input, now: TimeValue, later: TimeValue)
    requires Sound(t) && Assess(t, input, now).Valid?
    requires now.At? && later.At? && now.ms <= later.ms
    ensures Assess(t, InputOf(Assess(t, input, now).value), later) == Assess(t, input, now)
  {
    hide Sound, TextCode, DisplayOf, Trim, PhoneCode, BirthYearCode, BirthYearNumber, RegionCode, Candidate;
    hide RequiresCompany, IssuesOf;
    AcceptedFields(t, input, now);
    var p := Assess(t, input, now).value;
    var again := InputOf(p);
    assert CodeFor(t, input, now, Phone).None? && CodeFor(t, input, now, BirthYear).None?;
    PhoneIsStable(t, input.phone);
    YearIsStable(input.birthYear, now, later);
    CodeIsStable(t, p.residenceCountryCode);
    StatusIsStable(t, p.employmentStatus);
    assert CodeFor(t, input, now, ResidenceCity).None? && CodeFor(t, input, now, Occupation).None?;
    TextIsStable(t, input.residenceCity, true);
    TextIsStable(t, input.occupation, false);
    assert CodeFor(t, input, now, ResidenceRegion).None? && CodeFor(t, input, now, Company).None?;
    RegionIsStable(t, input.residenceRegion, p.residenceCountryCode);
    if CompanyAsked(t, input) {
      TextIsStable(t, input.company, true);
    }
    CountryAndStatusAreCodes(t, again);
    IntegerIsItself(p.birthYear);
    forall f
      ensures CodeFor(t, again, later, f).None?
    {
    }
    NoIssuesMeansNoCodes(t, again, later, FIELD_ORDER);
  }

  lemma IntegerIsItself(n: int)
    ensures BirthYearNumber(Integer(n)) == Num(n)
  {
  }

  lemma CountryAndStatusAreCodes(t: Tables, input: Input)
    ensures
      var c := Candidate(input.residenceCountryCode, t.upper);
      input.residenceCountryCode.Text? && c != "" && c in t.countries ==> CountryCode(t, input.residenceCountryCode).None?
    ensures
      var s := Candidate(input.employmentStatus, t.lower);
      input.employmentStatus.Text? && s != "" && s in EMPLOYMENT_STATUSES ==> EmploymentCode(t, input.employmentStatus).None?
  {
    hide Candidate;
  }

  // ----- Well-formed profiles -----

  /** A line fit for display: normalised and tidy, 1 to 100 code points, no control character. */
  ghost predicate IsDisplayLine(t: Tables, s: string) {
    t.nfc(s) == s && Tidy(s, IsWhiteSpace) && HasNoControl(s) && 1 <= |s| <= 100
  }

  /** `+`, a digit that is not 0, 7 to 14 more digits, and assigned. */
  ghost predicate IsPhoneNumber(t: Tables, s: string) {
    && t.phoneIsAssigned(s)
    && exists first: char, rest: string ::
         && s == ['+', first] + rest
         && '1' <= first <= '9' && 7 <= |rest| <= 14 && forall i :: 0 <= i < |rest| ==> '0' <= rest[i] <= '9'
  }

  /** A listed subdivision whose code is that of the country, a hyphen, and more. */
  ghost predicate IsRegionOf(t: Tables, country: string, region: string) {
    country in t.countries && region in t.subdivisions && exists rest :: region == country + "-" + rest
  }

  /** What a canonical profile is, said without the validator. */
  ghost predicate WellFormed(t: Tables, p: Profile, now: TimeValue) {
    && IsPhoneNumber(t, p.phone)
    && now.At? && 1900 <= p.birthYear <= YearOf(now.ms)
    && p.residenceCountryCode in t.countries
    && IsDisplayLine(t, p.residenceCity)
    && (p.residenceRegion.Some? ==> IsRegionOf(t, p.residenceCountryCode, p.residenceRegion.value))
    && (p.residenceCountryCode == "US" ==> p.residenceRegion.Some?)
    && p.employmentStatus in {"employed", "self_employed", "student", "not_currently_employed", "retired"}
    && (p.company.Some? <==> p.employmentStatus == "employed" || p.employmentStatus == "self_employed")
    && (p.company.Some? ==> IsDisplayLine(t, p.company.value))
    && (p.occupation.Some? ==> IsDisplayLine(t, p.occupation.value))
  }

  lemma PhonesAreMatched(t: Tables, s: string)
    ensures IsE164Phone(t, s) <==> IsPhoneNumber(t, s)
  {
    if IsE164Phone(t, s) {
      assert s == ['+', s[1]] + s[2..];
      assert forall i :: 0 <= i < |s[2..]| ==> IsDigit(s[2..][i]);
    }
    if IsPhoneNumber(t, s) {
      var first: char, rest: string :| && s == ['+', first] + rest && '1' <= first <= '9' && 7 <= |rest| <= 14
                                       && forall i :: 0 <= i < |rest| ==> '0' <= rest[i] <= '9';
      assert s[2..] == rest;
    }
  }

  lemma RegionsAreMatched(t: Tables, country: string, region: string)
    ensures IsIsoSubdivisionCode(t, region, country) <==> IsRegionOf(t, country, region)
  {
    if country + "-" <= region {
      assert region == country + "-" + region[|country| + 1..];
    }
  }

  /** A profile that meets the checks of the validator. */
  ghost predicate MeetsChecks(t: Tables, p: Profile, now: TimeValue) {
    && IsE164Phone(t, p.phone)
    && now.At? && MIN_BIRTH_YEAR <= p.birthYear <= YearOf(now.ms)
    && p.residenceCountryCode in t.countries
    && IsDisplayLine(t, p.residenceCity)
    && (p.residenceRegion.Some? ==> IsIsoSubdivisionCode(t, p.residenceRegion.value, p.residenceCountryCode))
    && (p.residenceCountryCode == "US" ==> p.residenceRegion.Some?)
    && p.employmentStatus in EMPLOYMENT_STATUSES
    && (p.company.Some? <==> RequiresCompany(p.employmentStatus))
    && (p.company.Some? ==> IsDisplayLine(t, p.company.value))
    && (p.occupation.Some? ==> IsDisplayLine(t, p.occupation.value))
  }

  lemma ChecksMeanWellFormed(t: Tables, p: Profile, now: TimeValue)
    ensures MeetsChecks(t, p, now) <==> WellFormed(t, p, now)
  {
    hide IsE164Phone, IsPhoneNumber, IsIsoSubdivisionCode, IsRegionOf, IsDisplayLine, YearOf;
    PhonesAreMatched(t, p.phone);
    if p.residenceRegion.Some? { RegionsAreMatched(t, p.residenceCountryCode, p.residenceRegion.value); }
  }

  lemma E164NeedsNoTrim(t: Tables, s: string)
    ensures IsE164Phone(t, s) ==> Trim(s) == s && s != ""
  {
    if IsE164Phone(t, s) {
      assert IsDigit(s[2..][|s| - 3]);
      NothingToTrim(s);
    }
  }

  /** A display line is what the validator returns for it, and it returns nothing else for a text it leaves alone. */
  lemma DisplayLinesAreKept(t: Tables, s: string, required: bool)
    requires Sound(t)
    ensures IsDisplayLine(t, s) <==> TextCode(t, Text(s), required).None? && DisplayOf(t, Text(s)) == Some(s)
  {
    hide IsNfc, Collapse, TrimBoth, Words, Spaced, HasNoControl;
    if IsDisplayLine(t, s) {
      TidyStays(s, IsWhiteSpace, IsWhiteSpace);
    }
    if NormalizeDisplayText(t.nfc, s) == s {
      DisplayTextIsCanonical(t.nfc, s);
      NfcOfNormalised(t.nfc, s);
    }
  }

  lemma NfcOfNormalised(nfc: string -> string, s: string)
    requires IsNfc(nfc)
    ensures nfc(NormalizeDisplayText(nfc, s)) == NormalizeDisplayText(nfc, s)
  {
    TidyUpKeepsNormal(nfc, nfc(s), IsWhiteSpace, IsWhiteSpace);
  }

  lemma FixedPointIsWellFormed(t: Tables, p: Profile, now: TimeValue)
    requires Sound(t) && Assess(t, InputOf(p), now) == Valid(p)
    ensures MeetsChecks(t, p, now)
  {
    hide Sound, TextCode, DisplayOf, Trim, IsDisplayLine, IsE164Phone, Candidate, RequiresCompany, IssuesOf;
    hide IsIsoSubdivisionCode, YearOf;
    var input := InputOf(p);
    AcceptedFields(t, input, now);
    assert CodeFor(t, input, now, Phone).None?;
    PhoneOfFixedPoint(t, p, now);
    DisplayLinesAreKept(t, p.residenceCity, true);
    if p.company.Some? { DisplayLinesAreKept(t, p.company.value, true); }
    if p.occupation.Some? { DisplayLinesAreKept(t, p.occupation.value, false); }
    NullTexts(t);
    CodesOfProfile(t, p);
    assert CodeFor(t, input, now, BirthYear).None? && CodeFor(t, input, now, ResidenceRegion).None?;
    assert CodeFor(t, input, now, ResidenceCity).None?;
    assert CodeFor(t, input, now, Company).None? && CodeFor(t, input, now, Occupation).None?;
    TextIsStable(t, input.residenceCity, true);
    if CompanyAsked(t, input) { TextIsStable(t, input.company, true); }
    assert Canonical(t, input) == p;
  }

  lemma WellFormedIsFixedPoint(t: Tables, p: Profile, now: TimeValue)
    requires Sound(t) && MeetsChecks(t, p, now)
    ensures Assess(t, InputOf(p), now) == Valid(p)
  {
    hide Sound, TextCode, DisplayOf, Trim, IsDisplayLine, IsE164Phone, Candidate, RequiresCompany, IssuesOf;
    hide IsIsoSubdivisionCode, YearOf;
    var input := InputOf(p);
    E164NeedsNoTrim(t, p.phone);
    DisplayLinesAreKept(t, p.residenceCity, true);
    if p.company.Some? { DisplayLinesAreKept(t, p.company.value, true); }
    if p.occupation.Some? { DisplayLinesAreKept(t, p.occupation.value, false); }
    NullTexts(t);
    CodesOfProfile(t, p);
    assert Canonical(t, input) == p;
    forall f
      ensures CodeFor(t, input, now, f).None?
    {
      match f
      case Phone =>
      case BirthYear =>
      case ResidenceCountryCode =>
      case ResidenceCity =>
      case ResidenceRegion =>
      case EmploymentStatus =>
      case Company =>
      case Occupation =>
    }
    NoIssuesMeansNoCodes(t, input, now, FIELD_ORDER);
  }

  /** The fixed points of validation are exactly the well-formed profiles. */
  lemma FixedPointsAreWellFormed(t: Tables, p: Profile, now: TimeValue)
    requires Sound(t)
    ensures Assess(t, InputOf(p), now) == Valid(p) <==> WellFormed(t, p, now)
  {
    hide Sound, Assess, WellFormed, MeetsChecks;
    ChecksMeanWellFormed(t, p, now);
    if Assess(t, InputOf(p), now) == Valid(p) { FixedPointIsWellFormed(t, p, now); }
    if WellFormed(t, p, now) { WellFormedIsFixedPoint(t, p, now); }
  }

  lemma NullTexts(t: Tables)
    ensures TextCode(t, Null, false).None? && DisplayOf(t, Null) == None
    ensures TextCode(t, Null, true) == Some(Required)
  {
  }

  lemma PhoneOfFixedPoint(t: Tables, p: Profile, now: TimeValue)
    requires Assess(t, InputOf(p), now) == Valid(p) && CodeFor(t, InputOf(p), now, Phone).None?
    ensures IsE164Phone(t, p.phone)
  {
    hide IssuesOf, Trim, IsE164Phone;
  }

  /** The codes of a profile, read back as input. */
  lemma CodesOfProfile(t: Tables, p: Profile)
    requires Sound(t)
    ensures p.residenceCountryCode in t.countries ==>
              Candidate(Text(p.residenceCountryCode), t.upper) == p.residenceCountryCode != ""
    ensures p.employmentStatus in EMPLOYMENT_STATUSES ==>
              Candidate(Text(p.employmentStatus), t.lower) == p.employmentStatus != ""
    ensures Candidate(Null, t.upper) == ""
    ensures p.residenceRegion.Some? && IsIsoSubdivisionCode(t, p.residenceRegion.value, p.residenceCountryCode) ==>
              Candidate(OrNull(p.residenceRegion), t.upper) == p.residenceRegion.value != ""
  {
    hide Sound, Candidate;
    if p.residenceCountryCode in t.countries { CodeIsStable(t, p.residenceCountryCode); }
    if p.employmentStatus in EMPLOYMENT_STATUSES { StatusIsStable(t, p.employmentStatus); }
    NullIsNoCandidate(t);
    if p.residenceRegion.Some? && p.residenceRegion.value in t.subdivisions { CodeIsStable(t, p.residenceRegion.value); }
  }

  /** So whatever validation accepts, it returns a well-formed profile. */
  lemma AcceptedProfilesAreWellFormed(t: Tables, input: Input, now: TimeValue)
    requires Sound(t) && Assess(t, input, now).Valid?
    ensures WellFormed(t, Assess(t, input, now).value, now)
  {
    hide Sound, Assess, WellFormed;
    ValidOnlyNow(t, input, now);
    ValidationIsACanonicaliser(t, input, now, now);
    FixedPointsAreWellFormed(t, Assess(t, input, now).value, now);
  }

  /** Required fields hold text, save that a birth year may be a number; optional ones hold text or nothing. */
  predicate TypesFit(t: Tables, input: Input) {
    && input.phone.Text?
    && (input.birthYear.Integer? || input.birthYear.Text?)
    && input.residenceCountryCode.Text?
    && input.residenceCity.Text?
    && (input.residenceRegion.Undefined? || input.residenceRegion.Null? || input.residenceRegion.Text?)
    && input.employmentStatus.Text?
    && (CompanyAsked(t, input) ==> input.company.Text?)
    && (input.occupation.Undefined? || input.occupation.Null? || input.occupation.Text?)
  }

  predicate IsPlain(v: JsValue) { v.Text? ==> HasNoControl(v.s) }

  /** No display text that is asked for holds a control character, not even one that normalising would remove. */
  predicate TextsArePlain(t: Tables, input: Input) {
    IsPlain(input.residenceCity) && IsPlain(input.occupation) && (CompanyAsked(t, input) ==> IsPlain(input.company))
  }

  lemma DisplayTextIsAccepted(t: Tables, v: JsValue, required: bool)
    requires Sound(t)
    ensures DisplayOf(t, v).Some? ==>
              (TextCode(t, v, required).None? <==> HasNoControl(v.s) && IsDisplayLine(t, DisplayOf(t, v).value))
    ensures DisplayOf(t, v).None? ==>
              (TextCode(t, v, required).None? <==> !required && (v.Undefined? || v.Null? || (v.Text? && HasNoControl(v.s))))
  {
    hide IsNfc, Collapse, TrimBoth, Words, Spaced, HasNoControl;
    if DisplayOf(t, v).Some? {
      DisplayTextIsCanonical(t.nfc, v.s);
      NfcOfNormalised(t.nfc, v.s);
      EmptyHasNoControl();
    }
    EmptyHasNoControl();
  }

  lemma EmptyHasNoControl()
    ensures HasNoControl("")
  {
  }

  /**
   Which untyped inputs are accepted, said without the checks: those whose fields fit and
   whose texts are plain, and that read as a well-formed profile, which is then returned.
   */
  lemma AcceptedExactly(t: Tables, input: Input, now: TimeValue)
    requires Sound(t)
    ensures Assess(t, input, now).Valid? <==>
              TypesFit(t, input) && TextsArePlain(t, input) && WellFormed(t, Canonical(t, input), now)
    ensures Assess(t, input, now).Valid? ==> Assess(t, input, now).value == Canonical(t, input)
  {
    hide Sound, Assess, WellFormed, MeetsChecks, Canonical, TypesFit, TextsArePlain;
    if Assess(t, input, now).Valid? {
      AcceptedProfilesAreWellFormed(t, input, now);
      AcceptedInputsFit(t, input, now);
    }
    if TypesFit(t, input) && TextsArePlain(t, input) && WellFormed(t, Canonical(t, input), now) {
      ChecksMeanWellFormed(t, Canonical(t, input), now);
      FittingInputsAreAccepted(t, input, now);
    }
  }

  lemma AcceptedInputsFit(t: Tables, input: Input, now: TimeValue)
    requires Sound(t) && Assess(t, input, now).Valid?
    ensures TypesFit(t, input) && TextsArePlain(t, input) && Assess(t, input, now).value == Canonical(t, input)
  {
    hide Sound, IsE164Phone, Trim, Candidate, IsBirthYear, BirthYearNumber, IssuesOf, HasNoControl, NormalizeDisplayText;
    hide RequiresCompany, IsIsoSubdivisionCode;
    AcceptedFields(t, input, now);
    assert CodeFor(t, input, now, Phone).None? && CodeFor(t, input, now, BirthYear).None?;
    assert CodeFor(t, input, now, ResidenceCountryCode).None? && CodeFor(t, input, now, ResidenceCity).None?;
    assert CodeFor(t, input, now, ResidenceRegion).None? && CodeFor(t, input, now, EmploymentStatus).None?;
    assert CodeFor(t, input, now, Company).None? && CodeFor(t, input, now, Occupation).None?;
    NonIntegersAreNoYears(now);
    EmptyHasNoControl();
  }

  lemma NonIntegersAreNoYears(now: TimeValue)
    ensures !IsBirthYear(BirthYearNumber(NonInteger), now)
  {
  }

  lemma NothingIsNoDisplayLine(t: Tables)
    ensures !IsDisplayLine(t, "") && !IsE164Phone(t, "")
  {
  }

  lemma FittingYear(v: JsValue, now: TimeValue)
    requires (v.Integer? || v.Text?) && now.At?
    requires BirthYearNumber(v).Num? && MIN_BIRTH_YEAR <= BirthYearNumber(v).n <= YearOf(now.ms)
    ensures BirthYearCode(v, now).None?
  {
    hide YearOf, Trim;
    EmptyTrims();
  }

  lemma FittingInputsAreAccepted(t: Tables, input: Input, now: TimeValue)
    requires Sound(t) && TypesFit(t, input) && TextsArePlain(t, input) && MeetsChecks(t, Canonical(t, input), now)
    ensures Assess(t, input, now) == Valid(Canonical(t, input))
  {
    hide Sound, IsE164Phone, Trim, Candidate, IssuesOf, HasNoControl, NormalizeDisplayText, TextCode, IsDisplayLine;
    hide RequiresCompany, IsIsoSubdivisionCode, YearOf, BirthYearNumber;
    var p := Canonical(t, input);
    DisplayTextIsAccepted(t, input.residenceCity, true);
    DisplayTextIsAccepted(t, input.company, true);
    DisplayTextIsAccepted(t, input.occupation, false);
    NothingIsNoDisplayLine(t);
    E164NeedsNoTrim(t, p.phone);
    CodesOfProfile(t, p);
    forall f
      ensures CodeFor(t, input, now, f).None?
    {
      match f
      case Phone =>
      case BirthYear => FittingYear(input.birthYear, now);
      case ResidenceCountryCode =>
      case ResidenceCity =>
      case ResidenceRegion =>
      case EmploymentStatus =>
      case Company =>
      case Occupation =>
    }
    NoIssuesMeansNoCodes(t, input, now, FIELD_ORDER);
  }

  lemma ValidOnlyNow(t: Tables, input: Input, now: TimeValue)
    requires Assess(t, input, now).Valid?
    ensures now.At?
  {
    AcceptedFields(t, input, now);
  }

  lemma LeavingTextAloneIsNfc()
    ensures IsNfc((s: string) => s)
  {
    hide HasNoControl;
  }

  /** The assumptions on tables and library functions can be met. */
  lemma SoundTablesExist()
    ensures exists t :: Sound(t) && "US" in t.countries && "US-WA" in t.subdivisions
  {
    hide Trim, IsNfc;
    var same := (s: string) => s;
    var t := Tables({"US"}, {"US-WA"}, same, same, same, s => true);
    LeavingTextAloneIsNfc();
    NothingToTrim("US");
    NothingToTrim("US-WA");
    assert Sound(t);
  }
}
