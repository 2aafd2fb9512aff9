/**
 What profile validation does, said of the values alone: which profile an input reads as,
 and which field deserves which issue.
 */
module ProfileMeaning {
  import opened Calendar
  import opened Decimal
  import opened DisplayText
  import opened JsText
  import opened Outcomes
  import opened RegistrationProfile

  // ----- What an input reads as -----

  predicate IsAbsent(v: JsValue) { v.Undefined? || v.Null? }

  /** The words of a text in normal form. */
  function WordsOf(t: Tables, s: string): seq<string> { Words(t.nfc(s), IsWhiteSpace) }

  /** Whether the employment status, trimmed and in lower case, is one with a company. */
  predicate IsEmployed(t: Tables, input: Input) {
    && input.employmentStatus.Text?
    && (t.lower(Trim(input.employmentStatus.s)) == "employed" || t.lower(Trim(input.employmentStatus.s)) == "self_employed")
  }

  ghost predicate ReadsAsYear(v: JsValue, n: int) {
    v == Integer(n) || (v.Text? && 1_000 <= n <= 9_999 && Trim(v.s) == ToDecimal(n))
  }

  ghost predicate ReadsAsText(t: Tables, v: JsValue, text: Option<string>) {
    v.Text? && text == if WordsOf(t, v.s) == [] then None else Some(Spaced(WordsOf(t, v.s)))
  }

  /**
   Codes are trimmed and folded, texts are the words spaced; a region and an occupation may
   be left out, a company is read from the employed only.
   */
  ghost predicate ReadsAs(t: Tables, input: Input, p: Profile) {
    && input.phone.Text? && p.phone == Trim(input.phone.s)
    && ReadsAsYear(input.birthYear, p.birthYear)
    && input.residenceCountryCode.Text? && p.residenceCountryCode == t.upper(Trim(input.residenceCountryCode.s))
    && ReadsAsText(t, input.residenceCity, Some(p.residenceCity))
    && (IsAbsent(input.residenceRegion) || input.residenceRegion.Text?)
    && p.residenceRegion == (if IsAbsent(input.residenceRegion) || t.upper(Trim(input.residenceRegion.s)) == "" then None
                             else Some(t.upper(Trim(input.residenceRegion.s))))
    && input.employmentStatus.Text? && p.employmentStatus == t.lower(Trim(input.employmentStatus.s))
    && (if IsEmployed(t, input) then ReadsAsText(t, input.company, p.company) else p.company == None)
    && (if IsAbsent(input.occupation) then p.occupation == None else ReadsAsText(t, input.occupation, p.occupation))
  }

  /** One of the control characters of Unicode, U+0000 to U+001F and U+007F to U+009F. */
  predicate HoldsControl(v: JsValue) {
    v.Text? && exists i :: 0 <= i < |v.s| && (v.s[i] < ' ' || '\U{007F}' <= v.s[i] <= '\U{009F}')
  }

  lemma ControlIs(v: JsValue)
    ensures HoldsControl(v) <==> v.Text? && !HasNoControl(v.s)
  {
  }

  lemma ShownWords(t: Tables, s: string)
    requires Sound(t)
    ensures NormalizeDisplayText(t.nfc, s) == Spaced(WordsOf(t, s))
    ensures Spaced(WordsOf(t, s)) == "" <==> WordsOf(t, s) == []
    ensures s == "" ==> WordsOf(t, s) == []
  {
    hide Words, Spaced, IsWhiteSpace, Collapse, TrimBoth;
    TidyUpSpacesWords(t.nfc(s), IsWhiteSpace, IsWhiteSpace) by { SpaceIsWhite(); }
    WordsAreWords(t.nfc(s), IsWhiteSpace);
    SpacedEnds(WordsOf(t, s), IsWhiteSpace);
    NothingSpaced();
    if s == "" {
      NfcOfNothing(t.nfc);
    }
  }

  lemma SpaceIsWhite()
    ensures IsWhiteSpace(' ')
  {
  }

  lemma NfcOfNothing(nfc: string -> string)
    requires IsNfc(nfc)
    ensures nfc("") == ""
  {
    assert nfc(nfc("")) == nfc("");
    assert nfc("") + "" == nfc("");
  }

  lemma TextReads(t: Tables, v: JsValue, text: Option<string>)
    requires Sound(t) && v.Text?
    ensures ReadsAsText(t, v, text) <==> text == DisplayOf(t, v)
  {
    hide Words, Spaced, Sound, NormalizeDisplayText;
    ShownWords(t, v.s);
  }

  lemma DecimalOfFourDigits(n: int)
    requires 1_000 <= n <= 9_999
    ensures |ToDecimal(n)| == 4 && Pad(n, 4) == ToDecimal(n)
  {
    hide ToDecimal;
    PowersOfTen();
    DigitCount(n, 3);
    DigitCount(n, 4);
    assert |ToDecimal(n)| >= 4;
  }

  lemma YearReads(v: JsValue, n: int)
    requires n >= 1_000
    ensures ReadsAsYear(v, n) <==> BirthYearNumber(v).Num? && BirthYearNumber(v).n == n
  {
    hide Trim, ToDecimal;
    if v.Text? {
      var s := Trim(v.s);
      if 1_000 <= n <= 9_999 && s == ToDecimal(n) {
        DecimalOfFourDigits(n);
        PrintThenRead(n);
      }
      if |s| == 4 && AllDigits(s) && ValueOf(s) == n {
        PowersOfTen();
        BelowPower(s);
        DecimalOfFourDigits(n);
        ReadThenPad(s);
      }
    }
  }

  lemma NumberOfYear(v: JsValue)
    ensures BirthYearNumber(v).Num? ==> v.Integer? || v.Text?
  {
  }

  lemma EmployedMeansAsked(t: Tables, input: Input)
    ensures IsEmployed(t, input) <==> CompanyAsked(t, input)
  {
    hide Trim;
  }

  /** For profiles that can come out, reading is reading with the validator's own functions. */
  lemma ReadingIsCanonical(t: Tables, input: Input, p: Profile)
    requires Sound(t) && p.birthYear >= 1_000 && p.residenceCity != ""
    ensures ReadsAs(t, input, p) <==> TypesFit(t, input) && Canonical(t, input) == p
  {
    hide Sound, Trim, DisplayOf, ReadsAsYear, ReadsAsText, BirthYearNumber, CompanyAsked, IsEmployed;
    YearReads(input.birthYear, p.birthYear);
    NumberOfYear(input.birthYear);
    EmployedMeansAsked(t, input);
    OnlyTextsRead(t, input.residenceCity, Some(p.residenceCity));
    OnlyTextsRead(t, input.company, p.company);
    OnlyTextsRead(t, input.occupation, p.occupation);
    if input.residenceCity.Text? { TextReads(t, input.residenceCity, Some(p.residenceCity)); }
    if input.company.Text? { TextReads(t, input.company, p.company); }
    if input.occupation.Text? { TextReads(t, input.occupation, p.occupation); }
  }

  lemma OnlyTextsRead(t: Tables, v: JsValue, text: Option<string>)
    ensures ReadsAsText(t, v, text) ==> v.Text?
    ensures !v.Text? ==> DisplayOf(t, v) == None
  {
  }

  /**
   For every untyped input: it is accepted as a profile exactly if it reads as that
   profile, the profile is well formed, and no text that is asked for holds a control character.
   */
  lemma ProfilesAreReadExactly(t: Tables, input: Input, now: TimeValue, p: Profile)
    requires Sound(t)
    ensures Assess(t, input, now) == Valid(p) <==>
              && ReadsAs(t, input, p) && WellFormed(t, p, now)
              && !HoldsControl(input.residenceCity) && !HoldsControl(input.occupation)
              && (IsEmployed(t, input) ==> !HoldsControl(input.company))
  {
    hide Sound, Assess, WellFormed, Canonical, TypesFit, ReadsAs, HoldsControl, IsEmployed, CompanyAsked, HasNoControl;
    AcceptedExactly(t, input, now);
    ControlIs(input.residenceCity);
    ControlIs(input.occupation);
    ControlIs(input.company);
    EmployedMeansAsked(t, input);
    if WellFormed(t, p, now) {
      WellFormedIsNotEmpty(t, p, now);
      ReadingIsCanonical(t, input, p);
    }
  }

  lemma WellFormedIsNotEmpty(t: Tables, p: Profile, now: TimeValue)
    requires WellFormed(t, p, now)
    ensures p.birthYear >= 1_000 && p.residenceCity != ""
  {
    hide IsPhoneNumber, IsRegionOf, YearOf, Tidy, HasNoControl;
  }

  // ----- Which issues a field deserves -----

  function ValueOfField(input: Input, f: Field): JsValue {
    match f
    case Phone => input.phone
    case BirthYear => input.birthYear
    case ResidenceCountryCode => input.residenceCountryCode
    case ResidenceCity => input.residenceCity
    case ResidenceRegion => input.residenceRegion
    case EmploymentStatus => input.employmentStatus
    case Company => input.company
    case Occupation => input.occupation
  }

  predicate IsTextField(f: Field) { f.ResidenceCity? || f.Company? || f.Occupation? }

  /** Companies are looked at for the employed only. */
  predicate IsLookedAt(t: Tables, input: Input, f: Field) { f.Company? ==> IsEmployed(t, input) }

  /** Regions are asked for in the United States only, and occupations never. */
  predicate IsAskedFor(t: Tables, input: Input, f: Field) {
    && IsLookedAt(t, input, f)
    && !f.Occupation?
    && (f.ResidenceRegion? ==> input.residenceCountryCode.Text? && t.upper(Trim(input.residenceCountryCode.s)) == "US")
  }

  /** Nothing is given: no value, or a text with nothing in it. */
  predicate IsBlank(t: Tables, f: Field, v: JsValue) {
    || IsAbsent(v)
    || (v.Text? &&
        match f
        case Phone => Trim(v.s) == ""
        case BirthYear => v.s == ""
        case ResidenceCountryCode => t.upper(Trim(v.s)) == ""
        case ResidenceRegion => t.upper(Trim(v.s)) == ""
        case EmploymentStatus => t.lower(Trim(v.s)) == ""
        case _ => !HoldsControl(v) && WordsOf(t, v.s) == [])
  }

  /** Texts everywhere; a birth year may be a number instead. */
  predicate HasFittingType(f: Field, v: JsValue) {
    IsAbsent(v) || v.Text? || (f.BirthYear? && (v.Integer? || v.NonInteger?))
  }

  /** A text that is none of those the field takes. */
  ghost predicate IsMalformed(t: Tables, input: Input, f: Field, s: string) {
    match f
    case Phone => !IsPhoneNumber(t, Trim(s))
    case BirthYear => false
    case ResidenceCountryCode => t.upper(Trim(s)) !in t.countries
    case ResidenceRegion =>
      !(input.residenceCountryCode.Text? && IsRegionOf(t, t.upper(Trim(input.residenceCountryCode.s)), t.upper(Trim(s))))
    case EmploymentStatus =>
      t.lower(Trim(s)) !in {"employed", "self_employed", "student", "not_currently_employed", "retired"}
    case _ => HoldsControl(Text(s))
  }

  ghost predicate NamesABirthYear(v: JsValue, now: TimeValue) {
    now.At? && exists n :: 1900 <= n <= YearOf(now.ms) && ReadsAsYear(v, n)
  }

  /** Which issue a field deserves, code by code. */
  ghost predicate Deserves(t: Tables, input: Input, now: TimeValue, f: Field, c: Code) {
    var v := ValueOfField(input, f);
    match c
    case Required => IsAskedFor(t, input, f) && IsBlank(t, f, v)
    case InvalidType => IsLookedAt(t, input, f) && !HasFittingType(f, v)
    case InvalidFormat => IsLookedAt(t, input, f) && v.Text? && !IsBlank(t, f, v) && IsMalformed(t, input, f, v.s)
    case OutOfRange => f.BirthYear? && HasFittingType(f, v) && !IsBlank(t, f, v) && !NamesABirthYear(v, now)
    case TooLong => IsTextField(f) && IsLookedAt(t, input, f) && v.Text? && !HoldsControl(v) && |Spaced(WordsOf(t, v.s))| > 100
  }

  lemma PhoneDeserves(t: Tables, input: Input, now: TimeValue, c: Code)
    ensures Deserves(t, input, now, Phone, c) <==> PhoneCode(t, input.phone) == Some(c)
  {
    hide Trim, IsE164Phone, IsPhoneNumber;
    if input.phone.Text? { PhonesAreMatched(t, Trim(input.phone.s)); }
  }

  lemma YearDeserves(t: Tables, input: Input, now: TimeValue, c: Code)
    ensures Deserves(t, input, now, BirthYear, c) <==> BirthYearCode(input.birthYear, now) == Some(c)
  {
    hide Trim, ReadsAsYear, BirthYearNumber, YearOf;
    YearNamed(input.birthYear, now);
  }

  lemma YearNamed(v: JsValue, now: TimeValue)
    ensures NamesABirthYear(v, now) <==> IsBirthYear(BirthYearNumber(v), now)
  {
    hide ReadsAsYear, BirthYearNumber, YearOf;
    if NamesABirthYear(v, now) {
      var n :| 1900 <= n <= YearOf(now.ms) && ReadsAsYear(v, n);
      YearReads(v, n);
    }
    if IsBirthYear(BirthYearNumber(v), now) {
      YearReads(v, BirthYearNumber(v).n);
    }
  }

  lemma CountryDeserves(t: Tables, input: Input, now: TimeValue, c: Code)
    ensures Deserves(t, input, now, ResidenceCountryCode, c) <==> CountryCode(t, input.residenceCountryCode) == Some(c)
  {
    hide Trim;
  }

  lemma RegionDeserves(t: Tables, input: Input, now: TimeValue, c: Code)
    requires Sound(t)
    ensures Deserves(t, input, now, ResidenceRegion, c) <==>
              RegionCode(t, input.residenceRegion, Candidate(input.residenceCountryCode, t.upper)) == Some(c)
  {
    hide Trim, IsIsoSubdivisionCode, IsRegionOf, Sound;
    var country := Candidate(input.residenceCountryCode, t.upper);
    if input.residenceRegion.Text? { RegionsAreMatched(t, country, t.upper(Trim(input.residenceRegion.s))); }
    NowhereHasNoRegions(t, Candidate(input.residenceRegion, t.upper));
  }

  lemma NowhereHasNoRegions(t: Tables, region: string)
    requires Sound(t)
    ensures !IsIsoSubdivisionCode(t, region, "")
  {
    hide IsNfc, Trim;
  }

  lemma EmploymentDeserves(t: Tables, input: Input, now: TimeValue, c: Code)
    ensures Deserves(t, input, now, EmploymentStatus, c) <==> EmploymentCode(t, input.employmentStatus) == Some(c)
  {
    hide Trim;
  }

  lemma TextDeserves(t: Tables, input: Input, now: TimeValue, f: Field, c: Code)
    requires Sound(t) && IsTextField(f) && IsLookedAt(t, input, f)
    ensures Deserves(t, input, now, f, c) <==> TextCode(t, ValueOfField(input, f), !f.Occupation?) == Some(c)
  {
    hide Words, Spaced, Sound, NormalizeDisplayText, HasNoControl, HoldsControl, IsEmployed;
    var v := ValueOfField(input, f);
    ControlIs(v);
    EmptyHasNoControl();
    if v.Text? { ShownWords(t, v.s); }
  }

  /** Field by field, what is deserved is what is found. */
  lemma DeservedIsFound(t: Tables, input: Input, now: TimeValue, f: Field, c: Code)
    requires Sound(t)
    ensures Deserves(t, input, now, f, c) <==> CodeFor(t, input, now, f) == Some(c)
  {
    hide Sound, PhoneCode, BirthYearCode, CountryCode, RegionCode, EmploymentCode, TextCode, Candidate, CompanyAsked;
    match f
    case Phone => PhoneDeserves(t, input, now, c);
    case BirthYear => YearDeserves(t, input, now, c);
    case ResidenceCountryCode => CountryDeserves(t, input, now, c);
    case ResidenceRegion => RegionDeserves(t, input, now, c);
    case EmploymentStatus => EmploymentDeserves(t, input, now, c);
    case ResidenceCity => TextDeserves(t, input, now, f, c);
    case Occupation => TextDeserves(t, input, now, f, c);
    case Company =>
      EmployedMeansAsked(t, input);
      if IsEmployed(t, input) { TextDeserves(t, input, now, f, c); }
  }

  /** The place of a field in the order in which issues are listed. */
  function Place(f: Field): nat {
    match f
    case Phone => 0
    case BirthYear => 1
    case ResidenceCountryCode => 2
    case ResidenceCity => 3
    case ResidenceRegion => 4
    case EmploymentStatus => 5
    case Company => 6
    case Occupation => 7
  }

  ghost predicate InFieldOrder(issues: seq<Issue>) {
    forall i, j :: 0 <= i < j < |issues| ==> Place(issues[i].field) < Place(issues[j].field)
  }

  lemma {:induction false} IssuesInOrder(t: Tables, input: Input, now: TimeValue, n: nat)
    requires n <= |FIELD_ORDER|
    ensures
      var issues := IssuesOf(t, input, now, FIELD_ORDER[..n]);
      && (forall i :: 0 <= i < |issues| ==> Place(issues[i].field) < n)
      && InFieldOrder(issues)
  {
    hide CodeFor, IssuesOf;
    if n == 0 {
      assert FIELD_ORDER[..0] == [];
      NoFieldsNoIssues(t, input, now);
    } else {
      IssuesInOrder(t, input, now, n - 1);
      assert FIELD_ORDER[..n] == FIELD_ORDER[..n - 1] + [FIELD_ORDER[n - 1]];
      IssuesOfAppend(t, input, now, FIELD_ORDER[..n - 1], FIELD_ORDER[n - 1]);
      assert Place(FIELD_ORDER[n - 1]) == n - 1;
    }
  }

  lemma AllIssuesInOrder(t: Tables, input: Input, now: TimeValue)
    ensures Assess(t, input, now).Rejected? ==> InFieldOrder(Assess(t, input, now).issues)
  {
    hide InFieldOrder, Place, CodeFor, Canonical;
    IssuesInOrder(t, input, now, |FIELD_ORDER|);
    assert FIELD_ORDER[..|FIELD_ORDER|] == FIELD_ORDER;
  }

  /**
   For every untyped input: exactly the issues deserved are reported, each once and in the
   order of the fields; and validation succeeds exactly if none is.
   */
  lemma IssuesAreThoseDeserved(t: Tables, input: Input, now: TimeValue)
    requires Sound(t)
    ensures Assess(t, input, now).Valid? <==> forall f, c :: !Deserves(t, input, now, f, c)
    ensures Assess(t, input, now).Rejected? ==>
              var issues := Assess(t, input, now).issues;
              && (forall f, c :: Issue(f, c) in issues <==> Deserves(t, input, now, f, c))
              && InFieldOrder(issues)
  {
    hide Sound, CodeFor, Deserves, IssuesOf, Canonical, InFieldOrder;
    ReportsEachFaultOnce(t, input, now);
    forall f, c
      ensures Deserves(t, input, now, f, c) <==> CodeFor(t, input, now, f) == Some(c)
    {
      DeservedIsFound(t, input, now, f, c);
    }
    if Assess(t, input, now).Valid? {
      AcceptedFields(t, input, now);
    } else {
      var f :| CodeFor(t, input, now, f).Some?;
      assert Deserves(t, input, now, f, CodeFor(t, input, now, f).value);
      AllIssuesInOrder(t, input, now);
    }
  }
}
