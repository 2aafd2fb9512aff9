/**
 What the published KPIs say, in terms of the stored rows and their fields alone: which
 groups are listed, with which counts, in which order, and when anything is held back.
 */
module KpiMeaning {
  import opened Calendar
  import opened JsText
  import opened JsonKeys
  import opened KpiDimensions
  import opened Outcomes
  import opened RegistrationProfile
  import opened RegistrationProfileKpi
  import opened Sorting

  /** How many of the rows satisfy `p`. */
  ghost function HowMany(rows: seq<Row>, p: Row -> bool): nat {
    if rows == [] then 0 else HowMany(rows[..|rows| - 1], p) + if p(rows[|rows| - 1]) then 1 else 0
  }

  /** The row stores this profile for an active user, well formed and with an integer birth year. */
  ghost predicate Stores(t: Tables, row: Row, now: TimeValue, p: Profile) {
    && row.isActive == Bool(true) && row.birthYearBsonType == Text("int")
    && row.input == InputOf(p) && WellFormed(t, p, now)
  }

  /** Rows storing a profile with a certain property. */
  ghost function With(t: Tables, now: TimeValue, q: Profile -> bool): Row -> bool {
    (row: Row) => exists p :: Stores(t, row, now, p) && q(p)
  }

  function BornFrom(start: int): Profile -> bool { (p: Profile) => start <= p.birthYear <= start + 9 }

  function LivingIn(country: string): Profile -> bool { (p: Profile) => p.residenceCountryCode == country }

  function LivingInRegion(country: string, region: string): Profile -> bool {
    (p: Profile) => p.residenceCountryCode == country && p.residenceRegion == Some(region)
  }

  function LivingInCity(country: string, region: Option<string>, city: string): Profile -> bool {
    (p: Profile) => p.residenceCountryCode == country && p.residenceRegion == region && p.residenceCity == city
  }

  function Being(status: string): Profile -> bool { (p: Profile) => p.employmentStatus == status }

  function WorkingAt(company: string): Profile -> bool { (p: Profile) => p.company == Some(company) }

  function WorkingAs(occupation: string): Profile -> bool { (p: Profile) => p.occupation == Some(occupation) }

  /** The property that picks out the profiles of a bucket. */
  function Members(b: Bucket): Profile -> bool {
    match b
    case DecadeBucket(start, _) => BornFrom(start)
    case CountryBucket(c) => LivingIn(c)
    case RegionBucket(c, r) => LivingInRegion(c, r)
    case CityBucket(c, a, city) => LivingInCity(c, a, city)
    case StatusBucket(s) => Being(s)
    case CompanyBucket(c) => WorkingAt(c)
    case OccupationBucket(o) => WorkingAs(o)
  }

  /** A bucket as it can occur in a dimension; decades run from a year divisible by ten to nine years later. */
  predicate IsProper(dim: Dimension, b: Bucket) {
    match dim
    case Decades => b.DecadeBucket? && b.startYear % 10 == 0 && b.endYear == b.startYear + 9
    case Countries => b.CountryBucket?
    case Regions => b.RegionBucket?
    case Cities => b.CityBucket?
    case Statuses => b.StatusBucket?
    case Companies => b.CompanyBucket?
    case Occupations => b.OccupationBucket?
  }

  lemma MembersAreOfBucket(dim: Dimension, b: Bucket, p: Profile)
    ensures BucketOf(dim, p) == Some(b) <==> IsProper(dim, b) && Members(b)(p)
  {
    if dim.Decades? && IsProper(dim, b) && Members(b)(p) {
      Quotient(p.birthYear, 10, b.startYear / 10);
    }
  }

  lemma StoredIsCounted(t: Tables, row: Row, now: TimeValue, q: Profile -> bool)
    requires Sound(t)
    ensures With(t, now, q)(row) <==> CountedProfile(t, row, now).Some? && q(CountedProfile(t, row, now).value)
  {
    hide Sound, WellFormed, InputOf, CountedProfile;
    var c := CountedProfile(t, row, now);
    if With(t, now, q)(row) {
      var p :| Stores(t, row, now, p) && q(p);
      CountedRowsAreWellFormed(t, row, now, p);
    }
    if c.Some? {
      CountedRowsAreWellFormed(t, row, now, c.value);
      assert Stores(t, row, now, c.value);
    }
  }

  /** The rows of a bucket are as many as the profiles counted in it. */
  lemma {:induction false} RowsOfBucket(t: Tables, dim: Dimension, b: Bucket, rows: seq<Row>, now: TimeValue)
    requires Sound(t) && IsProper(dim, b)
    ensures Occurrences(dim, b, CountedProfiles(t, rows, now)) == HowMany(rows, With(t, now, Members(b)))
    decreases |rows|
  {
    hide Sound, CountedProfile, BucketOf, With, Members, IsProper;
    if rows != [] {
      var n := |rows| - 1;
      RowsOfBucket(t, dim, b, rows[..n], now);
      StoredIsCounted(t, rows[n], now, Members(b));
      var c := CountedProfile(t, rows[n], now);
      if c.Some? {
        MembersAreOfBucket(dim, b, c.value);
        OccurrencesAppend(dim, b, CountedProfiles(t, rows[..n], now), c.value);
      }
    }
  }

  lemma {:induction false} OccurringIsProper(dim: Dimension, b: Bucket, ps: seq<Profile>)
    requires Occurrences(dim, b, ps) > 0
    ensures IsProper(dim, b)
  {
    hide BucketOf, IsProper, Members;
    var p := ps[|ps| - 1];
    MembersAreOfBucket(dim, b, p);
    if BucketOf(dim, p) != Some(b) {
      OccurringIsProper(dim, b, ps[..|ps| - 1]);
    }
  }

  /** What one published dimension says. */
  ghost predicate Says(dim: Dimension, t: Tables, rows: seq<Row>, now: TimeValue, dto: DimensionDto) {
    && (forall b, n :: Counted(b, n) in dto.buckets <==>
          IsProper(dim, b) && n >= 5 && n == HowMany(rows, With(t, now, Members(b))))
    && (dto.suppressionApplied <==>
          exists b :: IsProper(dim, b) && 1 <= HowMany(rows, With(t, now, Members(b))) <= 4)
  }

  lemma PublishedSays(dim: Dimension, t: Tables, rows: seq<Row>, now: TimeValue, dto: DimensionDto)
    requires Sound(t) && IsPublished(dim, CountedProfiles(t, rows, now), dto)
    ensures Says(dim, t, rows, now, dto)
  {
    hide Sound, CountedProfiles, Occurrences, Sorted, NoRepeats, With, Members, IsProper, HowMany;
    var ps := CountedProfiles(t, rows, now);
    forall b
      ensures IsProper(dim, b) ==> Occurrences(dim, b, ps) == HowMany(rows, With(t, now, Members(b)))
      ensures Occurrences(dim, b, ps) > 0 ==> IsProper(dim, b)
    {
      if IsProper(dim, b) { RowsOfBucket(t, dim, b, rows, now); }
      if Occurrences(dim, b, ps) > 0 { OccurringIsProper(dim, b, ps); }
    }
    forall b, n
      ensures Counted(b, n) in dto.buckets <==> IsProper(dim, b) && n >= 5 && n == HowMany(rows, With(t, now, Members(b)))
    {
      var x := Counted(b, n);
      assert x in dto.buckets <==> x.count >= 5 && x.count == Occurrences(dim, x.bucket, ps);
    }
    if dto.suppressionApplied {
      var b :| 1 <= Occurrences(dim, b, ps) < MINIMUM_GROUP_SIZE;
      assert IsProper(dim, b) && 1 <= HowMany(rows, With(t, now, Members(b))) <= 4;
    }
    if b :| IsProper(dim, b) && 1 <= HowMany(rows, With(t, now, Members(b))) <= 4 {
      assert 1 <= Occurrences(dim, b, ps) < MINIMUM_GROUP_SIZE;
    }
  }

  /**
   For any rows, each of the seven lists holds exactly the groups of at least five rows that
   store a profile of the group, each with its number of rows, and nothing else; and it says
   that something was held back exactly if some group has one to four.
   */
  lemma KpisCountTheirGroups(t: Tables, rows: seq<Row>, now: TimeValue, k: Kpis)
    requires Sound(t) && AreKpis(t, rows, now, k)
    ensures k.minimumGroupSize == 5
    ensures Says(Decades, t, rows, now, k.birthYearDecades) && Says(Countries, t, rows, now, k.residenceCountries)
    ensures Says(Regions, t, rows, now, k.residenceRegions) && Says(Cities, t, rows, now, k.residenceCities)
    ensures Says(Statuses, t, rows, now, k.employmentStatuses) && Says(Companies, t, rows, now, k.companies)
    ensures Says(Occupations, t, rows, now, k.occupations)
  {
    hide Sound, CountedProfiles, IsPublished, Says;
    PublishedSays(Decades, t, rows, now, k.birthYearDecades);
    PublishedSays(Countries, t, rows, now, k.residenceCountries);
    PublishedSays(Regions, t, rows, now, k.residenceRegions);
    PublishedSays(Cities, t, rows, now, k.residenceCities);
    PublishedSays(Statuses, t, rows, now, k.employmentStatuses);
    PublishedSays(Companies, t, rows, now, k.companies);
    PublishedSays(Occupations, t, rows, now, k.occupations);
  }

  // ----- Order -----

  /** Larger groups first, and groups of one size by their keys. */
  ghost predicate LargestFirst(s: seq<Counted>, key: Bucket -> string) {
    forall i, j :: 0 <= i < j < |s| ==>
      s[i].count > s[j].count || (s[i].count == s[j].count && TextLess(key(s[i].bucket), key(s[j].bucket)))
  }

  lemma ListedInOrder(dim: Dimension, ps: seq<Profile>, dto: DimensionDto, i: nat, j: nat)
    requires IsPublished(dim, ps, dto) && i < j < |dto.buckets|
    ensures Before(dto.buckets[i], dto.buckets[j])
    ensures InDimension(dim, dto.buckets[i].bucket) && InDimension(dim, dto.buckets[j].bucket)
  {
    hide Before, Occurrences, InDimension;
    var x, y := dto.buckets[i], dto.buckets[j];
    assert x in dto.buckets && y in dto.buckets;
    OccurringBucketsAreInDimension(dim, x.bucket, ps);
    OccurringBucketsAreInDimension(dim, y.bucket, ps);
    if !Before(x, y) {
      BeforeTellsApart(dim, x, y);
    }
  }

  lemma PublishedLargestFirst(dim: Dimension, ps: seq<Profile>, dto: DimensionDto, key: Bucket -> string)
    requires !dim.Decades? && IsPublished(dim, ps, dto)
    requires forall b :: InDimension(dim, b) ==> key(b) == KeyOf(b)
    ensures LargestFirst(dto.buckets, key)
  {
    hide IsPublished, KeyOf, TextLess;
    forall i, j | 0 <= i < j < |dto.buckets|
      ensures
        var x, y := dto.buckets[i], dto.buckets[j];
        x.count > y.count || (x.count == y.count && TextLess(key(x.bucket), key(y.bucket)))
    {
      ListedInOrder(dim, ps, dto, i, j);
    }
  }

  predicate EarlierDecade(a: Bucket, b: Bucket) { a.DecadeBucket? && b.DecadeBucket? && a.startYear < b.startYear }

  ghost predicate Ascending(s: seq<Counted>) {
    forall i, j :: 0 <= i < j < |s| ==> EarlierDecade(s[i].bucket, s[j].bucket)
  }

  lemma DecadesAscend(ps: seq<Profile>, dto: DimensionDto)
    requires IsPublished(Decades, ps, dto)
    ensures Ascending(dto.buckets)
  {
    hide IsPublished;
    var s := dto.buckets;
    forall i, j | 0 <= i < j < |s|
      ensures EarlierDecade(s[i].bucket, s[j].bucket)
    {
      ListedInOrder(Decades, ps, dto, i, j);
    }
  }

  function CountryName(b: Bucket): string { if b.CountryBucket? then b.country else "" }
  function RegionName(b: Bucket): string { if b.RegionBucket? then Key2(b.country, b.region) else "" }
  function CityName(b: Bucket): string { if b.CityBucket? then Key3(b.country, b.area, b.city) else "" }
  function StatusName(b: Bucket): string { if b.StatusBucket? then b.status else "" }
  function CompanyName(b: Bucket): string { if b.CompanyBucket? then b.company else "" }
  function OccupationName(b: Bucket): string { if b.OccupationBucket? then b.occupation else "" }

  /** Decades ascend; everything else comes largest first, then by name or by JSON text. */
  lemma KpisAreInOrder(ps: seq<Profile>, k: Kpis)
    requires ArePublished(ps, k)
    ensures Ascending(k.birthYearDecades.buckets)
    ensures LargestFirst(k.residenceCountries.buckets, CountryName)
    ensures LargestFirst(k.residenceRegions.buckets, RegionName)
    ensures LargestFirst(k.residenceCities.buckets, CityName)
    ensures LargestFirst(k.employmentStatuses.buckets, StatusName)
    ensures LargestFirst(k.companies.buckets, CompanyName)
    ensures LargestFirst(k.occupations.buckets, OccupationName)
  {
    hide IsPublished, LargestFirst, Ascending, Key2, Key3;
    DecadesAscend(ps, k.birthYearDecades);
    PublishedLargestFirst(Countries, ps, k.residenceCountries, CountryName);
    PublishedLargestFirst(Regions, ps, k.residenceRegions, RegionName);
    PublishedLargestFirst(Cities, ps, k.residenceCities, CityName);
    PublishedLargestFirst(Statuses, ps, k.employmentStatuses, StatusName);
    PublishedLargestFirst(Companies, ps, k.companies, CompanyName);
    PublishedLargestFirst(Occupations, ps, k.occupations, OccupationName);
  }

  // ----- Keys -----

  /** A text that JSON leaves alone between its quotes. */
  predicate IsPlainText(s: string) { forall i :: 0 <= i < |s| ==> s[i] >= ' ' && s[i] != '"' && s[i] != '\\' }

  lemma PlainCharIsNotEscaped(c: char)
    requires c >= ' ' && c != '"' && c != '\\'
    ensures EscapeChar(c) == [c]
  {
  }

  lemma {:induction false} PlainTextIsNotEscaped(s: string, more: string)
    requires IsPlainText(s)
    ensures Escape(s + more) == s + Escape(more)
  {
    hide EscapeChar;
    if s == [] {
      assert s + more == more;
    } else {
      PlainCharIsNotEscaped(s[0]);
      assert (s + more)[1..] == s[1..] + more;
      PlainTextIsNotEscaped(s[1..], more);
      assert s == [s[0]] + s[1..];
    }
  }

  /** Plain text stays, and a quote or a backslash gets a backslash before it. */
  lemma QuotesAreEscaped(s: string, c: char, more: string)
    requires IsPlainText(s) && (c == '"' || c == '\\')
    ensures Escape(s + ([c] + more)) == s + (['\\', c] + Escape(more))
  {
    PlainTextIsNotEscaped(s, [c] + more);
    assert ([c] + more)[1..] == more;
  }

  function Quoted(s: string): string { "\"" + s + "\"" }

  lemma NothingEscaped()
    ensures Escape([]) == []
  {
  }

  lemma PlainTextIsQuoted(s: string)
    requires IsPlainText(s)
    ensures Quote(s) == Quoted(s)
  {
    hide Escape;
    PlainTextIsNotEscaped(s, []);
    assert s + [] == s;
    assert s + Escape([]) == s by { NothingEscaped(); }
  }

  lemma Bracketed(a: string, b: string, c: string)
    ensures ['['] + (a + ([','] + (b + "]"))) == "[" + a + "," + b + "]"
    ensures ['['] + (a + ([','] + (b + ([','] + (c + "]"))))) == "[" + a + "," + b + "," + c + "]"
  {
    assert ['['] + (a + ([','] + (b + "]"))) == "[" + a + "," + b + "]";
    assert ['['] + (a + ([','] + (b + ([','] + (c + "]"))))) == "[" + a + "," + b + "," + c + "]";
  }

  /** The keys of regions and cities, written out. */
  lemma PlainKeys(country: string, region: string, city: string)
    requires IsPlainText(country) && IsPlainText(region) && IsPlainText(city)
    ensures Key2(country, region) == "[" + Quoted(country) + "," + Quoted(region) + "]"
    ensures Key3(country, Some(region), city) == "[" + Quoted(country) + "," + Quoted(region) + "," + Quoted(city) + "]"
    ensures Key3(country, None, city) == "[" + Quoted(country) + "," + "null" + "," + Quoted(city) + "]"
  {
    hide Quote, Quoted;
    PlainTextIsQuoted(country);
    PlainTextIsQuoted(region);
    PlainTextIsQuoted(city);
    Bracketed(Quoted(country), Quoted(region), Quoted(city));
    Bracketed(Quoted(country), "null", Quoted(city));
  }
}
