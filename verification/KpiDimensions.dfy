/**
 What the registration KPIs of `backend/src/contracts/registrationProfileKpiContracts.ts`
 are: the seven dimensions, their buckets and keys, and the published form of each.
 */
module KpiDimensions {
  import opened Decimal
  import opened JsText
  import opened JsonKeys
  import opened Outcomes
  import opened RegistrationProfile
  import opened Sorting

  const MINIMUM_GROUP_SIZE := 5

  datatype Dimension = Decades | Countries | Regions | Cities | Statuses | Companies | Occupations

  datatype Bucket =
    | DecadeBucket(startYear: int, endYear: int)
    | CountryBucket(country: string)
    | RegionBucket(country: string, region: string)
    | CityBucket(country: string, area: Option<string>, city: string)
    | StatusBucket(status: string)
    | CompanyBucket(company: string)
    | OccupationBucket(occupation: string)

  datatype Counted = Counted(bucket: Bucket, count: nat)

  datatype DimensionDto = DimensionDto(buckets: seq<Counted>, suppressionApplied: bool)

  /** Every counted profile falls into one bucket of these dimensions; of the others it may fall into none. */
  predicate Mandatory(dim: Dimension) { dim.Decades? || dim.Countries? || dim.Cities? || dim.Statuses? }

  function BucketOf(dim: Dimension, p: Profile): Option<Bucket> {
    match dim
    case Decades => Some(DecadeBucket(p.birthYear / 10 * 10, p.birthYear / 10 * 10 + 9))
    case Countries => Some(CountryBucket(p.residenceCountryCode))
    case Regions =>
      if p.residenceRegion.None? then None else Some(RegionBucket(p.residenceCountryCode, p.residenceRegion.value))
    case Cities => Some(CityBucket(p.residenceCountryCode, p.residenceRegion, p.residenceCity))
    case Statuses => Some(StatusBucket(p.employmentStatus))
    case Companies => if p.company.None? then None else Some(CompanyBucket(p.company.value))
    case Occupations => if p.occupation.None? then None else Some(OccupationBucket(p.occupation.value))
  }

  predicate InDimension(dim: Dimension, b: Bucket) {
    match dim
    case Decades => b.DecadeBucket? && b.endYear == b.startYear + 9
    case Countries => b.CountryBucket?
    case Regions => b.RegionBucket?
    case Cities => b.CityBucket?
    case Statuses => b.StatusBucket?
    case Companies => b.CompanyBucket?
    case Occupations => b.OccupationBucket?
  }

  /** The key a bucket has in its map, and by which it is sorted. */
  function KeyOf(b: Bucket): string {
    match b
    case DecadeBucket(start, _) => IntText(start)
    case CountryBucket(c) => c
    case RegionBucket(c, r) => Key2(c, r)
    case CityBucket(c, a, city) => Key3(c, a, city)
    case StatusBucket(s) => s
    case CompanyBucket(s) => s
    case OccupationBucket(s) => s
  }

  lemma SignOfIntText(n: int)
    ensures IntText(n)[0] == '-' <==> n < 0
  {
  }

  lemma IntTextIsInjective(m: int, n: int)
    requires IntText(m) == IntText(n)
    ensures m == n
  {
    hide ToDecimal, ValueOf;
    SignOfIntText(m);
    SignOfIntText(n);
    if m >= 0 && n >= 0 {
      PrintThenRead(m);
      PrintThenRead(n);
    } else if m < 0 && n < 0 {
      assert IntText(m)[1..] == ToDecimal(-m) && IntText(n)[1..] == ToDecimal(-n);
      PrintThenRead(-m);
      PrintThenRead(-n);
    }
  }

  /** Within a dimension a key belongs to one bucket only. */
  lemma KeyIsInjective(dim: Dimension, b: Bucket, c: Bucket)
    requires InDimension(dim, b) && InDimension(dim, c) && KeyOf(b) == KeyOf(c)
    ensures b == c
  {
    hide Key2, Key3, IntText;
    match dim
    case Decades => IntTextIsInjective(b.startYear, c.startYear);
    case Regions => Key2IsInjective(b.country, b.region, c.country, c.region);
    case Cities => Key3IsInjective(b.country, b.area, b.city, c.country, c.area, c.city);
    case _ =>
  }

  lemma BucketsAreInDimension(dim: Dimension, p: Profile)
    ensures BucketOf(dim, p).Some? ==> InDimension(dim, BucketOf(dim, p).value)
    ensures Mandatory(dim) ==> BucketOf(dim, p).Some?
  {
  }

  // ----- Counting -----

  /** How many of the profiles fall into a bucket. */
  function Occurrences(dim: Dimension, b: Bucket, ps: seq<Profile>): nat {
    if ps == [] then 0
    else Occurrences(dim, b, ps[..|ps| - 1]) + if BucketOf(dim, ps[|ps| - 1]) == Some(b) then 1 else 0
  }

  lemma OccurrencesAppend(dim: Dimension, b: Bucket, ps: seq<Profile>, p: Profile)
    ensures Occurrences(dim, b, ps + [p]) == Occurrences(dim, b, ps) + if BucketOf(dim, p) == Some(b) then 1 else 0
  {
    assert (ps + [p])[..|ps|] == ps;
  }

  lemma {:induction false} OccurrencesAddUp(dim: Dimension, b: Bucket, ps: seq<Profile>, qs: seq<Profile>)
    ensures Occurrences(dim, b, ps + qs) == Occurrences(dim, b, ps) + Occurrences(dim, b, qs)
    decreases |qs|
  {
    hide BucketOf;
    if qs == [] {
      assert ps + qs == ps;
    } else {
      var n := |qs| - 1;
      OccurrencesAddUp(dim, b, ps, qs[..n]);
      assert ps + qs == (ps + qs[..n]) + [qs[n]];
      OccurrencesAppend(dim, b, ps + qs[..n], qs[n]);
    }
  }

  lemma OccurrencesWithout(dim: Dimension, b: Bucket, ps: seq<Profile>, i: nat)
    requires i < |ps|
    ensures Occurrences(dim, b, ps) == Occurrences(dim, b, Without(ps, i)) + if BucketOf(dim, ps[i]) == Some(b) then 1 else 0
  {
    hide BucketOf, Occurrences;
    var p := ps[i];
    OccurrencesAddUp(dim, b, ps[..i], ps[i + 1..]);
    OccurrencesAppend(dim, b, ps[..i], p);
    OccurrencesAddUp(dim, b, ps[..i] + [p], ps[i + 1..]);
    assert ps == ps[..i] + [p] + ps[i + 1..];
  }

  /** Counts do not depend on the order of the profiles. */
  lemma {:induction false} OccurrencesOfRearranged(dim: Dimension, b: Bucket, ps: seq<Profile>, qs: seq<Profile>)
    requires multiset(ps) == multiset(qs)
    ensures Occurrences(dim, b, ps) == Occurrences(dim, b, qs)
    decreases |ps|
  {
    hide BucketOf, Without;
    SameElements(ps, qs);
    if ps != [] {
      assert ps[0] in qs;
      var i :| 0 <= i < |qs| && qs[i] == ps[0];
      WithoutRemovesOne(qs, i);
      WithoutRemovesOne(ps, 0);
      OccurrencesOfRearranged(dim, b, Without(ps, 0), Without(qs, i));
      OccurrencesWithout(dim, b, ps, 0);
      OccurrencesWithout(dim, b, qs, i);
    }
  }

  lemma {:induction false} OccurringBucketsAreInDimension(dim: Dimension, b: Bucket, ps: seq<Profile>)
    requires Occurrences(dim, b, ps) > 0
    ensures InDimension(dim, b)
  {
    hide BucketOf, InDimension;
    var p := ps[|ps| - 1];
    BucketsAreInDimension(dim, p);
    if BucketOf(dim, p) != Some(b) {
      OccurringBucketsAreInDimension(dim, b, ps[..|ps| - 1]);
    }
  }

  // ----- The published form -----

  /** The comparators: decades by year, all others by descending count and then by key. */
  predicate Before(x: Counted, y: Counted) {
    if x.bucket.DecadeBucket? && y.bucket.DecadeBucket? then x.bucket.startYear < y.bucket.startYear
    else x.count > y.count || (x.count == y.count && TextLess(KeyOf(x.bucket), KeyOf(y.bucket)))
  }

  lemma BeforeIsAnOrder(dim: Dimension, x: Counted, y: Counted, z: Counted)
    requires InDimension(dim, x.bucket) && InDimension(dim, y.bucket) && InDimension(dim, z.bucket)
    ensures Before(x, y) ==> !Before(y, x)
    ensures !Before(y, x) && !Before(z, y) ==> !Before(z, x)
  {
    hide KeyOf, TextLess;
    TextOrder(KeyOf(x.bucket), KeyOf(y.bucket), KeyOf(z.bucket));
  }

  /** Each comparator is a strict order that tells the entries of its dimension apart. */
  lemma BeforeTellsApart(dim: Dimension, x: Counted, y: Counted)
    requires InDimension(dim, x.bucket) && InDimension(dim, y.bucket)
    requires !Before(x, y) && !Before(y, x)
    ensures x.bucket == y.bucket
  {
    hide KeyOf, TextLess;
    TextOrder(KeyOf(x.bucket), KeyOf(y.bucket), KeyOf(y.bucket));
    if !dim.Decades? {
      KeyIsInjective(dim, x.bucket, y.bucket);
    }
  }

  /** Some bucket is occupied, but by fewer than five profiles. */
  ghost predicate HasSmallGroup(dim: Dimension, ps: seq<Profile>) {
    exists b :: 1 <= Occurrences(dim, b, ps) < MINIMUM_GROUP_SIZE
  }

  /**
   The published form of a dimension: the buckets that at least five profiles fall into,
   each once, with its true count, in order; and whether any smaller group was held back.
   */
  ghost predicate IsPublished(dim: Dimension, ps: seq<Profile>, dto: DimensionDto) {
    && (forall x :: x in dto.buckets <==> x.count >= MINIMUM_GROUP_SIZE && x.count == Occurrences(dim, x.bucket, ps))
    && NoRepeats(dto.buckets)
    && Sorted(Before, dto.buckets)
    && (dto.suppressionApplied <==> HasSmallGroup(dim, ps))
  }

  /** The published form is the same for every order of the profiles, and there is only one. */
  lemma PublishedFormIsUnique(dim: Dimension, ps: seq<Profile>, d: DimensionDto, qs: seq<Profile>, e: DimensionDto)
    requires multiset(ps) == multiset(qs) && IsPublished(dim, ps, d) && IsPublished(dim, qs, e)
    ensures d == e
  {
    hide Before, Occurrences, Sorted;
    forall b
      ensures Occurrences(dim, b, ps) == Occurrences(dim, b, qs)
    {
      OccurrencesOfRearranged(dim, b, ps, qs);
    }
    SameSetSameMultiset(d.buckets, e.buckets);
    forall x, y | x in d.buckets && y in d.buckets && !Before(x, y) && !Before(y, x)
      ensures x == y
    {
      OccurringBucketsAreInDimension(dim, x.bucket, ps);
      OccurringBucketsAreInDimension(dim, y.bucket, ps);
      BeforeTellsApart(dim, x, y);
    }
    SortedIsUnique(Before, d.buckets, e.buckets);
  }

  /** A bucket is listed exactly when its group is large enough, and then at one place only. */
  lemma BucketsAreListedOnce(dim: Dimension, ps: seq<Profile>, dto: DimensionDto, b: Bucket)
    requires IsPublished(dim, ps, dto)
    ensures Occurrences(dim, b, ps) >= MINIMUM_GROUP_SIZE <==> exists i :: 0 <= i < |dto.buckets| && dto.buckets[i].bucket == b
    ensures forall i, j :: 0 <= i < j < |dto.buckets| && dto.buckets[i].bucket == b ==> dto.buckets[j].bucket != b
  {
    hide Before, Occurrences, Sorted;
    var c := Occurrences(dim, b, ps);
    if c >= MINIMUM_GROUP_SIZE {
      assert Counted(b, c) in dto.buckets;
    }
    forall i | 0 <= i < |dto.buckets|
      ensures dto.buckets[i] == Counted(dto.buckets[i].bucket, Occurrences(dim, dto.buckets[i].bucket, ps))
      ensures dto.buckets[i].count >= MINIMUM_GROUP_SIZE
    {
      assert dto.buckets[i] in dto.buckets;
    }
  }
}
