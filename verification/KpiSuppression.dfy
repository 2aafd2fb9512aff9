/**
 What suppression hides and what it shows: a reader of the published KPIs learns how many
 profiles of a country live in suppressed cities, but not in which.
 */
module KpiSuppression {
  import opened Calendar
  import opened KpiDimensions
  import opened KpiLaws
  import opened Outcomes
  import opened RegistrationProfile
  import opened RegistrationProfileKpi
  import opened Sorting

  // ----- What it shows -----

  predicate IsCityIn(country: string, b: Bucket) { b.CityBucket? && b.country == country }

  /** The published cities of one country. */
  function CitiesIn(country: string, s: seq<Counted>): seq<Counted> {
    if s == [] then []
    else (if IsCityIn(country, s[0].bucket) then [s[0]] else []) + CitiesIn(country, s[1..])
  }

  ghost predicate IsSuppressed(b: Bucket, ps: seq<Profile>) {
    1 <= Occurrences(Cities, b, ps) < MINIMUM_GROUP_SIZE
  }

  /** How many of the profiles `qs` live in a city of the country that `ps` leave suppressed. */
  ghost function InSuppressedCities(country: string, ps: seq<Profile>, qs: seq<Profile>): nat {
    if qs == [] then 0
    else
      var p := qs[|qs| - 1];
      InSuppressedCities(country, ps, qs[..|qs| - 1])
      + if p.residenceCountryCode == country && IsSuppressed(BucketOf(Cities, p).value, ps) then 1 else 0
  }

  lemma {:induction false} CitiesInKeeps(country: string, s: seq<Counted>)
    ensures forall x :: x in CitiesIn(country, s) <==> x in s && IsCityIn(country, x.bucket)
    ensures NoRepeats(s) ==> NoRepeats(CitiesIn(country, s))
  {
    hide IsCityIn;
    if s != [] {
      CitiesInKeeps(country, s[1..]);
      assert s == [s[0]] + s[1..];
      assert NoRepeats(s) ==> s[0] !in s[1..];
    }
  }

  /** A country's profiles live in listed cities or in suppressed ones. */
  lemma {:induction false} ListedOrSuppressed(country: string, bs: seq<Bucket>, ps: seq<Profile>, qs: seq<Profile>)
    requires forall p :: p in qs ==>
               (BucketOf(Cities, p).value in bs <==>
                  p.residenceCountryCode == country && !IsSuppressed(BucketOf(Cities, p).value, ps))
    ensures Covered(Cities, bs, qs) + InSuppressedCities(country, ps, qs) == Occurrences(Countries, CountryBucket(country), qs)
    decreases |qs|
  {
    hide IsSuppressed;
    if qs != [] {
      var n := |qs| - 1;
      assert qs == qs[..n] + [qs[n]];
      assert forall p :: p in qs[..n] ==> p in qs;
      ListedOrSuppressed(country, bs, ps, qs[..n]);
    }
  }

  lemma {:induction false} NoneSuppressed(country: string, ps: seq<Profile>, qs: seq<Profile>)
    ensures InSuppressedCities(country, ps, qs) == 0 <==>
              forall p :: p in qs ==> !(p.residenceCountryCode == country && IsSuppressed(BucketOf(Cities, p).value, ps))
    decreases |qs|
  {
    hide IsSuppressed, BucketOf;
    if qs != [] {
      var n := |qs| - 1;
      NoneSuppressed(country, ps, qs[..n]);
      assert qs == qs[..n] + [qs[n]];
      assert forall p :: p in qs <==> p in qs[..n] || p == qs[n];
    }
  }

  lemma {:induction false} OneSuppressed(country: string, b: Bucket, ps: seq<Profile>, qs: seq<Profile>)
    requires IsCityIn(country, b) && IsSuppressed(b, ps)
    requires forall c :: IsCityIn(country, c) && IsSuppressed(c, ps) ==> c == b
    ensures InSuppressedCities(country, ps, qs) == Occurrences(Cities, b, qs)
    decreases |qs|
  {
    hide IsSuppressed;
    if qs != [] {
      OneSuppressed(country, b, ps, qs[..|qs| - 1]);
    }
  }

  /**
   A published country's count less those of its published cities is exactly the number of
   its profiles in suppressed cities. So it is 0 exactly when none of its cities is
   suppressed, and the very count of a city that is suppressed alone.
   */
  lemma ResidualIsTheSuppressed(ps: seq<Profile>, k: Kpis, x: Counted)
    requires ArePublished(ps, k) && x in k.residenceCountries.buckets
    ensures x.bucket.CountryBucket?
    ensures
      var country := x.bucket.country;
      var residual := x.count - PublishedTotal(CitiesIn(country, k.residenceCities.buckets));
      && residual == InSuppressedCities(country, ps, ps)
      && (residual == 0 <==> forall b :: IsCityIn(country, b) ==> !IsSuppressed(b, ps))
      && (forall b :: IsCityIn(country, b) && IsSuppressed(b, ps)
                      && (forall c :: IsCityIn(country, c) && IsSuppressed(c, ps) ==> c == b) ==>
            residual == Occurrences(Cities, b, ps))
  {
    hide Occurrences, Sorted, IsPublished, InSuppressedCities, IsSuppressed, CitiesIn;
    CountryOfEntry(ps, k.residenceCountries, x);
    var country := x.bucket.country;
    PublishedCities(country, ps, k.residenceCities);
    var listed := CitiesIn(country, k.residenceCities.buckets);
    TotalIsCovered(Cities, BucketsOf(listed), ps);
    PublishedTotalIsTotal(Cities, listed, ps);
    ListedOrSuppressed(country, BucketsOf(listed), ps, ps);
    SuppressedCitiesHaveProfiles(country, ps);
    NoneSuppressed(country, ps, ps);
    forall b | IsCityIn(country, b) && IsSuppressed(b, ps) && forall c :: IsCityIn(country, c) && IsSuppressed(c, ps) ==> c == b
      ensures InSuppressedCities(country, ps, ps) == Occurrences(Cities, b, ps)
    {
      OneSuppressed(country, b, ps, ps);
    }
  }

  lemma CountryOfEntry(ps: seq<Profile>, countries: DimensionDto, x: Counted)
    requires IsPublished(Countries, ps, countries) && x in countries.buckets
    ensures x.bucket.CountryBucket? && x.count == Occurrences(Countries, CountryBucket(x.bucket.country), ps)
  {
    hide Occurrences, Sorted;
    OccurringBucketsAreInDimension(Countries, x.bucket, ps);
  }

  lemma PublishedCities(country: string, ps: seq<Profile>, cities: DimensionDto)
    requires IsPublished(Cities, ps, cities)
    ensures
      var listed := CitiesIn(country, cities.buckets);
      && NoRepeats(BucketsOf(listed))
      && (forall i :: 0 <= i < |listed| ==> listed[i].count == Occurrences(Cities, listed[i].bucket, ps))
      && (forall p :: p in ps ==>
            (BucketOf(Cities, p).value in BucketsOf(listed) <==>
               p.residenceCountryCode == country && !IsSuppressed(BucketOf(Cities, p).value, ps)))
  {
    hide Occurrences, Sorted, CitiesIn;
    var listed := CitiesIn(country, cities.buckets);
    CitiesInKeeps(country, cities.buckets);
    BucketsListedOnce(Cities, listed, ps);
    forall p | p in ps
      ensures BucketOf(Cities, p).value in BucketsOf(listed) <==>
                p.residenceCountryCode == country && !IsSuppressed(BucketOf(Cities, p).value, ps)
    {
      var b := BucketOf(Cities, p).value;
      var y := Counted(b, Occurrences(Cities, b, ps));
      OccurringMeansOccurs(Cities, b, ps);
      if b in BucketsOf(listed) {
        var i :| 0 <= i < |listed| && BucketsOf(listed)[i] == b;
        assert listed[i] in listed;
      }
      if IsCityIn(country, b) && !IsSuppressed(b, ps) {
        assert y in listed;
        var i :| 0 <= i < |listed| && listed[i] == y;
        assert BucketsOf(listed)[i] == b;
      }
    }
  }

  lemma SuppressedCitiesHaveProfiles(country: string, ps: seq<Profile>)
    ensures (exists b :: IsCityIn(country, b) && IsSuppressed(b, ps)) <==>
              exists p :: p in ps && p.residenceCountryCode == country && IsSuppressed(BucketOf(Cities, p).value, ps)
  {
    hide Occurrences;
    if b :| IsCityIn(country, b) && IsSuppressed(b, ps) {
      OccurringMeansOccurs(Cities, b, ps);
    }
    if p :| p in ps && p.residenceCountryCode == country && IsSuppressed(BucketOf(Cities, p).value, ps) {
      assert IsCityIn(country, BucketOf(Cities, p).value);
    }
  }

  // ----- What it hides -----

  /** Two cities of one country and region. */
  predicate AreNeighbours(a: Bucket, b: Bucket) {
    a.CityBucket? && b.CityBucket? && a.country == b.country && a.area == b.area
  }

  function OtherCity(a: Bucket, b: Bucket, c: Bucket): Bucket {
    if c == a then b else if c == b then a else c
  }

  /** The profile with its home moved from one of the two cities to the other, if it is in one. */
  function Moved(a: Bucket, b: Bucket, p: Profile): Profile
    requires AreNeighbours(a, b)
  {
    if BucketOf(Cities, p) == Some(a) then p.(residenceCity := b.city)
    else if BucketOf(Cities, p) == Some(b) then p.(residenceCity := a.city)
    else p
  }

  function AllMoved(a: Bucket, b: Bucket, ps: seq<Profile>): (r: seq<Profile>)
    requires AreNeighbours(a, b)
    ensures |r| == |ps| && forall i :: 0 <= i < |ps| ==> r[i] == Moved(a, b, ps[i])
  {
    if ps == [] then [] else AllMoved(a, b, ps[..|ps| - 1]) + [Moved(a, b, ps[|ps| - 1])]
  }

  lemma MovedBucket(dim: Dimension, a: Bucket, b: Bucket, p: Profile)
    requires AreNeighbours(a, b)
    ensures !dim.Cities? ==> BucketOf(dim, Moved(a, b, p)) == BucketOf(dim, p)
    ensures dim.Cities? ==> BucketOf(dim, Moved(a, b, p)) == Some(OtherCity(a, b, BucketOf(dim, p).value))
  {
  }

  lemma {:induction false} MovedOccurrences(dim: Dimension, a: Bucket, b: Bucket, c: Bucket, ps: seq<Profile>)
    requires AreNeighbours(a, b)
    ensures Occurrences(dim, c, AllMoved(a, b, ps)) == Occurrences(dim, if dim.Cities? then OtherCity(a, b, c) else c, ps)
    decreases |ps|
  {
    hide BucketOf, Moved;
    if ps != [] {
      var n := |ps| - 1;
      MovedOccurrences(dim, a, b, c, ps[..n]);
      MovedBucket(dim, a, b, ps[n]);
      BucketsAreInDimension(dim, ps[n]);
      OccurrencesAppend(dim, c, AllMoved(a, b, ps[..n]), Moved(a, b, ps[n]));
    }
  }

  lemma MovedDimension(dim: Dimension, a: Bucket, b: Bucket, ps: seq<Profile>, d: DimensionDto)
    requires AreNeighbours(a, b) && IsPublished(dim, ps, d)
    requires Occurrences(Cities, a, ps) < MINIMUM_GROUP_SIZE && Occurrences(Cities, b, ps) < MINIMUM_GROUP_SIZE
    ensures IsPublished(dim, AllMoved(a, b, ps), d)
  {
    hide Occurrences, Sorted, NoRepeats, AllMoved;
    var qs := AllMoved(a, b, ps);
    forall c
      ensures Occurrences(dim, c, qs) == Occurrences(dim, if dim.Cities? then OtherCity(a, b, c) else c, ps)
    {
      MovedOccurrences(dim, a, b, c, ps);
    }
    if HasSmallGroup(dim, ps) {
      var c :| 1 <= Occurrences(dim, c, ps) < MINIMUM_GROUP_SIZE;
      assert 1 <= Occurrences(dim, if dim.Cities? then OtherCity(a, b, c) else c, qs) < MINIMUM_GROUP_SIZE;
    }
    if HasSmallGroup(dim, qs) {
      var c :| 1 <= Occurrences(dim, c, qs) < MINIMUM_GROUP_SIZE;
      assert 1 <= Occurrences(dim, if dim.Cities? then OtherCity(a, b, c) else c, ps) < MINIMUM_GROUP_SIZE;
    }
  }

  /** Active rows storing the profiles. */
  function StoredRows(ps: seq<Profile>): seq<Row> {
    if ps == [] then [] else StoredRows(ps[..|ps| - 1]) + [Row(InputOf(ps[|ps| - 1]), Bool(true), Text("int"))]
  }

  lemma {:induction false} StoredRowsAreCounted(t: Tables, ps: seq<Profile>, now: TimeValue)
    requires Sound(t) && forall p :: p in ps ==> WellFormed(t, p, now)
    ensures CountedProfiles(t, StoredRows(ps), now) == ps
    decreases |ps|
  {
    hide WellFormed, Sound, CountedProfile, InputOf;
    if ps != [] {
      var n := |ps| - 1;
      var p := ps[n];
      assert ps == ps[..n] + [p];
      StoredRowsAreCounted(t, ps[..n], now);
      CountedRowsAreWellFormed(t, Row(InputOf(p), Bool(true), Text("int")), now, p);
      var rows := StoredRows(ps);
      assert rows[..|rows| - 1] == StoredRows(ps[..n]);
    }
  }

  /**
   Exchanging two cities of a region in all profiles, while fewer than five live in each,
   changes no KPI: they tell neither which of the two has how many, nor, when one is
   empty, the name of the other.
   */
  lemma SuppressedCitiesAreInterchangeable(t: Tables, ps: seq<Profile>, a: Bucket, b: Bucket, now: TimeValue, k: Kpis)
    requires Sound(t) && AreNeighbours(a, b) && IsDisplayLine(t, a.city) && IsDisplayLine(t, b.city)
    requires forall p :: p in ps ==> WellFormed(t, p, now)
    requires Occurrences(Cities, a, ps) < MINIMUM_GROUP_SIZE && Occurrences(Cities, b, ps) < MINIMUM_GROUP_SIZE
    requires AreKpis(t, StoredRows(ps), now, k)
    ensures AreKpis(t, StoredRows(AllMoved(a, b, ps)), now, k)
    ensures Occurrences(Cities, a, AllMoved(a, b, ps)) == Occurrences(Cities, b, ps)
    ensures Occurrences(Cities, b, AllMoved(a, b, ps)) == Occurrences(Cities, a, ps)
  {
    hide Occurrences, WellFormed, Sound, IsPublished, AllMoved, IsDisplayLine, CountedProfiles, StoredRows;
    hide AreNeighbours, Moved;
    var qs := AllMoved(a, b, ps);
    StoredRowsAreCounted(t, ps, now);
    forall q | q in qs
      ensures WellFormed(t, q, now)
    {
      var i :| 0 <= i < |qs| && qs[i] == q;
      assert ps[i] in ps;
      MovedIsWellFormed(t, a, b, ps[i], now);
    }
    StoredRowsAreCounted(t, qs, now);
    MovedDimension(Decades, a, b, ps, k.birthYearDecades);
    MovedDimension(Countries, a, b, ps, k.residenceCountries);
    MovedDimension(Regions, a, b, ps, k.residenceRegions);
    MovedDimension(Cities, a, b, ps, k.residenceCities);
    MovedDimension(Statuses, a, b, ps, k.employmentStatuses);
    MovedDimension(Companies, a, b, ps, k.companies);
    MovedDimension(Occupations, a, b, ps, k.occupations);
    MovedOccurrences(Cities, a, b, a, ps);
    MovedOccurrences(Cities, a, b, b, ps);
  }

  lemma MovedIsWellFormed(t: Tables, a: Bucket, b: Bucket, p: Profile, now: TimeValue)
    requires AreNeighbours(a, b) && IsDisplayLine(t, a.city) && IsDisplayLine(t, b.city) && WellFormed(t, p, now)
    ensures WellFormed(t, Moved(a, b, p), now)
  {
    hide IsDisplayLine, IsPhoneNumber, YearOf, IsRegionOf;
  }
}
