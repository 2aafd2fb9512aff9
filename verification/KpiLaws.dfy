/** Conservation and consistency of the published KPIs. */
module KpiLaws {
  import opened KpiDimensions
  import opened Outcomes
  import opened RegistrationProfile
  import opened Sorting

  // ----- Conservation -----

  function Total(dim: Dimension, bs: seq<Bucket>, ps: seq<Profile>): nat {
    if bs == [] then 0 else Occurrences(dim, bs[0], ps) + Total(dim, bs[1..], ps)
  }

  /** How many of the profiles fall into one of the buckets. */
  function Covered(dim: Dimension, bs: seq<Bucket>, ps: seq<Profile>): nat {
    if ps == [] then 0
    else
      var b := BucketOf(dim, ps[|ps| - 1]);
      Covered(dim, bs, ps[..|ps| - 1]) + if b.Some? && b.value in bs then 1 else 0
  }

  lemma {:induction false} TotalOfNone(dim: Dimension, bs: seq<Bucket>)
    ensures Total(dim, bs, []) == 0
  {
    if bs != [] { TotalOfNone(dim, bs[1..]); }
  }

  /** One more profile adds one to the total of distinct buckets exactly when one of them is its own. */
  lemma {:induction false} TotalAppend(dim: Dimension, bs: seq<Bucket>, ps: seq<Profile>, p: Profile)
    requires NoRepeats(bs)
    ensures Total(dim, bs, ps + [p]) ==
            Total(dim, bs, ps) + if BucketOf(dim, p).Some? && BucketOf(dim, p).value in bs then 1 else 0
  {
    hide BucketOf, Occurrences;
    if bs != [] {
      OccurrencesAppend(dim, bs[0], ps, p);
      TotalAppend(dim, bs[1..], ps, p);
      assert bs == [bs[0]] + bs[1..];
      assert bs[0] !in bs[1..];
    }
  }

  /** Counting bucket by bucket and profile by profile gives the same. */
  lemma {:induction false} TotalIsCovered(dim: Dimension, bs: seq<Bucket>, ps: seq<Profile>)
    requires NoRepeats(bs)
    ensures Total(dim, bs, ps) == Covered(dim, bs, ps)
    decreases |ps|
  {
    hide BucketOf;
    if ps == [] {
      TotalOfNone(dim, bs);
    } else {
      var n := |ps| - 1;
      TotalIsCovered(dim, bs, ps[..n]);
      TotalAppend(dim, bs, ps[..n], ps[n]);
      assert ps == ps[..n] + [ps[n]];
    }
  }

  /** Every profile is covered exactly when every one has a bucket and it is among these. */
  lemma {:induction false} CoveredIsAll(dim: Dimension, bs: seq<Bucket>, ps: seq<Profile>)
    ensures Covered(dim, bs, ps) <= |ps|
    ensures Covered(dim, bs, ps) == |ps| <==>
              forall p :: p in ps ==> BucketOf(dim, p).Some? && BucketOf(dim, p).value in bs
    decreases |ps|
  {
    hide BucketOf;
    if ps != [] {
      var n := |ps| - 1;
      CoveredIsAll(dim, bs, ps[..n]);
      assert ps == ps[..n] + [ps[n]];
      assert forall p :: p in ps <==> p in ps[..n] || p == ps[n];
    }
  }

  lemma {:induction false} OccurringMeansOccurs(dim: Dimension, b: Bucket, ps: seq<Profile>)
    ensures Occurrences(dim, b, ps) > 0 <==> exists p :: p in ps && BucketOf(dim, p) == Some(b)
    decreases |ps|
  {
    hide BucketOf;
    if ps != [] {
      var n := |ps| - 1;
      OccurringMeansOccurs(dim, b, ps[..n]);
      assert ps == ps[..n] + [ps[n]];
      assert ps[n] in ps;
      if p :| p in ps && BucketOf(dim, p) == Some(b) {
        assert p in ps[..n] || p == ps[n];
      }
      if p :| p in ps[..n] && BucketOf(dim, p) == Some(b) {
        assert p in ps;
      }
    }
  }

  /** In a mandatory dimension the counts of all occurring buckets add up to the number of profiles. */
  lemma CountsAddUpToProfiles(dim: Dimension, bs: seq<Bucket>, ps: seq<Profile>)
    requires Mandatory(dim) && NoRepeats(bs)
    requires forall b :: b in bs <==> Occurrences(dim, b, ps) > 0
    ensures Total(dim, bs, ps) == |ps|
  {
    hide BucketOf, Occurrences;
    TotalIsCovered(dim, bs, ps);
    CoveredIsAll(dim, bs, ps);
    forall p | p in ps
      ensures BucketOf(dim, p).Some? && BucketOf(dim, p).value in bs
    {
      BucketsAreInDimension(dim, p);
      OccurringMeansOccurs(dim, BucketOf(dim, p).value, ps);
    }
  }

  function PublishedTotal(s: seq<Counted>): nat {
    if s == [] then 0 else s[0].count + PublishedTotal(s[1..])
  }

  function BucketsOf(s: seq<Counted>): (r: seq<Bucket>)
    ensures |r| == |s| && forall i :: 0 <= i < |s| ==> r[i] == s[i].bucket
  {
    if s == [] then [] else [s[0].bucket] + BucketsOf(s[1..])
  }

  lemma {:induction false} PublishedTotalIsTotal(dim: Dimension, s: seq<Counted>, ps: seq<Profile>)
    requires forall i :: 0 <= i < |s| ==> s[i].count == Occurrences(dim, s[i].bucket, ps)
    ensures PublishedTotal(s) == Total(dim, BucketsOf(s), ps)
  {
    hide Occurrences;
    if s != [] { PublishedTotalIsTotal(dim, s[1..], ps); }
  }

  /**
   In a mandatory dimension the published counts never exceed the number of counted
   profiles, and add up to it exactly when nothing was suppressed.
   */
  lemma PublishedCountsAddUpUnlessSuppressed(dim: Dimension, ps: seq<Profile>, dto: DimensionDto)
    requires Mandatory(dim) && IsPublished(dim, ps, dto)
    ensures PublishedTotal(dto.buckets) <= |ps|
    ensures PublishedTotal(dto.buckets) == |ps| <==> !dto.suppressionApplied
  {
    hide BucketOf, Occurrences, Sorted, Total, Covered;
    var bs := BucketsOf(dto.buckets);
    PublishedEntries(dim, ps, dto);
    PublishedTotalIsTotal(dim, dto.buckets, ps);
    TotalIsCovered(dim, bs, ps);
    CoveredIsAll(dim, bs, ps);
    forall p | p in ps
      ensures BucketOf(dim, p).Some? && Occurrences(dim, BucketOf(dim, p).value, ps) >= 1
    {
      BucketsAreInDimension(dim, p);
      OccurringMeansOccurs(dim, BucketOf(dim, p).value, ps);
    }
    if dto.suppressionApplied {
      var b :| 1 <= Occurrences(dim, b, ps) < MINIMUM_GROUP_SIZE;
      OccurringMeansOccurs(dim, b, ps);
      assert b !in bs;
    }
  }

  /** Distinct entries with true counts are of distinct buckets. */
  lemma BucketsListedOnce(dim: Dimension, counted: seq<Counted>, ps: seq<Profile>)
    requires NoRepeats(counted)
    requires forall x :: x in counted ==> x.count == Occurrences(dim, x.bucket, ps)
    ensures NoRepeats(BucketsOf(counted))
    ensures forall i :: 0 <= i < |counted| ==> counted[i].count == Occurrences(dim, counted[i].bucket, ps)
  {
    hide Occurrences;
    forall i | 0 <= i < |counted|
      ensures counted[i] == Counted(BucketsOf(counted)[i], Occurrences(dim, BucketsOf(counted)[i], ps))
    {
      assert counted[i] in counted;
    }
  }

  /** The buckets published are distinct, and are those of at least five profiles. */
  lemma PublishedEntries(dim: Dimension, ps: seq<Profile>, dto: DimensionDto)
    requires IsPublished(dim, ps, dto)
    ensures forall i :: 0 <= i < |dto.buckets| ==> dto.buckets[i].count == Occurrences(dim, dto.buckets[i].bucket, ps)
    ensures NoRepeats(BucketsOf(dto.buckets))
    ensures forall b :: b in BucketsOf(dto.buckets) <==> Occurrences(dim, b, ps) >= MINIMUM_GROUP_SIZE
  {
    hide Occurrences, Sorted, NoRepeats;
    var bs := BucketsOf(dto.buckets);
    BucketsListedOnce(dim, dto.buckets, ps);
    forall b
      ensures b in bs <==> Occurrences(dim, b, ps) >= MINIMUM_GROUP_SIZE
    {
      if b in bs {
        var i :| 0 <= i < |bs| && bs[i] == b;
        assert dto.buckets[i] in dto.buckets;
      }
      if Occurrences(dim, b, ps) >= MINIMUM_GROUP_SIZE {
        var x := Counted(b, Occurrences(dim, b, ps));
        assert x in dto.buckets;
        var i :| 0 <= i < |dto.buckets| && dto.buckets[i] == x;
        assert bs[i] == b;
      }
    }
  }

  // ----- Consistency across dimensions -----

  /** If every profile of one bucket is of another, the other's count is no smaller. */
  lemma {:induction false} WiderBucketsCountMore(d: Dimension, b: Bucket, e: Dimension, c: Bucket, ps: seq<Profile>)
    requires forall p :: p in ps && BucketOf(d, p) == Some(b) ==> BucketOf(e, p) == Some(c)
    ensures Occurrences(d, b, ps) <= Occurrences(e, c, ps)
    decreases |ps|
  {
    hide BucketOf;
    if ps != [] {
      var n := |ps| - 1;
      assert ps == ps[..n] + [ps[n]];
      assert forall p :: p in ps[..n] ==> p in ps;
      WiderBucketsCountMore(d, b, e, c, ps[..n]);
    }
  }

  /** A published region has its country published, with at least its count. */
  lemma RegionsHaveTheirCountry(ps: seq<Profile>, regions: DimensionDto, countries: DimensionDto, x: Counted)
    requires IsPublished(Regions, ps, regions) && IsPublished(Countries, ps, countries) && x in regions.buckets
    ensures x.bucket.RegionBucket?
    ensures exists y :: y in countries.buckets && y.bucket == CountryBucket(x.bucket.country) && y.count >= x.count
  {
    hide Occurrences, Sorted;
    OccurringBucketsAreInDimension(Regions, x.bucket, ps);
    var c := CountryBucket(x.bucket.country);
    WiderBucketsCountMore(Regions, x.bucket, Countries, c, ps);
    assert Counted(c, Occurrences(Countries, c, ps)) in countries.buckets;
  }

  /** A published city has its country published, and its region if it has one, with at least its count. */
  lemma CitiesHaveTheirCountryAndRegion(
      ps: seq<Profile>, cities: DimensionDto, regions: DimensionDto, countries: DimensionDto, x: Counted)
    requires IsPublished(Cities, ps, cities) && IsPublished(Regions, ps, regions) && IsPublished(Countries, ps, countries)
    requires x in cities.buckets
    ensures x.bucket.CityBucket?
    ensures exists y :: y in countries.buckets && y.bucket == CountryBucket(x.bucket.country) && y.count >= x.count
    ensures x.bucket.area.Some? ==>
              var r := RegionBucket(x.bucket.country, x.bucket.area.value);
              exists y :: y in regions.buckets && y.bucket == r && y.count >= x.count
  {
    hide Occurrences, Sorted;
    OccurringBucketsAreInDimension(Cities, x.bucket, ps);
    var c := CountryBucket(x.bucket.country);
    WiderBucketsCountMore(Cities, x.bucket, Countries, c, ps);
    assert Counted(c, Occurrences(Countries, c, ps)) in countries.buckets;
    if x.bucket.area.Some? {
      var r := RegionBucket(x.bucket.country, x.bucket.area.value);
      WiderBucketsCountMore(Cities, x.bucket, Regions, r, ps);
      assert Counted(r, Occurrences(Regions, r, ps)) in regions.buckets;
    }
  }

  /** When the buckets are the cities of one country, the profiles covered are those of the country. */
  lemma {:induction false} CitiesCoverTheirCountry(country: string, bs: seq<Bucket>, ps: seq<Profile>)
    requires forall p :: p in ps && p.residenceCountryCode == country ==> BucketOf(Cities, p).value in bs
    requires forall b :: b in bs ==> b.CityBucket? && b.country == country
    ensures Covered(Cities, bs, ps) == Occurrences(Countries, CountryBucket(country), ps)
    decreases |ps|
  {
    if ps != [] {
      var n := |ps| - 1;
      assert ps == ps[..n] + [ps[n]];
      assert forall p :: p in ps[..n] ==> p in ps;
      CitiesCoverTheirCountry(country, bs, ps[..n]);
    }
  }

  /** Before suppression, the counts of a country's cities add up to the count of the country. */
  lemma CityCountsAddUpToTheCountry(country: string, bs: seq<Bucket>, ps: seq<Profile>)
    requires NoRepeats(bs)
    requires forall b :: b in bs <==> Occurrences(Cities, b, ps) > 0 && b.CityBucket? && b.country == country
    ensures Total(Cities, bs, ps) == Occurrences(Countries, CountryBucket(country), ps)
  {
    hide Occurrences;
    TotalIsCovered(Cities, bs, ps);
    forall p | p in ps && p.residenceCountryCode == country
      ensures BucketOf(Cities, p).value in bs
    {
      OccurringMeansOccurs(Cities, BucketOf(Cities, p).value, ps);
    }
    CitiesCoverTheirCountry(country, bs, ps);
  }
}
