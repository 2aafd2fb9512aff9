/**
 `buildRegistrationProfileKpis` of
 `backend/src/contracts/registrationProfileKpiContracts.ts`: rows are validated, counted
 into seven maps, and published with small groups held back.
 */
module RegistrationProfileKpi {
  import opened Calendar
  import opened KpiDimensions
  import opened KpiLaws
  import opened Outcomes
  import opened RegistrationProfile
  import opened Sorting

  datatype Row = Row(input: Input, isActive: JsValue, birthYearBsonType: JsValue)

  datatype Kpis = Kpis(
    minimumGroupSize: int, birthYearDecades: DimensionDto, residenceCountries: DimensionDto, residenceRegions: DimensionDto,
    residenceCities: DimensionDto, employmentStatuses: DimensionDto, companies: DimensionDto, occupations: DimensionDto)

  /** Every stored value is the very value validation returns. */
  predicate IsCanonicalStoredProfile(row: Row, profile: Profile) {
    row.birthYearBsonType == Text("int") && row.input == InputOf(profile)
  }

  /** The profile a row is counted with, if it is counted. */
  function CountedProfile(t: Tables, row: Row, now: TimeValue): Option<Profile> {
    if row.isActive != Bool(true) then None
    else
      match Assess(t, row.input, now)
      case Rejected(_) => None
      case Valid(p) => if IsCanonicalStoredProfile(row, p) then Some(p) else None
  }

  function CountedProfiles(t: Tables, rows: seq<Row>, now: TimeValue): seq<Profile> {
    if rows == [] then []
    else
      var before := CountedProfiles(t, rows[..|rows| - 1], now);
      match CountedProfile(t, rows[|rows| - 1], now)
      case None => before
      case Some(p) => before + [p]
  }

  /** Each dimension is published from the profiles. */
  ghost predicate ArePublished(ps: seq<Profile>, k: Kpis) {
    && k.minimumGroupSize == MINIMUM_GROUP_SIZE
    && IsPublished(Decades, ps, k.birthYearDecades)
    && IsPublished(Countries, ps, k.residenceCountries)
    && IsPublished(Regions, ps, k.residenceRegions)
    && IsPublished(Cities, ps, k.residenceCities)
    && IsPublished(Statuses, ps, k.employmentStatuses)
    && IsPublished(Companies, ps, k.companies)
    && IsPublished(Occupations, ps, k.occupations)
  }

  /** The KPIs of some rows are published from the profiles counted. */
  ghost predicate AreKpis(t: Tables, rows: seq<Row>, now: TimeValue, k: Kpis) {
    ArePublished(CountedProfiles(t, rows, now), k)
  }

  // ----- Counting -----

  /** A `Map` from keys to counted buckets, with its keys in order of insertion. */
  class CountMap {
    var order: seq<string>
    var table: map<string, Counted>

    ghost predicate Valid()
      reads this
    {
      NoRepeats(order) && forall k :: k in order <==> k in table
    }

    constructor ()
      ensures Valid() && table == map[]
    {
      order, table := [], map[];
    }

    method CountBucket(key: string, bucket: Bucket)
      requires Valid()
      modifies this
      ensures Valid()
      ensures table == Added(old(table), key, bucket)
    {
      if key in table {
        table := table[key := Counted(table[key].bucket, table[key].count + 1)];
        return;
      }
      order := order + [key];
      table := table[key := Counted(bucket, 1)];
    }

    /** The values in order of insertion. */
    function Values(): (r: seq<Counted>)
      requires Valid()
      reads this
      ensures forall x :: x in r <==> x in table.Values
    {
      var r := ValuesOf(order, table);
      assert forall x :: x in r <==> x in table.Values by { ValuesAreAll(order, table); }
      r
    }
  }

  function ValuesOf(order: seq<string>, table: map<string, Counted>): (r: seq<Counted>)
    requires forall k :: k in order ==> k in table
  {
    if order == [] then [] else [table[order[0]]] + ValuesOf(order[1..], table)
  }

  lemma {:induction false} ValueMeansKey(order: seq<string>, table: map<string, Counted>, x: Counted)
    requires forall k :: k in order ==> k in table
    ensures x in ValuesOf(order, table) <==> exists k :: k in order && table[k] == x
  {
    if order != [] {
      ValueMeansKey(order[1..], table, x);
      assert order == [order[0]] + order[1..];
    }
  }

  lemma ValuesAreAll(order: seq<string>, table: map<string, Counted>)
    requires forall k :: k in order <==> k in table
    ensures forall x :: x in ValuesOf(order, table) <==> x in table.Values
  {
    forall x
      ensures x in ValuesOf(order, table) <==> x in table.Values
    {
      ValueMeansKey(order, table, x);
    }
  }

  /** The effect of counting one bucket under a key. */
  function Added(table: map<string, Counted>, key: string, bucket: Bucket): map<string, Counted> {
    table[key := if key in table then Counted(table[key].bucket, table[key].count + 1) else Counted(bucket, 1)]
  }

  function AddedIfAny(table: map<string, Counted>, b: Option<Bucket>): map<string, Counted> {
    match b
    case None => table
    case Some(bucket) => Added(table, KeyOf(bucket), bucket)
  }

  /** A map tallies profiles when it holds each occurring bucket under its key with its count, and nothing else. */
  ghost predicate Tallies(dim: Dimension, table: map<string, Counted>, ps: seq<Profile>) {
    && (forall k :: k in table ==>
          && KeyOf(table[k].bucket) == k
          && table[k].count == Occurrences(dim, table[k].bucket, ps) > 0)
    && (forall b :: Occurrences(dim, b, ps) > 0 ==> KeyOf(b) in table)
  }

  lemma TalliedEntry(dim: Dimension, table: map<string, Counted>, ps: seq<Profile>, b: Bucket)
    requires Tallies(dim, table, ps) && InDimension(dim, b)
    ensures KeyOf(b) in table ==> table[KeyOf(b)] == Counted(b, Occurrences(dim, b, ps))
    ensures KeyOf(b) !in table ==> Occurrences(dim, b, ps) == 0
  {
    hide Occurrences, KeyOf, InDimension;
    if KeyOf(b) in table {
      var c := table[KeyOf(b)].bucket;
      OccurringBucketsAreInDimension(dim, c, ps);
      KeyIsInjective(dim, b, c);
    }
  }

  lemma TallyStep(dim: Dimension, table: map<string, Counted>, ps: seq<Profile>, p: Profile)
    requires Tallies(dim, table, ps)
    ensures Tallies(dim, AddedIfAny(table, BucketOf(dim, p)), ps + [p])
  {
    hide Occurrences, KeyOf, InDimension, BucketOf, Added, Tallies;
    forall b
      ensures Occurrences(dim, b, ps + [p]) == Occurrences(dim, b, ps) + if BucketOf(dim, p) == Some(b) then 1 else 0
    {
      OccurrencesAppend(dim, b, ps, p);
    }
    if BucketOf(dim, p).Some? {
      BucketsAreInDimension(dim, p);
      TalliesWithOneMore(dim, table, ps, ps + [p], BucketOf(dim, p).value);
    } else {
      TalliesUnchanged(dim, table, ps, ps + [p]);
    }
  }

  lemma TalliesUnchanged(dim: Dimension, table: map<string, Counted>, ps: seq<Profile>, qs: seq<Profile>)
    requires Tallies(dim, table, ps)
    requires forall b :: Occurrences(dim, b, qs) == Occurrences(dim, b, ps)
    ensures Tallies(dim, table, qs)
  {
    hide Occurrences, KeyOf;
  }

  lemma TalliesWithOneMore(dim: Dimension, table: map<string, Counted>, ps: seq<Profile>, qs: seq<Profile>, bucket: Bucket)
    requires Tallies(dim, table, ps) && InDimension(dim, bucket)
    requires forall b :: Occurrences(dim, b, qs) == Occurrences(dim, b, ps) + if b == bucket then 1 else 0
    ensures Tallies(dim, Added(table, KeyOf(bucket), bucket), qs)
  {
    hide Occurrences, KeyOf, InDimension;
    var more := Added(table, KeyOf(bucket), bucket);
    forall k | k in more
      ensures KeyOf(more[k].bucket) == k && more[k].count == Occurrences(dim, more[k].bucket, qs) > 0
    {
      EntryWithOneMore(dim, table, ps, qs, bucket, k);
    }
    forall b | Occurrences(dim, b, qs) > 0
      ensures KeyOf(b) in more
    {
      assert b != bucket ==> KeyOf(b) in table;
    }
  }

  lemma EntryWithOneMore(
      dim: Dimension, table: map<string, Counted>, ps: seq<Profile>, qs: seq<Profile>, bucket: Bucket, k: string)
    requires Tallies(dim, table, ps) && InDimension(dim, bucket)
    requires forall b :: Occurrences(dim, b, qs) == Occurrences(dim, b, ps) + if b == bucket then 1 else 0
    requires k in table || k == KeyOf(bucket)
    ensures
      var x := Added(table, KeyOf(bucket), bucket)[k];
      KeyOf(x.bucket) == k && x.count == Occurrences(dim, x.bucket, qs) > 0
  {
    hide Occurrences, KeyOf, InDimension;
    if k == KeyOf(bucket) {
      TalliedEntry(dim, table, ps, bucket);
    } else {
      assert table[k].bucket != bucket;
    }
  }

  // ----- Publishing -----

  function Reportable(s: seq<Counted>): seq<Counted> {
    if s == [] then []
    else if s[0].count >= MINIMUM_GROUP_SIZE then [s[0]] + Reportable(s[1..])
    else Reportable(s[1..])
  }

  /** Filter, sort, and say whether anything was filtered out. */
  function PublishDimension(counted: seq<Counted>): DimensionDto {
    DimensionDto(Sort(Before, Reportable(counted)), exists i :: 0 <= i < |counted| && counted[i].count < MINIMUM_GROUP_SIZE)
  }

  lemma {:induction false} ReportableKeeps(s: seq<Counted>)
    ensures forall x :: x in Reportable(s) <==> x in s && x.count >= MINIMUM_GROUP_SIZE
    ensures NoRepeats(s) ==> NoRepeats(Reportable(s))
  {
    if s != [] {
      ReportableKeeps(s[1..]);
      assert s == [s[0]] + s[1..];
      assert NoRepeats(s) ==> s[0] !in s[1..];
    }
  }

  /** Published from a tally, a dimension is what it should be. */
  lemma PublishedFromTally(dim: Dimension, table: map<string, Counted>, ps: seq<Profile>, counted: seq<Counted>)
    requires Tallies(dim, table, ps) && NoRepeats(counted)
    requires forall x :: x in counted <==> x in table.Values
    ensures IsPublished(dim, ps, PublishDimension(counted))
  {
    hide Occurrences, KeyOf, InDimension, BucketOf, Before, Sorted, Sort, NoRepeats;
    CountedAreOccurring(dim, table, ps, counted);
    var kept := Reportable(counted);
    ReportableKeeps(counted);
    forall x | x in kept
      ensures InDimension(dim, x.bucket)
    {
      OccurringBucketsAreInDimension(dim, x.bucket, ps);
    }
    SortedReportables(dim, kept);
    SuppressionIsSeen(dim, ps, counted);
  }

  lemma SortedReportables(dim: Dimension, kept: seq<Counted>)
    requires NoRepeats(kept) && forall x :: x in kept ==> InDimension(dim, x.bucket)
    ensures
      var r := Sort(Before, kept);
      Sorted(Before, r) && NoRepeats(r) && (forall x :: x in r <==> x in kept)
  {
    hide InDimension, Before, Sorted, Sort, NoRepeats;
    var domain := set x | x in kept;
    OrderOnDomain(dim, domain);
    SortSorts(Before, domain, kept);
    SortKeepsElements(Before, kept);
    SameElements(Sort(Before, kept), kept);
    RearrangedWithoutRepeats(kept, Sort(Before, kept));
  }

  lemma OrderOnDomain(dim: Dimension, domain: set<Counted>)
    requires forall x :: x in domain ==> InDimension(dim, x.bucket)
    ensures Orders(Before, domain)
  {
    hide Before, InDimension;
    forall x, y, z | x in domain && y in domain && z in domain
      ensures Before(x, y) ==> !Before(y, x)
      ensures !Before(y, x) && !Before(z, y) ==> !Before(z, x)
    {
      BeforeIsAnOrder(dim, x, y, z);
    }
  }

  /** The values of a tally are exactly the occurring buckets with their counts. */
  lemma ValueMeansOccurring(dim: Dimension, table: map<string, Counted>, ps: seq<Profile>, x: Counted)
    requires Tallies(dim, table, ps)
    ensures x in table.Values <==> x.count > 0 && x.count == Occurrences(dim, x.bucket, ps)
  {
    hide Occurrences, KeyOf, InDimension;
    if x in table.Values {
      var k :| k in table && table[k] == x;
    }
    if x.count > 0 && x.count == Occurrences(dim, x.bucket, ps) {
      OccurringBucketsAreInDimension(dim, x.bucket, ps);
      TalliedEntry(dim, table, ps, x.bucket);
      assert KeyOf(x.bucket) in table && table[KeyOf(x.bucket)] == x;
    }
  }

  lemma CountedAreOccurring(dim: Dimension, table: map<string, Counted>, ps: seq<Profile>, counted: seq<Counted>)
    requires Tallies(dim, table, ps)
    requires forall x :: x in counted <==> x in table.Values
    ensures forall x :: x in counted <==> x.count > 0 && x.count == Occurrences(dim, x.bucket, ps)
  {
    hide Occurrences, Tallies;
    forall x
      ensures x in counted <==> x.count > 0 && x.count == Occurrences(dim, x.bucket, ps)
    {
      ValueMeansOccurring(dim, table, ps, x);
    }
  }

  lemma SuppressionIsSeen(dim: Dimension, ps: seq<Profile>, counted: seq<Counted>)
    requires forall x :: x in counted <==> x.count > 0 && x.count == Occurrences(dim, x.bucket, ps)
    ensures PublishDimension(counted).suppressionApplied <==> HasSmallGroup(dim, ps)
  {
    hide Occurrences, Sort, Reportable, Before;
    if PublishDimension(counted).suppressionApplied {
      var i :| 0 <= i < |counted| && counted[i].count < MINIMUM_GROUP_SIZE;
      assert counted[i] in counted;
      assert 1 <= Occurrences(dim, counted[i].bucket, ps) < MINIMUM_GROUP_SIZE;
    }
    if HasSmallGroup(dim, ps) {
      var b :| 1 <= Occurrences(dim, b, ps) < MINIMUM_GROUP_SIZE;
      var x := Counted(b, Occurrences(dim, b, ps));
      assert x in counted;
      var i :| 0 <= i < |counted| && counted[i] == x;
    }
  }

  // ----- Conservation in the maps -----

  /** In a mandatory dimension the counts held in the map add up to the number of counted profiles. */
  lemma TalliedCountsAddUp(dim: Dimension, table: map<string, Counted>, ps: seq<Profile>, counted: seq<Counted>)
    requires Mandatory(dim) && Tallies(dim, table, ps)
    requires NoRepeats(counted) && forall x :: x in counted <==> x in table.Values
    ensures PublishedTotal(counted) == |ps|
  {
    hide Occurrences, Tallies, NoRepeats, Total;
    CountedAreOccurring(dim, table, ps, counted);
    BucketsListedOnce(dim, counted, ps);
    PublishedTotalIsTotal(dim, counted, ps);
    var bs := BucketsOf(counted);
    forall b
      ensures b in bs <==> Occurrences(dim, b, ps) > 0
    {
      if Occurrences(dim, b, ps) > 0 {
        var x := Counted(b, Occurrences(dim, b, ps));
        assert x in counted;
        var i :| 0 <= i < |counted| && counted[i] == x;
        assert bs[i] == b;
      }
      if b in bs {
        var i :| 0 <= i < |bs| && bs[i] == b;
        assert counted[i] in counted;
      }
    }
    CountsAddUpToProfiles(dim, bs, ps);
  }

  /** The counts held for the cities of a country add up to the count held for the country. */
  lemma TalliedCityCountsAddUp(
      country: string, cities: map<string, Counted>, countries: map<string, Counted>, ps: seq<Profile>, counted: seq<Counted>)
    requires Tallies(Cities, cities, ps) && Tallies(Countries, countries, ps) && NoRepeats(counted)
    requires forall x :: x in counted <==> x in cities.Values && x.bucket.CityBucket? && x.bucket.country == country
    ensures PublishedTotal(counted) == if country in countries then countries[country].count else 0
  {
    hide Occurrences, NoRepeats, Total, InDimension;
    TalliedCountry(country, countries, ps);
    forall x
      ensures x in cities.Values <==> x.count > 0 && x.count == Occurrences(Cities, x.bucket, ps)
    {
      ValueMeansOccurring(Cities, cities, ps, x);
    }
    BucketsListedOnce(Cities, counted, ps);
    PublishedTotalIsTotal(Cities, counted, ps);
    var bs := BucketsOf(counted);
    forall b
      ensures b in bs <==> Occurrences(Cities, b, ps) > 0 && b.CityBucket? && b.country == country
    {
      if Occurrences(Cities, b, ps) > 0 && b.CityBucket? && b.country == country {
        var x := Counted(b, Occurrences(Cities, b, ps));
        assert x in counted;
        var i :| 0 <= i < |counted| && counted[i] == x;
        assert bs[i] == b;
      }
      if b in bs {
        var i :| 0 <= i < |bs| && bs[i] == b;
        assert counted[i] in counted;
      }
    }
    CityCountsAddUpToTheCountry(country, bs, ps);
  }

  lemma TalliedCountry(country: string, countries: map<string, Counted>, ps: seq<Profile>)
    requires Tallies(Countries, countries, ps)
    ensures Occurrences(Countries, CountryBucket(country), ps) == if country in countries then countries[country].count else 0
  {
    hide Occurrences, Tallies;
    TalliedEntry(Countries, countries, ps, CountryBucket(country));
  }

  lemma {:induction false} ValuesAreDistinct(order: seq<string>, table: map<string, Counted>)
    requires NoRepeats(order) && (forall k :: k in order ==> k in table)
    requires forall k :: k in table ==> KeyOf(table[k].bucket) == k
    ensures NoRepeats(ValuesOf(order, table))
  {
    hide KeyOf;
    if order != [] {
      ValuesAreDistinct(order[1..], table);
      var x := table[order[0]];
      ValueMeansKey(order[1..], table, x);
      assert order == [order[0]] + order[1..];
      assert order[0] !in order[1..];
      assert x !in ValuesOf(order[1..], table);
    }
  }

  method Publish(dim: Dimension, counts: CountMap, ghost ps: seq<Profile>) returns (dto: DimensionDto)
    requires counts.Valid() && Tallies(dim, counts.table, ps)
    ensures IsPublished(dim, ps, dto)
  {
    hide IsPublished, KeyOf, Occurrences, PublishDimension;
    ValuesAreDistinct(counts.order, counts.table);
    var counted := counts.Values();
    PublishedFromTally(dim, counts.table, ps, counted);
    dto := PublishDimension(counted);
  }

  /** Counts a profile in one dimension, unless it has no bucket there. */
  method CountProfile(dim: Dimension, counts: CountMap, p: Profile, ghost ps: seq<Profile>)
    requires counts.Valid() && Tallies(dim, counts.table, ps)
    modifies counts
    ensures counts.Valid() && Tallies(dim, counts.table, ps + [p])
  {
    hide Tallies, KeyOf, BucketOf, Added;
    TallyStep(dim, counts.table, ps, p);
    match BucketOf(dim, p) {
      case None =>
      case Some(bucket) => counts.CountBucket(KeyOf(bucket), bucket);
    }
  }

  /** Validates a row and compares it with the result. */
  method ReadRow(t: Tables, row: Row, now: TimeValue) returns (p: Option<Profile>)
    ensures p == CountedProfile(t, row, now)
  {
    hide Assess, IsCanonicalStoredProfile;
    if row.isActive != Bool(true) {
      return None;
    }
    var validation := ValidateRegistrationProfile(t, row.input, now);
    if !validation.Valid? {
      return None;
    }
    var profile := validation.value;
    if !IsCanonicalStoredProfile(row, profile) {
      return None;
    }
    return Some(profile);
  }

  /** The seven dimensions, in the order of their maps. */
  const DIMENSIONS: seq<Dimension> := [Decades, Countries, Regions, Cities, Statuses, Companies, Occupations]

  /** Seven different maps, each tallying its dimension. */
  ghost predicate AllTally(maps: seq<CountMap>, ps: seq<Profile>)
    reads maps
  {
    && |maps| == 7
    && NoRepeats(maps)
    && forall i :: 0 <= i < 7 ==> maps[i].Valid() && Tallies(DIMENSIONS[i], maps[i].table, ps)
  }

  /** Counts a profile in every dimension. */
  method CountInAll(maps: seq<CountMap>, p: Profile, ghost ps: seq<Profile>)
    requires AllTally(maps, ps)
    modifies maps
    ensures AllTally(maps, ps + [p])
  {
    hide Tallies, CountMap.Valid;
    for d := 0 to 7
      invariant forall i :: 0 <= i < 7 ==>
                  maps[i].Valid() && Tallies(DIMENSIONS[i], maps[i].table, if i < d then ps + [p] else ps)
    {
      CountProfile(DIMENSIONS[d], maps[d], p, ps);
    }
  }

  method NewMaps() returns (maps: seq<CountMap>)
    ensures AllTally(maps, []) && fresh(maps)
  {
    hide Tallies;
    var none: seq<CountMap> := [];
    maps := none;
    for i := 0 to 7
      invariant |maps| == i && NoRepeats(maps) && fresh(maps)
      invariant forall j :: 0 <= j < i ==> maps[j].Valid() && maps[j].table == map[]
    {
      var m := new CountMap();
      maps := maps + [m];
    }
    NothingTallied();
  }

  method PublishAll(maps: seq<CountMap>, ghost ps: seq<Profile>) returns (k: Kpis)
    requires AllTally(maps, ps)
    ensures ArePublished(ps, k)
  {
    hide Tallies, IsPublished, CountMap.Valid, NoRepeats;
    var decades := Publish(Decades, maps[0], ps);
    var countries := Publish(Countries, maps[1], ps);
    var regions := Publish(Regions, maps[2], ps);
    var cities := Publish(Cities, maps[3], ps);
    var statuses := Publish(Statuses, maps[4], ps);
    var companies := Publish(Companies, maps[5], ps);
    var occupations := Publish(Occupations, maps[6], ps);
    k := Kpis(MINIMUM_GROUP_SIZE, decades, countries, regions, cities, statuses, companies, occupations);
  }

  method BuildRegistrationProfileKpis(t: Tables, rows: seq<Row>, now: TimeValue) returns (k: Kpis)
    ensures AreKpis(t, rows, now, k)
  {
    hide AllTally, CountedProfile, CountedProfiles, ArePublished;
    var maps := NewMaps();
    ghost var counted: seq<Profile> := [];
    NothingCounted(t, now);
    for i := 0 to |rows|
      invariant counted == CountedProfiles(t, rows[..i], now)
      invariant AllTally(maps, counted)
    {
      CountedAppend(t, rows, i, now);
      var row := ReadRow(t, rows[i], now);
      if row.Some? {
        CountInAll(maps, row.value, counted);
        counted := counted + [row.value];
      }
    }
    assert rows[..|rows|] == rows;
    k := PublishAll(maps, counted);
  }

  lemma NothingCounted(t: Tables, now: TimeValue)
    ensures CountedProfiles(t, [], now) == []
  {
  }

  lemma NothingTallied()
    ensures forall dim: Dimension :: Tallies(dim, map[], [])
  {
  }

  lemma CountedAppend(t: Tables, rows: seq<Row>, i: nat, now: TimeValue)
    requires i < |rows|
    ensures CountedProfiles(t, rows[..i + 1], now) ==
            match CountedProfile(t, rows[i], now)
            case None => CountedProfiles(t, rows[..i], now)
            case Some(p) => CountedProfiles(t, rows[..i], now) + [p]
  {
    hide CountedProfile;
    assert rows[..i + 1][..i] == rows[..i];
  }

  // ----- What the KPIs do not depend on, and whom they count -----

  lemma {:induction false} CountedAddUp(t: Tables, rows: seq<Row>, more: seq<Row>, now: TimeValue)
    ensures CountedProfiles(t, rows + more, now) == CountedProfiles(t, rows, now) + CountedProfiles(t, more, now)
    decreases |more|
  {
    hide CountedProfile;
    if more == [] {
      assert rows + more == rows;
    } else {
      var n := |more| - 1;
      CountedAddUp(t, rows, more[..n], now);
      assert (rows + more)[..|rows| + n] == rows + more[..n];
    }
  }

  /** Taking a row away takes away its profile, if it has one. */
  lemma CountedWithout(t: Tables, rows: seq<Row>, i: nat, now: TimeValue)
    requires i < |rows|
    ensures multiset(CountedProfiles(t, rows, now)) ==
            multiset(CountedProfiles(t, Without(rows, i), now)) + multiset(CountedProfiles(t, [rows[i]], now))
  {
    hide CountedProfiles;
    CountedAddUp(t, rows[..i], rows[i + 1..], now);
    CountedAddUp(t, rows[..i], [rows[i]], now);
    CountedAddUp(t, rows[..i] + [rows[i]], rows[i + 1..], now);
    assert rows == rows[..i] + [rows[i]] + rows[i + 1..];
  }

  lemma {:induction false} CountedOfRearranged(t: Tables, rows: seq<Row>, others: seq<Row>, now: TimeValue)
    requires multiset(rows) == multiset(others)
    ensures multiset(CountedProfiles(t, rows, now)) == multiset(CountedProfiles(t, others, now))
    decreases |rows|
  {
    hide CountedProfiles, Without;
    SameElements(rows, others);
    if rows == [] {
      assert others == [];
    } else {
      assert rows[0] in others;
      var i :| 0 <= i < |others| && others[i] == rows[0];
      WithoutRemovesOne(rows, 0);
      WithoutRemovesOne(others, i);
      CountedOfRearranged(t, Without(rows, 0), Without(others, i), now);
      CountedWithout(t, rows, 0, now);
      CountedWithout(t, others, i, now);
    }
  }

  /** Rows in any order give the same KPIs, down to the order of the buckets. */
  lemma KpisIgnoreTheOrderOfRows(t: Tables, rows: seq<Row>, k: Kpis, others: seq<Row>, l: Kpis, now: TimeValue)
    requires multiset(rows) == multiset(others)
    requires AreKpis(t, rows, now, k) && AreKpis(t, others, now, l)
    ensures k == l
  {
    hide IsPublished, CountedProfiles;
    var ps, qs := CountedProfiles(t, rows, now), CountedProfiles(t, others, now);
    CountedOfRearranged(t, rows, others, now);
    PublishedFormIsUnique(Decades, ps, k.birthYearDecades, qs, l.birthYearDecades);
    PublishedFormIsUnique(Countries, ps, k.residenceCountries, qs, l.residenceCountries);
    PublishedFormIsUnique(Regions, ps, k.residenceRegions, qs, l.residenceRegions);
    PublishedFormIsUnique(Cities, ps, k.residenceCities, qs, l.residenceCities);
    PublishedFormIsUnique(Statuses, ps, k.employmentStatuses, qs, l.employmentStatuses);
    PublishedFormIsUnique(Companies, ps, k.companies, qs, l.companies);
    PublishedFormIsUnique(Occupations, ps, k.occupations, qs, l.occupations);
  }

  /** An active row that stores what validation returned, with an integer birth year, is counted then and ever after. */
  lemma ValidatedRowsAreCounted(t: Tables, input: Input, now: TimeValue, later: TimeValue)
    requires Sound(t) && Assess(t, input, now).Valid?
    requires now.At? && later.At? && now.ms <= later.ms
    ensures
      var p := Assess(t, input, now).value;
      CountedProfile(t, Row(InputOf(p), Bool(true), Text("int")), later) == Some(p)
  {
    hide Assess, Sound, InputOf;
    ValidationIsACanonicaliser(t, input, now, later);
  }

  /** Exactly the active rows that store a well-formed profile, with an integer birth year, are counted. */
  lemma CountedRowsAreWellFormed(t: Tables, row: Row, now: TimeValue, p: Profile)
    requires Sound(t)
    ensures CountedProfile(t, row, now) == Some(p) <==>
              && row.isActive == Bool(true) && row.birthYearBsonType == Text("int")
              && row.input == InputOf(p) && WellFormed(t, p, now)
  {
    hide Assess, Sound, InputOf, WellFormed;
    FixedPointsAreWellFormed(t, p, now);
  }
}
