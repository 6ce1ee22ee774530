/** The dimension builders of the ETL scripts. Each takes the distinct rows of
    a few columns, in order of first occurrence, and numbers them 1..n; some
    add a derived column (age group, quarter, speed category) or sort first.
    The column projections are taken as typed input sequences. */
module Dimensions {

  import opened Outcomes
  import opened Seqs
  import opened Sorting
  import opened Text
  import opened Frames
  import opened Categories

  /** A dimension row: its surrogate key and its attribute values. */
  datatype Keyed<T> = Keyed(id: int, value: T)

  /** `range(first, first + len(s))` set beside `s`. */
  function NumberFrom<T>(s: seq<T>, first: int): (r: seq<Keyed<T>>)
    ensures |r| == |s|
    ensures forall k :: 0 <= k < |s| ==> r[k].id == first + k && r[k].value == s[k]
  {
    if |s| == 0 then [] else [Keyed(first, s[0])] + NumberFrom(s[1..], first + 1)
  }

  function Values<T>(r: seq<Keyed<T>>): (vs: seq<T>)
    ensures |vs| == |r| && forall k :: 0 <= k < |r| ==> vs[k] == r[k].value
  {
    Map(r, (x: Keyed<T>) => x.value)
  }

  /** `drop_duplicates()` then ids 1..n: every distinct row once, in order of
      first occurrence, with consecutive keys from 1. */
  function SurrogateKeys<T(==,!new)>(s: seq<T>): (r: seq<Keyed<T>>)
    ensures |r| <= |s| && |r| == |DropDuplicates(s)|
    ensures forall k :: 0 <= k < |r| ==> r[k].id == k + 1
    ensures Values(r) == DropDuplicates(s)
    ensures NoDuplicates(Values(r))
    ensures forall x :: x in s <==> x in Values(r)
    ensures forall i, j :: 0 <= i < j < |r| ==> FirstIndex(s, r[i].value) < FirstIndex(s, r[j].value)
  {
    var d := DropDuplicates(s);
    var r := NumberFrom(d, 1);
    assert Values(r) == d;
    r
  }

  /** Every source row has exactly one key, and distinct rows have distinct keys. */
  lemma SurrogateKeyOf<T(!new)>(s: seq<T>, x: T)
    requires x in s
    ensures var r := SurrogateKeys(s);
      exists k :: 0 <= k < |r| && r[k].value == x &&
        forall j :: 0 <= j < |r| && r[j].value == x ==> j == k
  {
    var r := SurrogateKeys(s);
    var k :| 0 <= k < |Values(r)| && Values(r)[k] == x;
    forall j | 0 <= j < |r| && r[j].value == x ensures j == k {
      assert Values(r)[j] == x;
    }
  }

  // ---------------------------------------------------------------------------
  // Plain dimensions: time of day, holiday, vehicle, crash type
  // ---------------------------------------------------------------------------

  /** `generate_dim_time_of_day`: the surrogate keys of the time-of-day column. */
  function DimTimeOfDay(times: seq<Cell>): seq<Keyed<Cell>> {
    SurrogateKeys(times)
  }

  datatype Holiday = Holiday(christmas: Cell, easter: Cell)

  /** `generate_dim_holiday`: the surrogate keys of the two holiday flags. */
  function DimHoliday(flags: seq<Holiday>): seq<Keyed<Holiday>> {
    SurrogateKeys(flags)
  }

  datatype Vehicle = Vehicle(bus: Cell, heavyRigidTruck: Cell, articulatedTruck: Cell)

  /** `generate_dim_vehicle`: the surrogate keys of the three involvement flags. */
  function DimVehicle(vehicles: seq<Vehicle>): seq<Keyed<Vehicle>> {
    SurrogateKeys(vehicles)
  }

  /** `generate_dim_crash_type`: the surrogate keys of the crash-type column. */
  function DimCrashType(types: seq<Cell>): seq<Keyed<Cell>> {
    SurrogateKeys(types)
  }

  // ---------------------------------------------------------------------------
  // dim_person
  // ---------------------------------------------------------------------------

  datatype Person = Person(age: Cell, gender: Cell, roadUser: Cell)

  datatype PersonRow = PersonRow(personId: int, age: Cell, ageGroup: Option<string>, gender: Cell, roadUser: Cell)

  /** `pd.cut` on one age; a value that is not an integer age has no group. */
  function AgeGroupOf(age: Cell): (r: Option<string>)
    ensures age.Int? ==> r == AgeGroup(age.value)
    ensures !age.Int? ==> r.None?
  {
    if age.Int? then AgeGroup(age.value) else None
  }

  function PersonRowOf(k: Keyed<Person>): PersonRow {
    PersonRow(k.id, k.value.age, AgeGroupOf(k.value.age), k.value.gender, k.value.roadUser)
  }

  /** `generate_dim_person`: distinct (age, gender, road user) rows, each with
      its age group and an id 1..n. */
  function DimPerson(people: seq<Person>): (r: seq<PersonRow>)
    ensures forall k :: 0 <= k < |r| ==> r[k].personId == k + 1
    ensures forall k :: 0 <= k < |r| ==> r[k].ageGroup == AgeGroupOf(r[k].age)
    ensures PeopleOf(r) == DropDuplicates(people)
    ensures forall p :: p in people <==> p in PeopleOf(r)
    ensures NoDuplicates(PeopleOf(r))
  {
    var keyed := SurrogateKeys(people);
    PersonRowsOf(keyed);
    Map(keyed, PersonRowOf)
  }

  function PersonOf(row: PersonRow): Person {
    Person(row.age, row.gender, row.roadUser)
  }

  /** The (age, gender, road user) of each row. */
  function PeopleOf(rows: seq<PersonRow>): (ps: seq<Person>)
    ensures |ps| == |rows| && forall k :: 0 <= k < |rows| ==> ps[k] == PersonOf(rows[k])
  {
    Map(rows, PersonOf)
  }

  /** Numbering people keeps each person's fields and gives each its age group. */
  lemma PersonRowsOf(keyed: seq<Keyed<Person>>)
    ensures var r := Map(keyed, PersonRowOf);
      && PeopleOf(r) == Values(keyed)
      && forall k :: 0 <= k < |r| ==> r[k].personId == keyed[k].id && r[k].ageGroup == AgeGroupOf(r[k].age)
  {
  }

  // ---------------------------------------------------------------------------
  // dim_date
  // ---------------------------------------------------------------------------

  /** The date attributes of a crash. `holidays` is empty in the first ETL
      script and holds the Christmas and Easter flags in the second. */
  datatype DateKey = DateKey(year: int, month: int, dayName: string, dayType: Cell, holidays: seq<Cell>)

  datatype DateRow = DateRow(dateId: int, key: DateKey, quarter: int)

  /** The date order: by year, then month, then day name. */
  predicate DateLe(a: DateKey, b: DateKey) {
    a.year < b.year
    || (a.year == b.year && (a.month < b.month || (a.month == b.month && LexLe(a.dayName, b.dayName))))
  }

  lemma DateLeTotalPreorder()
    ensures TotalPreorder(DateLe)
  {
    forall a: DateKey, b: DateKey ensures DateLe(a, b) || DateLe(b, a) {
      LexLeTotal(a.dayName, b.dayName);
    }
    forall a: DateKey, b: DateKey, c: DateKey | DateLe(a, b) && DateLe(b, c) ensures DateLe(a, c) {
      if a.year == b.year == c.year && a.month == b.month == c.month {
        LexLeTransitive(a.dayName, b.dayName, c.dayName);
      }
    }
  }

  function DateRowOf(k: Keyed<DateKey>): DateRow {
    DateRow(k.id, k.value, Quarter(k.value.month))
  }

  /** `generate_dim_date`: the distinct date rows sorted stably by year,
      month and day name, numbered 1..n, each with its quarter. */
  function DimDate(dates: seq<DateKey>): (r: seq<DateRow>)
    ensures forall k :: 0 <= k < |r| ==> r[k].dateId == k + 1
    ensures forall k :: 0 <= k < |r| ==> r[k].quarter == Quarter(r[k].key.month)
    ensures SortedBy(DateKeys(r), DateLe) && NoDuplicates(DateKeys(r))
    ensures multiset(DateKeys(r)) == multiset(DropDuplicates(dates))
    ensures forall d :: d in dates <==> d in DateKeys(r)
  {
    DateLeTotalPreorder();
    var unique := DropDuplicates(dates);
    var sorted := SortBy(unique, DateLe);
    DistinctAfterSort(unique, sorted);
    DateRowsOf(sorted);
    Map(NumberFrom(sorted, 1), DateRowOf)
  }

  /** The sort is stable: date rows that tie on year, month and day name (they
      differ in day type or holiday flags) keep their order of first
      occurrence. With the sortedness and the multiset above this fixes the
      row order completely. */
  lemma DimDateStable(dates: seq<DateKey>, x: DateKey)
    ensures Equivalents(DateKeys(DimDate(dates)), x, DateLe) == Equivalents(DropDuplicates(dates), x, DateLe)
  {
    DateLeTotalPreorder();
    var sorted := SortBy(DropDuplicates(dates), DateLe);
    DateRowsOf(sorted);
    SortByStable(DropDuplicates(dates), DateLe, x);
  }

  /** The date attributes of each row. */
  function DateKeys(rows: seq<DateRow>): (ks: seq<DateKey>)
    ensures |ks| == |rows| && forall k :: 0 <= k < |rows| ==> ks[k] == rows[k].key
  {
    Map(rows, (row: DateRow) => row.key)
  }

  /** Numbering dates keeps them in place and gives each its quarter. */
  lemma DateRowsOf(dates: seq<DateKey>)
    ensures var r := Map(NumberFrom(dates, 1), DateRowOf);
      && DateKeys(r) == dates
      && forall k :: 0 <= k < |r| ==> r[k].dateId == k + 1 && r[k].quarter == Quarter(r[k].key.month)
  {
  }

  /** A rearrangement of distinct elements is distinct. */
  lemma DistinctAfterSort<T>(a: seq<T>, b: seq<T>)
    requires NoDuplicates(a) && multiset(a) == multiset(b)
    ensures NoDuplicates(b)
  {
    forall i, j | 0 <= i < j < |b| ensures b[i] != b[j] {
      if b[i] == b[j] {
        RepeatCount(b, i, j);
        DistinctCount(a, b[i]);
      }
    }
  }

  lemma {:induction false} DistinctCount<T>(a: seq<T>, x: T)
    requires NoDuplicates(a)
    ensures multiset(a)[x] <= 1
    decreases |a|
  {
    if |a| > 0 {
      assert a == [a[0]] + a[1..];
      assert NoDuplicates(a[1..]);
      DistinctCount(a[1..], x);
      if a[0] == x {
        assert x !in a[1..] by {
          forall k | 0 <= k < |a[1..]| ensures a[1..][k] != x { assert a[1..][k] == a[k + 1]; }
        }
      }
    }
  }

  lemma RepeatCount<T>(b: seq<T>, i: int, j: int)
    requires 0 <= i < j < |b| && b[i] == b[j]
    ensures multiset(b)[b[i]] >= 2
  {
    assert b == b[..j] + b[j..];
    assert b[..j][i] == b[i];
    assert b[j..][0] == b[i];
    assert multiset(b) == multiset(b[..j]) + multiset(b[j..]);
  }

  // ---------------------------------------------------------------------------
  // dim_road and dim_speed_zone
  // ---------------------------------------------------------------------------

  datatype Road = Road(roadType: Cell, speedLimit: Cell)

  datatype RoadRow = RoadRow(roadId: int, road: Road, speedCategory: Option<string>)

  function RoadRowOf(k: Keyed<Road>): RoadRow {
    RoadRow(k.id, k.value, ClassifySpeedCategory(k.value.speedLimit))
  }

  /** `generate_dim_road` of the first ETL script: distinct (road type, speed
      limit) rows, each with its speed category and an id 1..n. */
  function DimRoad(roads: seq<Road>): (r: seq<RoadRow>)
    ensures forall k :: 0 <= k < |r| ==> r[k].roadId == k + 1
    ensures forall k :: 0 <= k < |r| ==> r[k].speedCategory == ClassifySpeedCategory(r[k].road.speedLimit)
    ensures |r| == |DropDuplicates(roads)|
    ensures forall k :: 0 <= k < |r| ==> r[k].road == DropDuplicates(roads)[k]
    ensures forall i, j :: 0 <= i < j < |r| ==> r[i].road != r[j].road
    ensures forall x :: x in roads <==> exists k :: 0 <= k < |r| && r[k].road == x
  {
    var keyed := SurrogateKeys(roads);
    var r := Map(keyed, RoadRowOf);
    assert forall k :: 0 <= k < |r| ==> r[k].road == Values(keyed)[k];
    r
  }

  datatype SpeedZone = SpeedZone(zoneId: int, speedLimit: Cell, speedCategory: Option<string>)

  function SpeedZoneOf(k: Keyed<Cell>): SpeedZone {
    SpeedZone(k.id, k.value, ClassifySpeedCategory(k.value))
  }

  function ZoneSpeeds(zones: seq<SpeedZone>): (speeds: seq<Cell>)
    ensures |speeds| == |zones| && forall k :: 0 <= k < |zones| ==> speeds[k] == zones[k].speedLimit
  {
    Map(zones, (z: SpeedZone) => z.speedLimit)
  }

  /** `generate_dim_speed_zone`: the distinct present speed limits, each once,
      with its category and an id 1..n. */
  function DimSpeedZone(speeds: seq<Cell>): (r: seq<SpeedZone>)
    ensures forall k :: 0 <= k < |r| ==> r[k].zoneId == k + 1
    ensures forall k :: 0 <= k < |r| ==> r[k].speedLimit != Missing
    ensures forall k :: 0 <= k < |r| ==> r[k].speedCategory == ClassifySpeedCategory(r[k].speedLimit)
    ensures ZoneSpeeds(r) == DropDuplicates(Filter(speeds, IsPresent))
    ensures NoDuplicates(ZoneSpeeds(r))
    ensures forall v :: v in speeds && v != Missing <==> v in ZoneSpeeds(r)
  {
    DimSpeedZoneFacts(speeds);
    Map(SurrogateKeys(Filter(speeds, IsPresent)), SpeedZoneOf)
  }

  lemma DimSpeedZoneFacts(speeds: seq<Cell>)
    ensures var r := Map(SurrogateKeys(Filter(speeds, IsPresent)), SpeedZoneOf);
      && (forall k :: 0 <= k < |r| ==> r[k].zoneId == k + 1)
      && (forall k :: 0 <= k < |r| ==> r[k].speedLimit != Missing)
      && (forall k :: 0 <= k < |r| ==> r[k].speedCategory == ClassifySpeedCategory(r[k].speedLimit))
      && ZoneSpeeds(r) == DropDuplicates(Filter(speeds, IsPresent))
      && NoDuplicates(ZoneSpeeds(r))
      && (forall v :: v in speeds && v != Missing <==> v in ZoneSpeeds(r))
  {
    var present := Filter(speeds, IsPresent);
    var keyed := SurrogateKeys(present);
    var r := Map(keyed, SpeedZoneOf);
    SpeedZonesOf(keyed);
    assert ZoneSpeeds(r) == Values(keyed);
    assert forall k :: 0 <= k < |r| ==> r[k].speedLimit != Missing by {
      forall k | 0 <= k < |r| ensures r[k].speedLimit != Missing {
        assert r[k].speedLimit == Values(keyed)[k];
        assert Values(keyed)[k] in present;
      }
    }
    assert forall v :: v in speeds && v != Missing <==> v in ZoneSpeeds(r) by {
      forall v ensures v in speeds && v != Missing <==> v in ZoneSpeeds(r) {
        assert v in present <==> v in speeds && IsPresent(v);
      }
    }
  }

  predicate IsPresent(v: Cell) { v != Missing }

  /** Numbering the zones keeps the speed limits in place and gives each
      its category. */
  lemma SpeedZonesOf(keyed: seq<Keyed<Cell>>)
    ensures ZoneSpeeds(Map(keyed, SpeedZoneOf)) == Values(keyed)
    ensures forall k :: 0 <= k < |keyed| ==>
      var z := Map(keyed, SpeedZoneOf)[k];
      z.zoneId == keyed[k].id && z.speedCategory == ClassifySpeedCategory(z.speedLimit)
  {
  }

  datatype ZonedRoad = ZonedRoad(roadId: int, road: Road, zoneId: Option<int>)

  /** The left join of one road to the speed-zone table on the speed limit:
      one row per matching zone, in zone order, or one row without a zone. */
  function ZoneMatches(road: Road, zones: seq<SpeedZone>): (r: seq<Option<int>>)
    ensures forall k :: 0 <= k < |r| ==> r[k].Some?
    ensures forall x :: x in r <==>
              exists j :: 0 <= j < |zones| && zones[j].speedLimit == road.speedLimit && x == Some(zones[j].zoneId)
  {
    if |zones| == 0 then []
    else (if zones[0].speedLimit == road.speedLimit then [Some(zones[0].zoneId)] else [])
         + ZoneMatches(road, zones[1..])
  }

  function LeftMerge(roads: seq<Road>, zones: seq<SpeedZone>): seq<(Road, Option<int>)>
  {
    if |roads| == 0 then []
    else
      var m := ZoneMatches(roads[0], zones);
      (if |m| == 0 then [(roads[0], None)] else Map(m, (z: Option<int>) => (roads[0], z)))
      + LeftMerge(roads[1..], zones)
  }

  /** A speed limit appears at most once among the zones, so a road matches
      at most one zone. */
  lemma {:induction false} ZoneMatchesAtMostOne(road: Road, zones: seq<SpeedZone>)
    requires NoDuplicates(ZoneSpeeds(zones))
    ensures |ZoneMatches(road, zones)| <= 1
    ensures |ZoneMatches(road, zones)| == 1 <==> road.speedLimit in ZoneSpeeds(zones)
    decreases |zones|
  {
    if |zones| > 0 {
      var tail := zones[1..];
      assert ZoneSpeeds(tail) == ZoneSpeeds(zones)[1..];
      ZoneMatchesAtMostOne(road, tail);
      if zones[0].speedLimit == road.speedLimit {
        assert road.speedLimit !in ZoneSpeeds(tail) by {
          forall k | 0 <= k < |tail| ensures ZoneSpeeds(tail)[k] != road.speedLimit {
            assert ZoneSpeeds(zones)[k + 1] == ZoneSpeeds(tail)[k];
          }
        }
      }
      assert road.speedLimit in ZoneSpeeds(zones) <==>
             zones[0].speedLimit == road.speedLimit || road.speedLimit in ZoneSpeeds(tail) by {
        assert ZoneSpeeds(zones) == [zones[0].speedLimit] + ZoneSpeeds(tail);
      }
    }
  }

  /** With a unique speed per zone, the left merge keeps one row per road, in
      order, with the road's zone or none. */
  lemma {:induction false} LeftMergeKeepsRows(roads: seq<Road>, zones: seq<SpeedZone>)
    requires NoDuplicates(ZoneSpeeds(zones))
    ensures |LeftMerge(roads, zones)| == |roads|
    ensures forall k :: 0 <= k < |roads| ==> LeftMerge(roads, zones)[k].0 == roads[k]
    ensures forall k :: 0 <= k < |roads| ==>
              (LeftMerge(roads, zones)[k].1.Some? <==> roads[k].speedLimit in ZoneSpeeds(zones))
    ensures forall k, j :: 0 <= k < |roads| && 0 <= j < |zones| && zones[j].speedLimit == roads[k].speedLimit ==>
              LeftMerge(roads, zones)[k].1 == Some(zones[j].zoneId)
    decreases |roads|
  {
    if |roads| > 0 {
      LeftMergeKeepsRows(roads[1..], zones);
      LeftMergeHead(roads, zones);
      var r := LeftMerge(roads, zones);
      var rest := LeftMerge(roads[1..], zones);
      forall k | 1 <= k < |roads|
        ensures r[k].0 == roads[k] && (r[k].1.Some? <==> roads[k].speedLimit in ZoneSpeeds(zones))
        ensures forall j :: 0 <= j < |zones| && zones[j].speedLimit == roads[k].speedLimit ==>
                  r[k].1 == Some(zones[j].zoneId)
      {
        assert r[k] == r[1..][k - 1] == rest[k - 1];
        assert roads[k] == roads[1..][k - 1];
      }
    }
  }

  /** The first road gives exactly one row, with its zone or none. */
  lemma LeftMergeHead(roads: seq<Road>, zones: seq<SpeedZone>)
    requires |roads| > 0 && NoDuplicates(ZoneSpeeds(zones))
    ensures var r := LeftMerge(roads, zones);
      && |r| > 0 && r[1..] == LeftMerge(roads[1..], zones)
      && r[0].0 == roads[0] && (r[0].1.Some? <==> roads[0].speedLimit in ZoneSpeeds(zones))
      && forall j :: 0 <= j < |zones| && zones[j].speedLimit == roads[0].speedLimit ==>
           r[0].1 == Some(zones[j].zoneId)
  {
    ZoneMatchesAtMostOne(roads[0], zones);
    var m := ZoneMatches(roads[0], zones);
    var head := if |m| == 0 then [(roads[0], None)] else Map(m, (z: Option<int>) => (roads[0], z));
    assert |head| == 1 && head[0].0 == roads[0];
    forall j | 0 <= j < |zones| && zones[j].speedLimit == roads[0].speedLimit
      ensures head[0].1 == Some(zones[j].zoneId)
    {
      assert Some(zones[j].zoneId) in m;
    }
    assert LeftMerge(roads, zones) == head + LeftMerge(roads[1..], zones);
  }

  function ZonedRoadOf(k: Keyed<(Road, Option<int>)>): ZonedRoad {
    ZonedRoad(k.id, k.value.0, k.value.1)
  }

  /** `generate_dim_road` of the second ETL script: the distinct roads joined
      to their speed zone, numbered 1..n after the join. */
  function DimRoadZoned(roads: seq<Road>, zones: seq<SpeedZone>): (r: seq<ZonedRoad>)
    ensures forall k :: 0 <= k < |r| ==> r[k].roadId == k + 1
    ensures NoDuplicates(ZoneSpeeds(zones)) ==> |r| == |DropDuplicates(roads)|
    ensures NoDuplicates(ZoneSpeeds(zones)) ==> forall k :: 0 <= k < |r| ==>
              r[k].road == DropDuplicates(roads)[k]
              && (r[k].zoneId.Some? <==> r[k].road.speedLimit in ZoneSpeeds(zones))
    ensures NoDuplicates(ZoneSpeeds(zones)) ==> forall k, j ::
              0 <= k < |r| && 0 <= j < |zones| && zones[j].speedLimit == r[k].road.speedLimit ==>
                r[k].zoneId == Some(zones[j].zoneId)
  {
    var unique := DropDuplicates(roads);
    var merged := LeftMerge(unique, zones);
    var r := Map(NumberFrom(merged, 1), ZonedRoadOf);
    if NoDuplicates(ZoneSpeeds(zones)) then
      LeftMergeKeepsRows(unique, zones);
      r
    else r
  }

  // ---------------------------------------------------------------------------
  // dim_location
  // ---------------------------------------------------------------------------

  datatype Location = Location(state: Cell, lgaName: Cell, sa4Name: Cell, remotenessArea: Cell)

  predicate LocationComplete(x: Keyed<Location>) {
    x.value.lgaName != Missing && x.value.sa4Name != Missing && x.value.remotenessArea != Missing
  }

  /** `generate_dim_location`: the distinct locations are numbered 1..n and
      only then are those missing an LGA, SA4 or remoteness area dropped, so
      the ids are distinct and increasing but may have gaps. */
  function DimLocation(locations: seq<Location>): (r: seq<Keyed<Location>>)
    ensures forall k :: 0 <= k < |r| ==> 1 <= r[k].id <= |DropDuplicates(locations)|
    ensures forall k :: 0 <= k < |r| ==> DropDuplicates(locations)[r[k].id - 1] == r[k].value
    ensures forall i :: 0 <= i < |DropDuplicates(locations)| && LocationComplete(Keyed(0, DropDuplicates(locations)[i])) ==>
      Keyed(i + 1, DropDuplicates(locations)[i]) in r
    ensures IdsIncreasing(r)
    ensures forall k :: 0 <= k < |r| ==> LocationComplete(r[k]) && r[k].value in locations
    ensures forall x :: x in locations && LocationComplete(Keyed(0, x)) ==> x in Values(r)
  {
    DimLocationFacts(locations);
    Filter(SurrogateKeys(locations), LocationComplete)
  }

  lemma DimLocationFacts(locations: seq<Location>)
    ensures var r := Filter(SurrogateKeys(locations), LocationComplete);
      && (forall k :: 0 <= k < |r| ==> 1 <= r[k].id <= |DropDuplicates(locations)|)
      && (forall k :: 0 <= k < |r| ==> DropDuplicates(locations)[r[k].id - 1] == r[k].value)
      && (forall i :: 0 <= i < |DropDuplicates(locations)| && LocationComplete(Keyed(0, DropDuplicates(locations)[i])) ==>
            Keyed(i + 1, DropDuplicates(locations)[i]) in r)
      && IdsIncreasing(r)
      && (forall k :: 0 <= k < |r| ==> LocationComplete(r[k]) && r[k].value in locations)
      && (forall x :: x in locations && LocationComplete(Keyed(0, x)) ==> x in Values(r))
  {
    var keyed := SurrogateKeys(locations);
    var r := Filter(keyed, LocationComplete);
    FilterIncreasing(keyed, LocationComplete);
    KeyedLocations(locations);
    forall k | 0 <= k < |r|
      ensures 1 <= r[k].id <= |DropDuplicates(locations)| && DropDuplicates(locations)[r[k].id - 1] == r[k].value
      ensures LocationComplete(r[k]) && r[k].value in locations
    {
      assert r[k] in r;
    }
    CompleteLocationsNumbered(locations);
    forall x | x in locations && LocationComplete(Keyed(0, x)) ensures x in Values(r) {
      CompleteLocationKept(keyed, x);
    }
  }

  /** Every complete distinct location keeps the id of its position. */
  lemma CompleteLocationsNumbered(locations: seq<Location>)
    ensures var d := DropDuplicates(locations);
      forall i :: 0 <= i < |d| && LocationComplete(Keyed(0, d[i])) ==>
        Keyed(i + 1, d[i]) in Filter(SurrogateKeys(locations), LocationComplete)
  {
    var d := DropDuplicates(locations);
    var keyed := SurrogateKeys(locations);
    forall i | 0 <= i < |d| && LocationComplete(Keyed(0, d[i]))
      ensures Keyed(i + 1, d[i]) in Filter(keyed, LocationComplete)
    {
      assert Values(keyed)[i] == d[i];
      assert keyed[i] == Keyed(i + 1, d[i]);
      assert keyed[i] in keyed;
    }
  }

  /** The ids are numbered before the incomplete rows are dropped: a location
      without an LGA ahead of a complete one leaves id 1 unused. */
  lemma DimLocationGap(a: Location, b: Location)
    requires a.lgaName == Missing && LocationComplete(Keyed(0, b))
    ensures DimLocation([a, b]) == [Keyed(2, b)]
  {
    DropDuplicatesPair(a, b);
    var keyed := SurrogateKeys([a, b]);
    assert keyed == [Keyed(1, a), Keyed(2, b)] by {
      assert Values(keyed) == [a, b];
    }
    assert keyed[1..] == [Keyed(2, b)] && keyed[1..][1..] == [];
  }

  /** Every numbered location is one of the input's, numbered by its position
      among the distinct locations. */
  lemma KeyedLocations(locations: seq<Location>)
    ensures forall y :: y in Filter(SurrogateKeys(locations), LocationComplete) ==>
      && 1 <= y.id <= |DropDuplicates(locations)| && y.value in locations && LocationComplete(y)
      && DropDuplicates(locations)[y.id - 1] == y.value
  {
    var keyed := SurrogateKeys(locations);
    forall y | y in Filter(keyed, LocationComplete)
      ensures && 1 <= y.id <= |DropDuplicates(locations)| && y.value in locations && LocationComplete(y)
              && DropDuplicates(locations)[y.id - 1] == y.value
    {
      assert y in keyed;
      var k :| 0 <= k < |keyed| && keyed[k] == y;
      assert Values(keyed)[k] == y.value;
    }
  }

  lemma CompleteLocationKept(keyed: seq<Keyed<Location>>, x: Location)
    requires x in Values(keyed) && LocationComplete(Keyed(0, x))
    ensures x in Values(Filter(keyed, LocationComplete))
  {
    var r := Filter(keyed, LocationComplete);
    var k :| 0 <= k < |keyed| && Values(keyed)[k] == x;
    assert keyed[k] in r;
    var j :| 0 <= j < |r| && r[j] == keyed[k];
    assert Values(r)[j] == x;
  }

  predicate IdsIncreasing<T>(s: seq<Keyed<T>>) {
    forall i, j :: 0 <= i < j < |s| ==> s[i].id < s[j].id
  }

  lemma IdsIncreasingCons<T>(x: Keyed<T>, rest: seq<Keyed<T>>)
    requires IdsIncreasing(rest)
    requires forall k :: 0 <= k < |rest| ==> x.id < rest[k].id
    ensures IdsIncreasing([x] + rest)
  {
    var r := [x] + rest;
    forall i, j | 0 <= i < j < |r| ensures r[i].id < r[j].id {
      assert r[j] == rest[j - 1];
      if i > 0 {
        assert r[i] == rest[i - 1];
      }
    }
  }

  /** Selecting rows keeps their ids increasing. */
  lemma {:induction false} FilterIncreasing<T(!new)>(s: seq<Keyed<T>>, p: Keyed<T> -> bool)
    requires IdsIncreasing(s)
    ensures IdsIncreasing(Filter(s, p))
    decreases |s|
  {
    if |s| > 0 {
      FilterIncreasing(s[1..], p);
      var rest := Filter(s[1..], p);
      if p(s[0]) {
        assert forall k :: 0 <= k < |rest| ==> s[0].id < rest[k].id by {
          forall k | 0 <= k < |rest| ensures s[0].id < rest[k].id {
            assert rest[k] in s[1..];
            var m :| 0 <= m < |s[1..]| && s[1..][m] == rest[k];
            assert s[m + 1] == rest[k];
          }
        }
        assert Filter(s, p) == [s[0]] + rest;
        IdsIncreasingCons(s[0], rest);
      } else {
        assert Filter(s, p) == rest;
      }
    }
  }
}
