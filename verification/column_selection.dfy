/** Which record attributes one run of the association-rule sweep mines
    (`get_selected_columns` in 03_Association_Rule_Mining.py). Eight attributes
    are always used; each of three settings may add one more. */
module ColumnSelection {

  import opened Seqs

  const BaseColumns: seq<string> :=
    ["gender", "age_group", "road_type", "time_of_day", "crash_type", "day_type", "road_user", "state"]

  /** The three settings of one sweep run: speed, holiday preference, vehicle. */
  datatype Settings = Settings(speed: string, preference: string, vehicle: string)

  /** The optional columns, each tagged with the setting group that adds it:
      1 speed, 2 holiday, 3 vehicle; 0 for every other name. */
  function OptionalGroup(c: string): nat {
    if c == "speed_limit" || c == "speed_category" then 1
    else if c == "easter_period" || c == "christmas_period" then 2
    else if c == "bus_involvement" || c == "heavy_rigid_truck_involvement"
         || c == "articulated_truck_involvement" then 3
    else 0
  }

  predicate KnownSpeed(speed: string) { speed == "limit" || speed == "category" }
  predicate KnownPreference(p: string) { p == "easter" || p == "christmas" }
  predicate KnownVehicle(v: string) { v == "bus" || v == "heavy" || v == "articulated" }

  function Count(b: bool): nat { if b then 1 else 0 }

  function SpeedColumns(speed: string): (r: seq<string>)
    ensures |r| == Count(KnownSpeed(speed))
    ensures forall k :: 0 <= k < |r| ==> OptionalGroup(r[k]) == 1
    ensures ("speed_limit" in r <==> speed == "limit") && ("speed_category" in r <==> speed == "category")
  {
    (if speed == "limit" then ["speed_limit"] else [])
    + (if speed == "category" then ["speed_category"] else [])
  }

  function HolidayColumns(preference: string): (r: seq<string>)
    ensures |r| == Count(KnownPreference(preference))
    ensures forall k :: 0 <= k < |r| ==> OptionalGroup(r[k]) == 2
    ensures ("easter_period" in r <==> preference == "easter")
         && ("christmas_period" in r <==> preference == "christmas")
  {
    (if preference == "easter" then ["easter_period"] else [])
    + (if preference == "christmas" then ["christmas_period"] else [])
  }

  function VehicleColumns(vehicle: string): (r: seq<string>)
    ensures |r| == Count(KnownVehicle(vehicle))
    ensures forall k :: 0 <= k < |r| ==> OptionalGroup(r[k]) == 3
    ensures ("bus_involvement" in r <==> vehicle == "bus")
         && ("heavy_rigid_truck_involvement" in r <==> vehicle == "heavy")
         && ("articulated_truck_involvement" in r <==> vehicle == "articulated")
  {
    (if vehicle == "bus" then ["bus_involvement"] else [])
    + (if vehicle == "heavy" then ["heavy_rigid_truck_involvement"] else [])
    + (if vehicle == "articulated" then ["articulated_truck_involvement"] else [])
  }

  lemma BaseColumnsPlain()
    ensures NoDuplicates(BaseColumns)
    ensures forall k :: 0 <= k < |BaseColumns| ==> OptionalGroup(BaseColumns[k]) == 0
  {
  }

  /** The columns of one run: the base columns, then at most one speed column,
      at most one holiday column and at most one vehicle column, in that order.
      An unrecognised setting adds nothing. */
  function SelectedColumns(s: Settings): (cols: seq<string>)
    ensures |cols| == 8 + Count(KnownSpeed(s.speed)) + Count(KnownPreference(s.preference))
                        + Count(KnownVehicle(s.vehicle))
    ensures cols[..8] == BaseColumns
    ensures forall i, j :: 8 <= i < j < |cols| ==> 0 < OptionalGroup(cols[i]) < OptionalGroup(cols[j])
    ensures NoDuplicates(cols)
  {
    var sp := SpeedColumns(s.speed);
    var ho := HolidayColumns(s.preference);
    var ve := VehicleColumns(s.vehicle);
    var cols := BaseColumns + sp + ho + ve;
    GroupsInOrder(sp, ho, ve);
    cols
  }

  lemma GroupsInOrder(sp: seq<string>, ho: seq<string>, ve: seq<string>)
    requires forall k :: 0 <= k < |sp| ==> OptionalGroup(sp[k]) == 1
    requires forall k :: 0 <= k < |ho| ==> OptionalGroup(ho[k]) == 2
    requires forall k :: 0 <= k < |ve| ==> OptionalGroup(ve[k]) == 3
    requires |sp| <= 1 && |ho| <= 1 && |ve| <= 1
    ensures var cols := BaseColumns + sp + ho + ve;
      && |cols| >= 8 && cols[..8] == BaseColumns
      && (forall i, j :: 8 <= i < j < |cols| ==> 0 < OptionalGroup(cols[i]) < OptionalGroup(cols[j]))
      && NoDuplicates(cols)
  {
    BaseColumnsPlain();
    GroupedInOrder(BaseColumns, sp, ho, ve, OptionalGroup);
  }

  /** Appending one-element-at-most groups tagged 1, 2, 3 to a repeat-free
      base tagged 0 keeps the groups in order and adds no repeat. */
  lemma GroupedInOrder<T>(base: seq<T>, sp: seq<T>, ho: seq<T>, ve: seq<T>, group: T -> nat)
    requires NoDuplicates(base) && forall k :: 0 <= k < |base| ==> group(base[k]) == 0
    requires forall k :: 0 <= k < |sp| ==> group(sp[k]) == 1
    requires forall k :: 0 <= k < |ho| ==> group(ho[k]) == 2
    requires forall k :: 0 <= k < |ve| ==> group(ve[k]) == 3
    requires |sp| <= 1 && |ho| <= 1 && |ve| <= 1
    ensures var cols := base + sp + ho + ve;
      && cols[..|base|] == base
      && (forall i, j :: |base| <= i < j < |cols| ==> 0 < group(cols[i]) < group(cols[j]))
      && NoDuplicates(cols)
  {
    var n := |base|;
    var tail := sp + ho + ve;
    var cols := base + tail;
    assert base + sp + ho + ve == cols;
    assert forall k :: 0 <= k < |tail| ==>
      group(tail[k]) == (if k < |sp| then 1 else if k < |sp| + |ho| then 2 else 3);
    forall i, j | 0 <= i < j < |cols| ensures cols[i] != cols[j] {
      if j < n {
        assert cols[i] == base[i] && cols[j] == base[j];
      } else if i < n {
        assert group(cols[i]) == 0 && group(cols[j]) > 0;
      } else {
        assert cols[i] == tail[i - n] && cols[j] == tail[j - n];
      }
    }
    assert cols[..n] == base;
  }

  lemma OptionalMembership(c: string, sp: seq<string>, ho: seq<string>, ve: seq<string>)
    requires forall k :: 0 <= k < |sp| ==> OptionalGroup(sp[k]) == 1
    requires forall k :: 0 <= k < |ho| ==> OptionalGroup(ho[k]) == 2
    requires forall k :: 0 <= k < |ve| ==> OptionalGroup(ve[k]) == 3
    requires OptionalGroup(c) > 0
    ensures c in BaseColumns + sp + ho + ve <==>
      if OptionalGroup(c) == 1 then c in sp else if OptionalGroup(c) == 2 then c in ho else c in ve
  {
    BaseColumnsPlain();
    GroupedMembership(c, BaseColumns, sp, ho, ve, OptionalGroup);
  }

  /** An element tagged 1, 2 or 3 is in the concatenation exactly when it is
      in the group its tag names. */
  lemma GroupedMembership<T>(c: T, base: seq<T>, sp: seq<T>, ho: seq<T>, ve: seq<T>, group: T -> nat)
    requires forall k :: 0 <= k < |base| ==> group(base[k]) == 0
    requires forall k :: 0 <= k < |sp| ==> group(sp[k]) == 1
    requires forall k :: 0 <= k < |ho| ==> group(ho[k]) == 2
    requires forall k :: 0 <= k < |ve| ==> group(ve[k]) == 3
    requires group(c) > 0
    ensures c in base + sp + ho + ve <==>
      if group(c) == 1 then c in sp else if group(c) == 2 then c in ho else c in ve
  {
    var cols := base + sp + ho + ve;
    var n := |base|;
    if c in cols {
      var k :| 0 <= k < |cols| && cols[k] == c;
      assert k >= n;
      if k < n + |sp| {
        assert cols[k] == sp[k - n];
      } else if k < n + |sp| + |ho| {
        assert cols[k] == ho[k - n - |sp|];
      } else {
        assert cols[k] == ve[k - n - |sp| - |ho|];
      }
    }
    if c in sp {
      var k :| 0 <= k < |sp| && sp[k] == c;
      assert cols[n + k] == c;
    }
    if c in ho {
      var k :| 0 <= k < |ho| && ho[k] == c;
      assert cols[n + |sp| + k] == c;
    }
    if c in ve {
      var k :| 0 <= k < |ve| && ve[k] == c;
      assert cols[n + |sp| + |ho| + k] == c;
    }
  }

  lemma OptionalGroupsOfNames()
    ensures OptionalGroup("speed_limit") == 1 && OptionalGroup("speed_category") == 1
    ensures OptionalGroup("easter_period") == 2 && OptionalGroup("christmas_period") == 2
    ensures OptionalGroup("bus_involvement") == 3 && OptionalGroup("heavy_rigid_truck_involvement") == 3
    ensures OptionalGroup("articulated_truck_involvement") == 3
  {
  }

  /** A column is selected exactly when its setting asks for it. */
  lemma SelectedColumnsMembership(s: Settings)
    ensures var cols := SelectedColumns(s);
      && ("speed_limit" in cols <==> s.speed == "limit")
      && ("speed_category" in cols <==> s.speed == "category")
      && ("easter_period" in cols <==> s.preference == "easter")
      && ("christmas_period" in cols <==> s.preference == "christmas")
      && ("bus_involvement" in cols <==> s.vehicle == "bus")
      && ("heavy_rigid_truck_involvement" in cols <==> s.vehicle == "heavy")
      && ("articulated_truck_involvement" in cols <==> s.vehicle == "articulated")
  {
    SpeedColumnSelected(s);
    HolidayColumnSelected(s);
    VehicleColumnSelected(s);
  }

  lemma SpeedColumnSelected(s: Settings)
    ensures ("speed_limit" in SelectedColumns(s) <==> s.speed == "limit")
         && ("speed_category" in SelectedColumns(s) <==> s.speed == "category")
  {
    var sp := SpeedColumns(s.speed);
    var ho := HolidayColumns(s.preference);
    var ve := VehicleColumns(s.vehicle);
    assert SelectedColumns(s) == BaseColumns + sp + ho + ve;
    OptionalGroupsOfNames();
    OptionalMembership("speed_limit", sp, ho, ve);
    OptionalMembership("speed_category", sp, ho, ve);
  }

  lemma HolidayColumnSelected(s: Settings)
    ensures ("easter_period" in SelectedColumns(s) <==> s.preference == "easter")
         && ("christmas_period" in SelectedColumns(s) <==> s.preference == "christmas")
  {
    var sp := SpeedColumns(s.speed);
    var ho := HolidayColumns(s.preference);
    var ve := VehicleColumns(s.vehicle);
    assert SelectedColumns(s) == BaseColumns + sp + ho + ve;
    OptionalGroupsOfNames();
    OptionalMembership("easter_period", sp, ho, ve);
    OptionalMembership("christmas_period", sp, ho, ve);
  }

  lemma VehicleColumnSelected(s: Settings)
    ensures ("bus_involvement" in SelectedColumns(s) <==> s.vehicle == "bus")
         && ("heavy_rigid_truck_involvement" in SelectedColumns(s) <==> s.vehicle == "heavy")
         && ("articulated_truck_involvement" in SelectedColumns(s) <==> s.vehicle == "articulated")
  {
    var sp := SpeedColumns(s.speed);
    var ho := HolidayColumns(s.preference);
    var ve := VehicleColumns(s.vehicle);
    assert SelectedColumns(s) == BaseColumns + sp + ho + ve;
    OptionalGroupsOfNames();
    OptionalMembership("bus_involvement", sp, ho, ve);
    OptionalMembership("heavy_rigid_truck_involvement", sp, ho, ve);
    OptionalMembership("articulated_truck_involvement", sp, ho, ve);
  }

  /** The twelve runs of the sweep, in order. */
  const SweepSettings: seq<Settings> := [
    Settings("limit", "easter", "bus"),
    Settings("limit", "easter", "heavy"),
    Settings("limit", "easter", "articulated"),
    Settings("limit", "christmas", "bus"),
    Settings("limit", "christmas", "heavy"),
    Settings("limit", "christmas", "articulated"),
    Settings("category", "easter", "bus"),
    Settings("category", "easter", "heavy"),
    Settings("category", "easter", "articulated"),
    Settings("category", "christmas", "bus"),
    Settings("category", "christmas", "heavy"),
    Settings("category", "christmas", "articulated")
  ]

  /** Every run of the sweep mines exactly eleven attributes. */
  lemma SweepRunsSelectElevenColumns()
    ensures |SweepSettings| == 12
    ensures forall k :: 0 <= k < |SweepSettings| ==> |SelectedColumns(SweepSettings[k])| == 11
  {
    forall k | 0 <= k < |SweepSettings|
      ensures |SelectedColumns(SweepSettings[k])| == 11
    {
      var t := SweepSettings[k];
      assert KnownSpeed(t.speed) && KnownPreference(t.preference) && KnownVehicle(t.vehicle);
    }
  }
}
