/** RegularCompactLotAdmin: builds the spots of a lot from a row template,
    parks and removes vehicles through the allocation strategy, and counts
    the lot into a ParkingLotSummary. */
module LotAdmin {
  import opened ParkingTypes
  import opened SpotIds
  import opened Spot
  import opened RowTemplate
  import opened AllocationStrategy
  import opened LotSummary
  import opened SummaryTally

  // ---------------------------------------------------------------------
  // The spots a template builds
  // ---------------------------------------------------------------------

  /** The ids held by a list of spots. */
  function IdsOf(spots: seq<ParkingSpot>): (ids: seq<string>)
    ensures |ids| == |spots|
  {
    if |spots| == 0 then [] else IdsOf(spots[..|spots| - 1]) + [spots[|spots| - 1].spotId]
  }

  // ---------------------------------------------------------------------
  // What the summary reads of the spots
  // ---------------------------------------------------------------------

  /** The summary row key of the id exists. */
  predicate RowKeyDefined(spotId: string)
  {
    '-' in spotId ==> |JavaSplit(spotId, '-')| > 0
  }

  function ViewOf(spot: ParkingSpot): SpotView
    reads spot
    requires RowKeyDefined(spot.spotId)
  {
    SpotView(SummaryRowKey(spot.spotId), spot.GetVehicleType())
  }

  function Views(spots: seq<ParkingSpot>): (vs: seq<SpotView>)
    reads spots
    requires forall k :: 0 <= k < |spots| ==> RowKeyDefined(spots[k].spotId)
    ensures |vs| == |spots|
    ensures forall k :: 0 <= k < |spots| ==> vs[k] == ViewOf(spots[k])
  {
    if |spots| == 0 then [] else Views(spots[..|spots| - 1]) + [ViewOf(spots[|spots| - 1])]
  }

  predicate RowKeysDefined(m: map<SpotType, seq<ParkingSpot>>)
  {
    forall t, k :: t in m && 0 <= k < |m[t]| ==> RowKeyDefined(m[t][k].spotId)
  }

  /** The entries of the type map visited in the order of `ts`. */
  function EntriesOf(m: map<SpotType, seq<ParkingSpot>>, ts: seq<SpotType>): (es: seq<TypeEntry>)
    reads SpotsOf(m)
    requires RowKeysDefined(m)
    ensures |es| <= |ts|
  {
    if |ts| == 0 then []
    else
      var t := ts[|ts| - 1];
      EntriesOf(m, ts[..|ts| - 1])
      + (if t in m then
           assert forall s :: s in m[t] ==> s in SpotsOf(m);
           [TypeEntry(t, Views(m[t]))]
         else [])
  }

  /** Visiting one more spot type. */
  lemma EntriesOfStep(m: map<SpotType, seq<ParkingSpot>>, ts: seq<SpotType>, i: nat)
    requires RowKeysDefined(m) && i < |ts|
    ensures ts[i] in m ==> EntriesOf(m, ts[..i + 1]) == EntriesOf(m, ts[..i]) + [TypeEntry(ts[i], Views(m[ts[i]]))]
    ensures ts[i] !in m ==> EntriesOf(m, ts[..i + 1]) == EntriesOf(m, ts[..i])
  {
    assert ts[..i + 1][..i] == ts[..i];
    assert EntriesOf(m, ts[..i]) + [] == EntriesOf(m, ts[..i]);
  }

  /** A map with a key has an entry. */
  lemma EntriesOfNonEmpty(m: map<SpotType, seq<ParkingSpot>>)
    requires RowKeysDefined(m)
    ensures EntriesOf(m, SpotTypes) == [] <==> m == map[]
  {
    assert SpotTypes[..1] == [COMPACT] && [COMPACT][..0] == [];
    if m != map[] {
      var t :| t in m;
      assert t == COMPACT || t == REGULAR;
    }
  }

  /** The spots of a list, as a set. */
  function Members(spots: seq<ParkingSpot>): set<ParkingSpot>
  {
    set s | s in spots
  }

  /** Each list holds distinct spots of its own type with ids of the form
      "R{row}-{col}". */
  ghost predicate ListsWellFormed(m: map<SpotType, seq<ParkingSpot>>)
  {
    && TypedLists(m)
    && (forall t :: t in m ==> Distinct(m[t]))
    && (forall t, k :: t in m && 0 <= k < |m[t]| ==> BuiltId(m[t][k].spotId))
  }

  /** The list of type `t` holds the spots `ids` by id and in order, and the
      map has a key for `t` only when there are such spots. */
  predicate ListIs(m: map<SpotType, seq<ParkingSpot>>, t: SpotType, ids: seq<string>)
  {
    (t in m <==> |ids| > 0) && (t in m ==> IdsOf(m[t]) == ids)
  }

  /** The type map holds the spots of rows 1 to `rows`, for both types. */
  predicate Holds(m: map<SpotType, seq<ParkingSpot>>, arrangement: seq<SpotType>, rows: int)
  {
    && ListIs(m, COMPACT, PlannedIds(arrangement, COMPACT, rows))
    && ListIs(m, REGULAR, PlannedIds(arrangement, REGULAR, rows))
  }

  /** A lot built from `rows` rows holds rows × columns spots in its two
      lists together. */
  lemma HoldsSize(m: map<SpotType, seq<ParkingSpot>>, arrangement: seq<SpotType>, rows: int)
    requires rows >= 0 && Holds(m, arrangement, rows)
    ensures |Lookup(m, COMPACT)| + |Lookup(m, REGULAR)| == rows * |arrangement|
  {
    PlannedIdsTotal(arrangement, rows);
    if COMPACT in m { assert |IdsOf(m[COMPACT])| == |m[COMPACT]|; }
    if REGULAR in m { assert |IdsOf(m[REGULAR])| == |m[REGULAR]|; }
  }

  /** The map holds the spots of the rows before row `row` and of the
      first `cols` columns of row `row`. */
  predicate Built(m: map<SpotType, seq<ParkingSpot>>, arrangement: seq<SpotType>, row: nat, cols: nat)
    requires cols <= |arrangement|
  {
    && ListIs(m, COMPACT, PlannedIds(arrangement, COMPACT, row - 1) + RowIds(arrangement, COMPACT, row, cols))
    && ListIs(m, REGULAR, PlannedIds(arrangement, REGULAR, row - 1) + RowIds(arrangement, REGULAR, row, cols))
  }

  /** Finishing a row is starting the next one. */
  lemma BuiltNextRow(m: map<SpotType, seq<ParkingSpot>>, arrangement: seq<SpotType>, row: nat)
    requires row >= 1 && Built(m, arrangement, row, |arrangement|)
    ensures Built(m, arrangement, row + 1, 0)
  {
  }

  /** Appending the spot of the next column keeps the map built. */
  lemma BuiltNextColumn(m: map<SpotType, seq<ParkingSpot>>, arrangement: seq<SpotType>, row: nat, col: nat, spot: ParkingSpot)
    requires col < |arrangement| && Built(m, arrangement, row, col)
    requires spot.spotId == FormatSpotId(row, col + 1) && spot.spotType == arrangement[col]
    ensures Built(m[arrangement[col] := Lookup(m, arrangement[col]) + [spot]], arrangement, row, col + 1)
  {
    NextColumnFor(m, arrangement, row, col, spot, COMPACT, PlannedIds(arrangement, COMPACT, row - 1));
    NextColumnFor(m, arrangement, row, col, spot, REGULAR, PlannedIds(arrangement, REGULAR, row - 1));
  }

  /** Appending the spot of column `col` + 1 to its type's list extends
      that list's ids, after the earlier rows' ids `p`, by the spot's id;
      the other type's list is as it was. */
  lemma NextColumnFor(m: map<SpotType, seq<ParkingSpot>>, arrangement: seq<SpotType>, row: nat, col: nat,
                      spot: ParkingSpot, t: SpotType, p: seq<string>)
    requires col < |arrangement|
    requires ListIs(m, t, p + RowIds(arrangement, t, row, col))
    requires spot.spotId == FormatSpotId(row, col + 1)
    ensures ListIs(m[arrangement[col] := Lookup(m, arrangement[col]) + [spot]], t,
                   p + RowIds(arrangement, t, row, col + 1))
  {
    if t == arrangement[col] {
      NextColumnOwn(m, arrangement, row, col, spot, p);
    } else {
      assert RowIds(arrangement, t, row, col + 1) == RowIds(arrangement, t, row, col) + [];
    }
  }

  lemma NextColumnOwn(m: map<SpotType, seq<ParkingSpot>>, arrangement: seq<SpotType>, row: nat, col: nat,
                      spot: ParkingSpot, p: seq<string>)
    requires col < |arrangement|
    requires ListIs(m, arrangement[col], p + RowIds(arrangement, arrangement[col], row, col))
    requires spot.spotId == FormatSpotId(row, col + 1)
    ensures ListIs(m[arrangement[col] := Lookup(m, arrangement[col]) + [spot]], arrangement[col],
                   p + RowIds(arrangement, arrangement[col], row, col + 1))
  {
    var t := arrangement[col];
    var ids := p + RowIds(arrangement, t, row, col);
    assert p + RowIds(arrangement, t, row, col + 1) == ids + [spot.spotId];
    IdsOfSnoc(Lookup(m, t), spot);
    if t !in m {
      assert |ids| == 0;
      assert ids == [];
    }
  }

  /** The ids of a list with one more spot. */
  lemma IdsOfSnoc(spots: seq<ParkingSpot>, spot: ParkingSpot)
    ensures IdsOf(spots + [spot]) == IdsOf(spots) + [spot.spotId]
  {
    assert (spots + [spot])[..|spots|] == spots;
  }

  /** The map after one step of the inner building loop. */
  lemma ColumnStep(m: map<SpotType, seq<ParkingSpot>>, arrangement: seq<SpotType>, row: nat, col: nat, spot: ParkingSpot)
    requires col < |arrangement| && Built(m, arrangement, row, col) && ListsWellFormed(m)
    requires spot !in SpotsOf(m)
    requires spot.spotId == FormatSpotId(row, col + 1) && spot.spotType == arrangement[col]
    ensures var m' := m[arrangement[col] := Lookup(m, arrangement[col]) + [spot]];
            Built(m', arrangement, row, col + 1) && ListsWellFormed(m') && SpotsOf(m') == SpotsOf(m) + {spot}
  {
    assert BuiltId(spot.spotId);
    BuiltNextColumn(m, arrangement, row, col, spot);
    SpotsOfAppend(m, arrangement[col], spot);
    ListsAppend(m, arrangement[col], spot);
  }

  /** A built map with no partial row holds its rows. */
  lemma BuiltHolds(m: map<SpotType, seq<ParkingSpot>>, arrangement: seq<SpotType>, row: nat, numOfRows: int)
    requires Built(m, arrangement, row, 0)
    requires row == numOfRows + 1 || (row == 1 && numOfRows <= 0)
    ensures Holds(m, arrangement, numOfRows)
  {
    assert PlannedIds(arrangement, COMPACT, row - 1) + [] == PlannedIds(arrangement, COMPACT, numOfRows);
    assert PlannedIds(arrangement, REGULAR, row - 1) + [] == PlannedIds(arrangement, REGULAR, numOfRows);
  }

  /** Built ids are read by both extractions and have a summary row key. */
  lemma BuiltIdsReadable(m: map<SpotType, seq<ParkingSpot>>)
    requires ListsWellFormed(m)
    ensures forall k :: 0 <= k < |Lookup(m, REGULAR)| ==> WellFormedId(Lookup(m, REGULAR)[k].spotId)
    ensures RowKeysDefined(m)
  {
    forall t, k | t in m && 0 <= k < |m[t]|
      ensures WellFormedId(m[t][k].spotId) && RowKeyDefined(m[t][k].spotId)
    {
      var row: nat, col: nat :| m[t][k].spotId == FormatSpotId(row, col);
      RowKeysOfFormattedId(row, col);
      FormatSpotIdParts(row, col);
    }
  }

  /** Appending a new spot of the list's type with a well-formed id keeps
      the lists well formed. */
  lemma ListsAppend(m: map<SpotType, seq<ParkingSpot>>, t: SpotType, spot: ParkingSpot)
    requires ListsWellFormed(m) && spot !in SpotsOf(m)
    requires spot.spotType == t && BuiltId(spot.spotId)
    ensures ListsWellFormed(m[t := Lookup(m, t) + [spot]])
  {
    var l := Lookup(m, t) + [spot];
    var m': map<SpotType, seq<ParkingSpot>> := m[t := l];
    if t in m {
      SpotsOfHolds(m, t);
    }
    assert spot !in Lookup(m, t);
    DistinctSnoc(Lookup(m, t), spot);
    forall u, k: int | u in m' && 0 <= k < |m'[u]| ensures BuiltId(m'[u][k].spotId) {
      if u == t && k < |l| - 1 {
        assert l[k] == Lookup(m, t)[k];
      }
    }
    assert TypedLists(m') by {
      forall u, s: ParkingSpot | u in m' && s in m'[u] ensures s.spotType == u {
        if u == t && s != spot {
          assert s in Lookup(m, t);
        }
      }
    }
  }

  // ---------------------------------------------------------------------
  // The administrator
  // ---------------------------------------------------------------------

  class RegularCompactLotAdmin {
    /** parkingSpotTypeMap: the spots of each type, row by row. */
    var spotsByType: map<SpotType, seq<ParkingSpot>>
    /** vehicleSpotsMap: the spots held by each parked vehicle. */
    var vehicleSpots: map<string, seq<ParkingSpot>>

    /** Every recorded vehicle holds a non-empty list of distinct spots of
        the lot, each occupied by a vehicle with its identifier. */
    ghost predicate AssignmentsHeld()
      reads this, SpotsOf(spotsByType)
    {
      forall id :: id in vehicleSpots ==>
        && |vehicleSpots[id]| > 0 && Distinct(vehicleSpots[id])
        && forall k :: 0 <= k < |vehicleSpots[id]| ==>
             var s := vehicleSpots[id][k];
             s in SpotsOf(spotsByType) && s.vehicle.Some? && s.vehicle.value.identifier == id
    }

    /** Every occupied spot is recorded under its occupant's identifier. */
    ghost predicate OccupantsRecorded()
      reads this, SpotsOf(spotsByType)
    {
      forall s :: s in SpotsOf(spotsByType) && s.vehicle.Some? ==>
        s.vehicle.value.identifier in vehicleSpots && s in vehicleSpots[s.vehicle.value.identifier]
    }

    ghost predicate Valid()
      reads this, SpotsOf(spotsByType)
    {
      ListsWellFormed(spotsByType) && AssignmentsHeld() && OccupantsRecorded()
    }

    /** The building loops: for each row from 1 to numOfRows and each
        column of the template, a fresh free spot "R{row}-{col}" appended to
        the list of its type, created on first use. */
    constructor (numOfRows: int, arrangement: seq<SpotType>)
      ensures Holds(spotsByType, arrangement, numOfRows)
      ensures forall s :: s in SpotsOf(spotsByType) ==> fresh(s) && s.IsAvailable()
      ensures vehicleSpots == map[]
      ensures Valid()
    {
      spotsByType := map[];
      vehicleSpots := map[];
      new;
      var row := 1;
      while row <= numOfRows
        invariant 1 <= row && (numOfRows >= 1 ==> row <= numOfRows + 1) && (numOfRows < 1 ==> row == 1)
        invariant vehicleSpots == map[]
        invariant Built(spotsByType, arrangement, row, 0)
        invariant forall s :: s in SpotsOf(spotsByType) ==> fresh(s) && s.vehicle.None?
        invariant ListsWellFormed(spotsByType)
      {
        BuildRow(row, arrangement);
        row := row + 1;
      }
      BuiltHolds(spotsByType, arrangement, row, numOfRows);
    }

    /** One pass of the outer building loop: the spots of row `row`, column
        by column. */
    method BuildRow(row: nat, arrangement: seq<SpotType>)
      requires row >= 1 && Built(spotsByType, arrangement, row, 0) && ListsWellFormed(spotsByType)
      requires forall s :: s in SpotsOf(spotsByType) ==> s.vehicle.None?
      modifies this
      ensures vehicleSpots == old(vehicleSpots)
      ensures Built(spotsByType, arrangement, row + 1, 0) && ListsWellFormed(spotsByType)
      ensures forall s :: s in SpotsOf(spotsByType) ==> (s in old(SpotsOf(spotsByType)) || fresh(s)) && s.vehicle.None?
    {
      var col := 0;
      while col < |arrangement|
        invariant 0 <= col <= |arrangement|
        invariant vehicleSpots == old(vehicleSpots)
        invariant Built(spotsByType, arrangement, row, col)
        invariant forall s :: s in SpotsOf(spotsByType) ==> (s in old(SpotsOf(spotsByType)) || fresh(s)) && s.vehicle.None?
        invariant ListsWellFormed(spotsByType)
      {
        AddColumn(row, col, arrangement);
        col := col + 1;
      }
      BuiltNextRow(spotsByType, arrangement, row);
    }

    /** One pass of the inner building loop: the spot of row `row` and
        column `col` + 1, appended to the list of its type. */
    method AddColumn(row: nat, col: nat, arrangement: seq<SpotType>)
      requires row >= 1 && col < |arrangement| && Built(spotsByType, arrangement, row, col)
      requires ListsWellFormed(spotsByType)
      requires forall s :: s in SpotsOf(spotsByType) ==> s.vehicle.None?
      modifies this
      ensures vehicleSpots == old(vehicleSpots)
      ensures Built(spotsByType, arrangement, row, col + 1) && ListsWellFormed(spotsByType)
      ensures forall s :: s in SpotsOf(spotsByType) ==> (s in old(SpotsOf(spotsByType)) || fresh(s)) && s.vehicle.None?
    {
      var spotType := arrangement[col];
      var before := Lookup(spotsByType, spotType);
      var spot := new ParkingSpot(FormatSpotId(row, col + 1), spotType);
      ColumnStep(spotsByType, arrangement, row, col, spot);
      spotsByType := spotsByType[spotType := before + [spot]];
    }

    /** The Java constructor as a whole: the template is split and each
        token validated before anything is built, so an unknown token is
        IllegalSpotTypeException and no lot; a valid template builds its
        rows with every spot free and no vehicle recorded. */
    static method Create(numOfRows: int, rowSequence: string) returns (r: Result<RegularCompactLotAdmin, ParkingError>)
      ensures r.Err? <==> Arrangement(Tokens(rowSequence)).Err?
      ensures r.Err? ==> r.error == Arrangement(Tokens(rowSequence)).error
      ensures r.Ok? ==>
                && fresh(r.value)
                && Holds(r.value.spotsByType, Arrangement(Tokens(rowSequence)).value, numOfRows)
                && (forall s :: s in SpotsOf(r.value.spotsByType) ==> s.IsAvailable())
                && r.value.vehicleSpots == map[]
                && r.value.Valid()
    {
      var arrangement := ValidateArrangement(rowSequence);
      if arrangement.Err? {
        return Err(arrangement.error);
      }
      var admin := new RegularCompactLotAdmin(numOfRows, arrangement.value);
      return Ok(admin);
    }

    /** What the strategy answers for a vehicle on the current lot. */
    function Allocation(identifier: string, vehicleType: VehicleType): Result<seq<ParkingSpot>, ParkingError>
      reads this, SpotsOf(spotsByType)
    {
      SearchedInSpots(spotsByType);
      FindParkingSpot(Some(Vehicle(identifier, vehicleType)), Some(spotsByType))
    }

    /** parkVehicle. A vehicle already recorded gets its spots back and
        nothing changes. Otherwise the strategy is asked for spots: none is
        ParkingUnavailableException and nothing changes; spots found are
        all given the vehicle and recorded under its identifier. The
        strategy cannot fail on the ids this class builds, and a found
        spot cannot be taken, so DoubleParkingException cannot arise. */
    method ParkVehicle(identifier: string, vehicleType: VehicleType) returns (r: Result<seq<ParkingSpot>, ParkingError>)
      requires Valid()
      modifies this, SpotsOf(spotsByType)
      ensures Valid()
      ensures spotsByType == old(spotsByType)
      ensures identifier in old(vehicleSpots) ==>
                && r == Ok(old(vehicleSpots)[identifier])
                && vehicleSpots == old(vehicleSpots)
                && unchanged(SpotsOf(spotsByType))
      ensures identifier !in old(vehicleSpots) ==> old(Allocation(identifier, vehicleType)).Ok?
      ensures identifier !in old(vehicleSpots) && |old(Allocation(identifier, vehicleType)).value| == 0 ==>
                && r == Err(ParkingUnavailable(NoSuitableSpot(identifier)))
                && vehicleSpots == old(vehicleSpots)
                && unchanged(SpotsOf(spotsByType))
      ensures identifier !in old(vehicleSpots) && |old(Allocation(identifier, vehicleType)).value| > 0 ==>
                && r == old(Allocation(identifier, vehicleType))
                && vehicleSpots == old(vehicleSpots)[identifier := r.value]
                && (forall k :: 0 <= k < |r.value| ==> r.value[k].vehicle == Some(Vehicle(identifier, vehicleType)))
                && unchanged(SpotsOf(spotsByType) - Members(r.value))
    {
      if identifier in vehicleSpots {
        return Ok(vehicleSpots[identifier]);
      }
      var vehicle := Vehicle(identifier, vehicleType);
      BuiltIdsReadable(spotsByType);
      FindParkingSpotSound(vehicle, spotsByType);
      FindParkingSpotTotal(vehicle, spotsByType);
      var spots := Allocation(identifier, vehicleType).value;
      if |spots| == 0 {
        return Err(ParkingUnavailable(NoSuitableSpot(identifier)));
      }
      Occupy(vehicle, spots);
      return Ok(spots);
    }

    /** The end of parkVehicle: each found spot is given the vehicle, then
        the spots are recorded under its identifier. */
    method Occupy(vehicle: Vehicle, spots: seq<ParkingSpot>)
      requires Valid() && vehicle.identifier !in vehicleSpots
      requires |spots| > 0 && Distinct(spots)
      requires forall l :: 0 <= l < |spots| ==> spots[l] in SpotsOf(spotsByType) && spots[l].vehicle.None?
      modifies this, Members(spots)
      ensures Valid()
      ensures spotsByType == old(spotsByType)
      ensures vehicleSpots == old(vehicleSpots)[vehicle.identifier := spots]
      ensures forall l :: 0 <= l < |spots| ==> spots[l].vehicle == Some(vehicle)
    {
      AssignAll(spots, vehicle);
      vehicleSpots := vehicleSpots[vehicle.identifier := spots];
      forall id | id in vehicleSpots && id != vehicle.identifier
        ensures forall k :: 0 <= k < |vehicleSpots[id]| ==> vehicleSpots[id][k] !in spots
      {
        forall k | 0 <= k < |vehicleSpots[id]| ensures vehicleSpots[id][k] !in spots {
          assert old(vehicleSpots[id][k].vehicle.Some?);
        }
      }
    }

    /** removeVehicle: the identifier's record is dropped and each of its
        spots freed; an identifier not recorded changes nothing. */
    method RemoveVehicle(identifier: string)
      requires Valid()
      modifies this, SpotsOf(spotsByType)
      ensures Valid()
      ensures spotsByType == old(spotsByType)
      ensures vehicleSpots == old(vehicleSpots) - {identifier}
      ensures identifier in old(vehicleSpots) ==>
                && (forall k :: 0 <= k < |old(vehicleSpots)[identifier]| ==> old(vehicleSpots)[identifier][k].vehicle == None)
                && unchanged(SpotsOf(spotsByType) - Members(old(vehicleSpots)[identifier]))
      ensures identifier !in old(vehicleSpots) ==> unchanged(SpotsOf(spotsByType))
    {
      if identifier !in vehicleSpots {
        return;
      }
      Release(identifier);
    }

    /** The end of removeVehicle for a recorded identifier: the record is
        dropped and each of its spots freed. */
    method Release(identifier: string)
      requires Valid() && identifier in vehicleSpots
      modifies this, SpotsOf(spotsByType)
      ensures Valid()
      ensures spotsByType == old(spotsByType)
      ensures vehicleSpots == old(vehicleSpots) - {identifier}
      ensures forall k :: 0 <= k < |old(vehicleSpots)[identifier]| ==> old(vehicleSpots)[identifier][k].vehicle == None
      ensures unchanged(SpotsOf(spotsByType) - Members(old(vehicleSpots)[identifier]))
    {
      var usedSpots := vehicleSpots[identifier];
      vehicleSpots := vehicleSpots - {identifier};
      FreeAll(usedSpots);
      forall id | id in vehicleSpots
        ensures forall k :: 0 <= k < |vehicleSpots[id]| ==> vehicleSpots[id][k] !in usedSpots
      {
        forall k | 0 <= k < |vehicleSpots[id]| ensures vehicleSpots[id][k] !in usedSpots {
          assert old(vehicleSpots[id][k].vehicle.value.identifier) == id;
        }
      }
    }

    /** The entries generateLotSummary visits, one per spot type present. */
    function Entries(): seq<TypeEntry>
      reads this, SpotsOf(spotsByType)
      requires RowKeysDefined(spotsByType)
    {
      EntriesOf(spotsByType, SpotTypes)
    }

    /** generateLotSummary: an empty type map gives the empty summary;
        otherwise one pass over the spots of each type counts the lot, and
        the lot is full when nothing is free and empty when nothing is
        taken. */
    method GenerateLotSummary() returns (s: ParkingLotSummary)
      requires ListsWellFormed(spotsByType)
      ensures RowKeysDefined(spotsByType) && s == Summarize(Entries())
      ensures Consistent(s)
    {
      var m := spotsByType;
      BuiltIdsReadable(m);
      EntriesOfNonEmpty(m);
      if m == map[] {
        // the constructor call on zeros and empty maps, which EmptyShortcut
        // shows to be EmptySummary
        return EmptySummary;
      }
      ghost var es := EntriesOf(m, SpotTypes);
      assert forall s :: s in SpotsOf(m) ==> allocated(s);
      var tally, byType := CountTypes(m, SpotTypes);
      assert es == EntriesOf(m, SpotTypes);
      CountedSummary(es, tally, byType);
      var summary := NewParkingLotSummary(tally.total, tally.available, tally.occupied, Some(byType),
                                          tally.available == 0, tally.occupied == 0, tally.vans, Some(tally.byRow));
      return summary.value;
    }

  }

  /** The forEach of parkVehicle: each spot of the list, all free and
      distinct, takes the vehicle. */
  method AssignAll(spots: seq<ParkingSpot>, vehicle: Vehicle)
    requires Distinct(spots) && forall l :: 0 <= l < |spots| ==> spots[l].vehicle.None?
    modifies Members(spots)
    ensures forall l :: 0 <= l < |spots| ==> spots[l].vehicle == Some(vehicle)
  {
    var k := 0;
    while k < |spots|
      invariant 0 <= k <= |spots|
      invariant forall l :: 0 <= l < k ==> spots[l].vehicle == Some(vehicle)
      invariant forall l :: k <= l < |spots| ==> spots[l].vehicle.None?
    {
      assert spots[k] in Members(spots);
      var outcome := spots[k].AssignVehicle(vehicle);
      assert outcome == Pass;
      k := k + 1;
    }
  }

  /** The forEach of removeVehicle: each spot of the list is freed. */
  method FreeAll(spots: seq<ParkingSpot>)
    modifies Members(spots)
    ensures forall l :: 0 <= l < |spots| ==> spots[l].vehicle == None
  {
    var k := 0;
    while k < |spots|
      invariant 0 <= k <= |spots|
      invariant forall l :: 0 <= l < k ==> spots[l].vehicle == None
    {
      assert spots[k] in Members(spots);
      spots[k].RemoveVehicle();
      k := k + 1;
    }
  }

  /** The inner loop of generateLotSummary over the spots of one type,
      from the counters `acc`; the type's own total and free counts come
      back too. */
  method CountSpots(spots: seq<ParkingSpot>, acc: Tally) returns (tally: Tally, typeTotal: int, typeAvailable: int)
    requires forall k :: 0 <= k < |spots| ==> RowKeyDefined(spots[k].spotId)
    ensures tally == TallyViews(acc, Views(spots))
    ensures typeTotal == |spots| && typeAvailable == CountFree(Views(spots))
  {
    tally, typeTotal, typeAvailable := acc, 0, 0;
    ghost var vs := Views(spots);
    var k := 0;
    while k < |spots|
      invariant 0 <= k <= |spots|
      invariant tally == TallyViews(acc, vs[..k])
      invariant typeTotal == k && typeAvailable == CountFree(vs[..k])
    {
      TallyStep(acc, vs, k);
      tally := CountSpot(spots[k], tally);
      typeTotal := typeTotal + 1;
      if spots[k].IsAvailable() {
        typeAvailable := typeAvailable + 1;
      }
      k := k + 1;
    }
    assert vs[..k] == vs;
  }

  /** The body of that loop for one spot: it is counted overall and in its
      row ("R1" for "R1-3", "UNKNOWN" without a '-'), as free or taken,
      and, when taken by a van, as a van. */
  method CountSpot(spot: ParkingSpot, acc: Tally) returns (next: Tally)
    requires RowKeyDefined(spot.spotId)
    ensures next == AddSpot(acc, ViewOf(spot))
  {
    var total, available, occupied, vanCount, byRow := acc.total + 1, acc.available, acc.occupied, acc.vans, acc.byRow;
    var row := SummaryRowKey(spot.spotId);
    var isAvail := spot.IsAvailable();
    if isAvail {
      available := available + 1;
    } else {
      occupied := occupied + 1;
      if spot.GetVehicleType() == Some(VAN) {
        vanCount := vanCount + 1;
      }
    }
    var rowStatus := if row in byRow then byRow[row] else RowStatus(0, 0, 0);
    var rowTotal := rowStatus.total + 1;
    var rowAvailable := rowStatus.available + (if isAvail then 1 else 0);
    byRow := byRow[row := RowStatus(rowTotal, rowAvailable, rowTotal - rowAvailable)];
    next := Tally(total, available, occupied, vanCount, byRow);
  }

  /** The outer loop of generateLotSummary: the spot types `ts` in turn,
      each present one counted by the inner loop and given its status. */
  method CountTypes(m: map<SpotType, seq<ParkingSpot>>, ts: seq<SpotType>) returns (tally: Tally, byType: map<SpotType, SpotTypeStatus>)
    requires RowKeysDefined(m)
    ensures tally == TallyEntries(EntriesOf(m, ts))
    ensures byType == TypeStatuses(EntriesOf(m, ts))
  {
    tally, byType := NoTally, map[];
    var i := 0;
    while i < |ts|
      invariant 0 <= i <= |ts|
      invariant tally == TallyEntries(EntriesOf(m, ts[..i]))
      invariant byType == TypeStatuses(EntriesOf(m, ts[..i]))
      invariant forall s :: s in SpotsOf(m) ==> allocated(s)
    {
      ghost var before := EntriesOf(m, ts[..i]);
      if ts[i] in m {
        assert forall s :: s in m[ts[i]] ==> s in SpotsOf(m);
        tally, byType := CountType(ts[i], m[ts[i]], tally, byType);
        EntriesSnoc(before, TypeEntry(ts[i], Views(m[ts[i]])));
      }
      EntriesOfStep(m, ts, i);
      i := i + 1;
    }
    assert ts[..i] == ts;
  }

  /** One turn of that loop for a type t present with the list `spots`:
      the spots are counted and the type given its status. */
  method CountType(t: SpotType, spots: seq<ParkingSpot>, acc: Tally, accByType: map<SpotType, SpotTypeStatus>)
    returns (tally: Tally, byType: map<SpotType, SpotTypeStatus>)
    requires forall k :: 0 <= k < |spots| ==> RowKeyDefined(spots[k].spotId)
    ensures tally == TallyViews(acc, Views(spots))
    ensures byType == accByType[t := TypeStatusOf(Views(spots))]
  {
    var typeTotal, typeAvailable;
    tally, typeTotal, typeAvailable := CountSpots(spots, acc);
    byType := accByType[t := SpotTypeStatus(typeTotal, typeAvailable, typeTotal - typeAvailable)];
  }
}
