/** ParkingLotAdmin of the older engine: builds its spots from a row
    template through ParkingLotUtil.createSpot, keys the parked vehicles by
    Vehicle object, and summarises the lot with stream counts against the
    configured size. */
module LegacyAdmin {
  import opened ParkingTypes
  import opened SpotIds
  import opened RowTemplate
  import opened LegacySpots
  import opened LegacyUtil
  import opened LotSummary
  import opened SummaryTally

  /** parking.domain.ParkingLotSummary of the older engine: a holder that
      stores its arguments without any check, its per-type map keyed by
      type name. */
  datatype LegacySummary = LegacySummary(
    totalSpots: int,
    availableSpots: int,
    occupiedSpots: int,
    byType: map<string, SpotTypeStatus>,
    isFull: bool,
    isEmpty: bool,
    vanCount: int,
    byRow: map<string, RowStatus>)

  // ---------------------------------------------------------------------
  // The spots a template lays out
  // ---------------------------------------------------------------------

  /** The type each token names; a token that names none stands as COMPACT,
      which the building loop never reaches, since it stops at that token. */
  function TypesOf(tokens: seq<string>): (ts: seq<SpotType>)
    ensures |ts| == |tokens|
    ensures forall k :: 0 <= k < |tokens| && ParseSpotType(tokens[k]).Some? ==> ts[k] == ParseSpotType(tokens[k]).value
  {
    if |tokens| == 0 then []
    else
      var last := ParseSpotType(tokens[|tokens| - 1]);
      TypesOf(tokens[..|tokens| - 1]) + [if last.Some? then last.value else COMPACT]
  }

  /** A template whose tokens all name types is accepted with those types. */
  lemma ArrangementIsTypesOf(tokens: seq<string>)
    requires AllNamed(tokens)
    ensures Arrangement(tokens) == Ok(TypesOf(tokens))
  {
    ArrangementAccepts(tokens);
  }

  /** A template with a token that names no type is rejected. */
  lemma UnnamedRejected(tokens: seq<string>, k: nat)
    requires k < |tokens| && ParseSpotType(tokens[k]).None?
    ensures Arrangement(tokens).Err?
  {
    if Arrangement(tokens).Ok? {
      assert tokens[..|tokens|] == tokens;
      ArrangementPrefixNamed(tokens, |tokens|, Arrangement(tokens).value);
    }
  }

  /** A token whose stripped form is a key names a type, one more named
      token of the prefix. */
  lemma NamedStep(tokens: seq<string>, col: nat)
    requires col < |tokens| && KindOfKey(Strip(tokens[col])).Some?
    requires forall l :: 0 <= l < col ==> ParseSpotType(tokens[l]).Some?
    ensures forall l :: 0 <= l < col + 1 ==> ParseSpotType(tokens[l]).Some?
  {
    KindOfStrippedToken(tokens[col]);
  }

  /** A template with a token whose stripped form is no key is rejected. */
  lemma UnkeyedRejected(tokens: seq<string>, col: nat)
    requires col < |tokens| && KindOfKey(Strip(tokens[col])).None?
    ensures Arrangement(tokens).Err?
  {
    KindOfStrippedToken(tokens[col]);
    UnnamedRejected(tokens, col);
  }

  /** The ids held by a list of spots. */
  function IdsOf(spots: seq<LegacySpot>): (ids: seq<string>)
    ensures |ids| == |spots|
  {
    if |spots| == 0 then [] else IdsOf(spots[..|spots| - 1]) + [spots[|spots| - 1].spotId]
  }

  /** The spots of a list, as a set. */
  function Members(spots: seq<LegacySpot>): set<LegacySpot>
  {
    set s | s in spots
  }

  /** The map is keyed by type names only. */
  predicate TypeKeysOnly(m: map<string, seq<LegacySpot>>)
  {
    forall key :: key in m ==> KindOfKey(key).Some?
  }

  /** The list under the name of `t` holds the spots `ids` by id and in
      order, and the name is a key only when there are such spots. */
  predicate ListIs(m: map<string, seq<LegacySpot>>, t: SpotType, ids: seq<string>)
  {
    (SpotTypeName(t) in m <==> |ids| > 0) && (SpotTypeName(t) in m ==> IdsOf(m[SpotTypeName(t)]) == ids)
  }

  /** The map holds the spots of rows 1 to `rows`, under both type names. */
  predicate Holds(m: map<string, seq<LegacySpot>>, arrangement: seq<SpotType>, rows: int)
  {
    && TypeKeysOnly(m)
    && ListIs(m, COMPACT, PlannedIds(arrangement, COMPACT, rows))
    && ListIs(m, REGULAR, PlannedIds(arrangement, REGULAR, rows))
  }

  /** The map holds the spots of the rows before row `row` and of the
      first `cols` columns of row `row`. */
  predicate Built(m: map<string, seq<LegacySpot>>, arrangement: seq<SpotType>, row: nat, cols: nat)
    requires cols <= |arrangement|
  {
    && TypeKeysOnly(m)
    && ListIs(m, COMPACT, PlannedIds(arrangement, COMPACT, row - 1) + RowIds(arrangement, COMPACT, row, cols))
    && ListIs(m, REGULAR, PlannedIds(arrangement, REGULAR, row - 1) + RowIds(arrangement, REGULAR, row, cols))
  }

  /** Each list holds distinct spots of the type its key names, with ids of
      the form "R{row}-{col}". */
  ghost predicate ListsWellFormed(m: map<string, seq<LegacySpot>>)
  {
    && KindedLists(m)
    && (forall key :: key in m ==> Distinct(m[key]))
    && (forall key, k :: key in m && 0 <= k < |m[key]| ==> BuiltId(m[key][k].spotId))
  }

  lemma BuiltNextRow(m: map<string, seq<LegacySpot>>, arrangement: seq<SpotType>, row: nat)
    requires row >= 1 && Built(m, arrangement, row, |arrangement|)
    ensures Built(m, arrangement, row + 1, 0)
  {
  }

  /** Appending the spot of column `col` + 1 to its type's list extends
      that list's ids, after the earlier rows' ids `p`, by the spot's id. */
  lemma NextColumnFor(m: map<string, seq<LegacySpot>>, arrangement: seq<SpotType>, row: nat, col: nat,
                      spot: LegacySpot, t: SpotType, p: seq<string>)
    requires col < |arrangement|
    requires ListIs(m, t, p + RowIds(arrangement, t, row, col))
    requires spot.spotId == FormatSpotId(row, col + 1)
    ensures var key := SpotTypeName(arrangement[col]);
            ListIs(m[key := Lookup(m, key) + [spot]], t, p + RowIds(arrangement, t, row, col + 1))
  {
    var key := SpotTypeName(arrangement[col]);
    var r := RowIds(arrangement, t, row, col);
    if t == arrangement[col] {
      assert RowIds(arrangement, t, row, col + 1) == r + [spot.spotId];
      assert IdsOf(Lookup(m, key) + [spot]) == IdsOf(Lookup(m, key)) + [spot.spotId];
      assert p + (r + [spot.spotId]) == (p + r) + [spot.spotId];
    } else {
      assert SpotTypeName(t) != key;
      assert RowIds(arrangement, t, row, col + 1) == r + [];
      assert r + [] == r;
    }
  }

  /** Every spot held in the map after an append is an old one or the new
      one. */
  lemma SpotsInAppend(m: map<string, seq<LegacySpot>>, key: string, spot: LegacySpot)
    ensures SpotsIn(m[key := Lookup(m, key) + [spot]]) == SpotsIn(m) + {spot}
  {
    var m' := m[key := Lookup(m, key) + [spot]];
    forall x | x in SpotsIn(m') ensures x in SpotsIn(m) + {spot} {
      var u :| u in m' && x in m'[u];
      if u != key {
        assert x in m[u];
      } else if x != spot {
        assert x in Lookup(m, key);
        assert x in m[key];
      }
    }
    forall x | x in SpotsIn(m) + {spot} ensures x in SpotsIn(m') {
      if x == spot {
        assert x in m'[key];
      } else {
        var u :| u in m && x in m[u];
        if u == key {
          assert x in m'[key];
        } else {
          assert x in m'[u];
        }
      }
    }
  }

  /** Appending a new spot of the key's type with a built id keeps the
      lists well formed. */
  lemma ListsAppend(m: map<string, seq<LegacySpot>>, key: string, spot: LegacySpot)
    requires ListsWellFormed(m) && spot !in SpotsIn(m)
    requires KindOfKey(key) == Some(spot.kind) && BuiltId(spot.spotId)
    ensures ListsWellFormed(m[key := Lookup(m, key) + [spot]])
  {
    var l := Lookup(m, key) + [spot];
    var m': map<string, seq<LegacySpot>> := m[key := l];
    if key in m {
      forall k | 0 <= k < |m[key]| ensures m[key][k] in SpotsIn(m) {
        assert m[key][k] in m[key];
      }
    }
    assert spot !in Lookup(m, key);
    DistinctSnoc(Lookup(m, key), spot);
    forall u, k: int | u in m' && 0 <= k < |m'[u]| ensures BuiltId(m'[u][k].spotId) {
      if u == key && k < |l| - 1 {
        assert l[k] == Lookup(m, key)[k];
      }
    }
    assert KindedLists(m') by {
      forall u, s: LegacySpot | u in m' && s in m'[u] ensures KindOfKey(u) == Some(s.kind) {
        if u == key && s != spot {
          assert s in Lookup(m, key);
        }
      }
    }
  }

  /** The map after one step of the inner building loop. */
  lemma ColumnStep(m: map<string, seq<LegacySpot>>, arrangement: seq<SpotType>, row: nat, col: nat,
                    key: string, spot: LegacySpot)
    requires col < |arrangement| && Built(m, arrangement, row, col) && ListsWellFormed(m)
    requires spot !in SpotsIn(m) && key == SpotTypeName(arrangement[col])
    requires spot.spotId == FormatSpotId(row, col + 1) && spot.kind == arrangement[col]
    ensures var m' := m[key := Lookup(m, key) + [spot]];
            Built(m', arrangement, row, col + 1) && ListsWellFormed(m') && SpotsIn(m') == SpotsIn(m) + {spot}
  {
    assert BuiltId(spot.spotId);
    NextColumnFor(m, arrangement, row, col, spot, COMPACT, PlannedIds(arrangement, COMPACT, row - 1));
    NextColumnFor(m, arrangement, row, col, spot, REGULAR, PlannedIds(arrangement, REGULAR, row - 1));
    SpotsInAppend(m, key, spot);
    ListsAppend(m, key, spot);
  }

  /** The map after one step of the inner building loop, for the spot made
      from the stripped token of column `col`. */
  lemma TokenColumn(m: map<string, seq<LegacySpot>>, tokens: seq<string>, row: nat, col: nat,
                    types: seq<SpotType>, key: string, spot: LegacySpot)
    requires row >= 1 && col < |tokens| && types == TypesOf(tokens) && key == Strip(tokens[col])
    requires Built(m, types, row, col) && ListsWellFormed(m)
    requires spot !in SpotsIn(m) && spot.spotId == FormatSpotId(row, col + 1)
    requires KindOfKey(key) == Some(spot.kind)
    ensures var m' := m[key := Lookup(m, key) + [spot]];
            Built(m', types, row, col + 1) && ListsWellFormed(m') && SpotsIn(m') == SpotsIn(m) + {spot}
  {
    TokenKey(tokens, col, types, spot.kind);
    ColumnStep(m, types, row, col, key, spot);
  }

  /** A token whose stripped form is a key names the type of its column,
      and the key is that type's name. */
  lemma TokenKey(tokens: seq<string>, col: nat, types: seq<SpotType>, kind: SpotType)
    requires col < |tokens| && types == TypesOf(tokens)
    requires KindOfKey(Strip(tokens[col])) == Some(kind)
    ensures types[col] == kind && Strip(tokens[col]) == SpotTypeName(kind)
  {
    KindOfStrippedToken(tokens[col]);
  }

  /** A built map with no partial row holds its rows. */
  lemma BuiltHolds(m: map<string, seq<LegacySpot>>, arrangement: seq<SpotType>, row: nat, numOfRows: int)
    requires Built(m, arrangement, row, 0)
    requires row == numOfRows + 1 || (row == 1 && numOfRows <= 0)
    ensures Holds(m, arrangement, numOfRows)
  {
    assert PlannedIds(arrangement, COMPACT, row - 1) + [] == PlannedIds(arrangement, COMPACT, numOfRows);
    assert PlannedIds(arrangement, REGULAR, row - 1) + [] == PlannedIds(arrangement, REGULAR, numOfRows);
  }

  /** A lot laid out for `rows` rows holds rows × columns spots under its
      two keys together. */
  lemma HoldsSize(m: map<string, seq<LegacySpot>>, arrangement: seq<SpotType>, rows: int)
    requires rows >= 0 && Holds(m, arrangement, rows)
    ensures |Lookup(m, CompactKey)| + |Lookup(m, RegularKey)| == rows * |arrangement|
  {
    PlannedIdsTotal(arrangement, rows);
    if CompactKey in m { assert |IdsOf(m[CompactKey])| == |m[CompactKey]|; }
    if RegularKey in m { assert |IdsOf(m[RegularKey])| == |m[RegularKey]|; }
  }

  /** Built ids are read by both extractions of the van search and have a
      part before '-'. */
  lemma BuiltIdsReadable(m: map<string, seq<LegacySpot>>)
    requires ListsWellFormed(m)
    ensures forall k :: 0 <= k < |Lookup(m, RegularKey)| ==>
              ExtractRow(Lookup(m, RegularKey)[k].spotId).Ok? && ExtractSpotNum(Lookup(m, RegularKey)[k].spotId).Ok?
    ensures RowKeysPresent(m)
  {
    forall key, k | key in m && 0 <= k < |m[key]|
      ensures ExtractRow(m[key][k].spotId).Ok? && ExtractSpotNum(m[key][k].spotId).Ok?
      ensures |JavaSplit(m[key][k].spotId, '-')| > 0
    {
      var row: nat, col: nat :| m[key][k].spotId == FormatSpotId(row, col);
      FormatSpotIdParts(row, col);
    }
  }

  /** On the lists this class builds the search does not fail, and what
      it finds is one or two distinct free spots of the lot. */
  lemma SearchFindsFree(vehicleType: VehicleType, m: map<string, seq<LegacySpot>>)
    requires ListsWellFormed(m)
    ensures FindForType(vehicleType, m).Ok?
    ensures var r := FindForType(vehicleType, m).value;
            r.Some? ==> && |r.value| > 0 && Distinct(r.value)
                        && forall k :: 0 <= k < |r.value| ==> r.value[k] in SpotsIn(m) && r.value[k].IsAvailable()
  {
    BuiltIdsReadable(m);
    assert Distinct(Lookup(m, RegularKey));
    FindForTypeTotal(vehicleType, m);
    FindForTypeSound(vehicleType, m);
  }

  // ---------------------------------------------------------------------
  // What the summary reads of the spots
  // ---------------------------------------------------------------------

  /** Every id has a part before '-', so split("-")[0] exists. */
  predicate RowKeysPresent(m: map<string, seq<LegacySpot>>)
  {
    forall key, k :: key in m && 0 <= k < |m[key]| ==> |JavaSplit(m[key][k].spotId, '-')| > 0
  }

  /** The row of a spot's id and its occupant's type, read as the stream
      filters read them: getVehicleType only on a taken spot. */
  function ViewOf(spot: LegacySpot): SpotView
    reads spot
    requires |JavaSplit(spot.spotId, '-')| > 0
  {
    SpotView(LegacyRowKey(spot.spotId), if spot.IsAvailable() then None else Some(spot.GetVehicleType().value))
  }

  function Views(spots: seq<LegacySpot>): (vs: seq<SpotView>)
    reads spots
    requires forall k :: 0 <= k < |spots| ==> |JavaSplit(spots[k].spotId, '-')| > 0
    ensures |vs| == |spots|
    ensures forall k :: 0 <= k < |spots| ==> vs[k] == ViewOf(spots[k])
  {
    if |spots| == 0 then [] else Views(spots[..|spots| - 1]) + [ViewOf(spots[|spots| - 1])]
  }

  // ---------------------------------------------------------------------
  // The administrator
  // ---------------------------------------------------------------------

  class ParkingLotAdmin {
    /** totalSpots: rows times tokens, fixed when the lot is made. */
    const totalSpots: int
    /** parkingSpotTypeMap: the spots under their type name, row by row. */
    const spotsByType: map<string, seq<LegacySpot>>
    /** vehicleSpotsMap: the spots held by each Vehicle object. */
    var vehicleSpots: map<LegacyVehicle, seq<LegacySpot>>
    /** The row count and the types of the template the lot was built from. */
    ghost const rows: int
    ghost const arrangement: seq<SpotType>

    /** Every recorded vehicle holds a non-empty list of distinct spots of
        the lot, each occupied by that very vehicle. */
    ghost predicate AssignmentsHeld()
      reads this, SpotsIn(spotsByType)
    {
      forall v :: v in vehicleSpots ==>
        && |vehicleSpots[v]| > 0 && Distinct(vehicleSpots[v])
        && forall k :: 0 <= k < |vehicleSpots[v]| ==>
             vehicleSpots[v][k] in SpotsIn(spotsByType) && vehicleSpots[v][k].vehicle == v
    }

    /** Every taken spot is recorded under its occupant. */
    ghost predicate OccupantsRecorded()
      reads this, SpotsIn(spotsByType)
    {
      forall s :: s in SpotsIn(spotsByType) && s.vehicle != null ==>
        s.vehicle in vehicleSpots && s in vehicleSpots[s.vehicle]
    }

    /** The layout the lot was built with, which nothing changes. */
    ghost predicate Shaped()
    {
      && Holds(spotsByType, arrangement, rows) && ListsWellFormed(spotsByType)
      && totalSpots == rows * |arrangement|
    }

    ghost predicate Valid()
      reads this, SpotsIn(spotsByType)
    {
      Shaped() && AssignmentsHeld() && OccupantsRecorded()
    }

    /** The end of the Java constructor: the lot takes the spots built, all
        of them free, with no vehicle recorded. */
    constructor (totalSpots: int, spotsByType: map<string, seq<LegacySpot>>, ghost rows: int, ghost arrangement: seq<SpotType>)
      requires Holds(spotsByType, arrangement, rows) && ListsWellFormed(spotsByType)
      requires totalSpots == rows * |arrangement|
      requires forall s :: s in SpotsIn(spotsByType) ==> s.IsAvailable()
      ensures this.totalSpots == totalSpots && this.spotsByType == spotsByType
      ensures this.rows == rows && this.arrangement == arrangement
      ensures vehicleSpots == map[] && Valid()
    {
      this.totalSpots := totalSpots;
      this.spotsByType := spotsByType;
      this.rows := rows;
      this.arrangement := arrangement;
      this.vehicleSpots := map[];
    }

    /** The Java constructor: totalSpots is fixed first; then row by row and
        column by column each stripped token goes to createSpot, so the
        first token that names no type ends the construction with
        IllegalArgumentException, in the first row; with fewer than one row
        nothing is checked and the lot is empty. */
    static method Create(numOfRows: int, rowSequence: string) returns (r: Result<ParkingLotAdmin, ParkingError>)
      ensures r.Err? <==> numOfRows >= 1 && Arrangement(Tokens(rowSequence)).Err?
      ensures r.Err? ==> r.error == IllegalArgument
      ensures r.Ok? ==>
                && fresh(r.value)
                && r.value.totalSpots == numOfRows * |Tokens(rowSequence)|
                && r.value.vehicleSpots == map[] && r.value.Valid()
                && (numOfRows >= 1 ==> Holds(r.value.spotsByType, Arrangement(Tokens(rowSequence)).value, numOfRows))
                && (numOfRows < 1 ==> r.value.spotsByType == map[])
                && (forall s :: s in SpotsIn(r.value.spotsByType) ==> fresh(s) && s.IsAvailable())
    {
      var spotArrangement := Tokens(rowSequence);
      var totalSpots := numOfRows * |spotArrangement|;
      ghost var types := TypesOf(spotArrangement);
      var m: map<string, seq<LegacySpot>> := map[];
      var row := 1;
      while row <= numOfRows
        invariant 1 <= row && (numOfRows >= 1 ==> row <= numOfRows + 1) && (numOfRows < 1 ==> row == 1)
        invariant row > 1 ==> AllNamed(spotArrangement)
        invariant row == 1 ==> m == map[]
        invariant Built(m, types, row, 0) && ListsWellFormed(m)
        invariant forall s :: s in SpotsIn(m) ==> fresh(s) && s.IsAvailable()
      {
        var next := BuildRow(m, spotArrangement, row, types);
        if next.Err? {
          return Err(next.error);
        }
        m := next.value;
        row := row + 1;
      }
      BuiltHolds(m, types, row, numOfRows);
      if numOfRows >= 1 {
        ArrangementIsTypesOf(spotArrangement);
      }
      var admin := new ParkingLotAdmin(totalSpots, m, numOfRows, types);
      return Ok(admin);
    }

    /** One pass of the outer building loop: the spots of row `row`. */
    static method BuildRow(m: map<string, seq<LegacySpot>>, tokens: seq<string>, row: nat, ghost types: seq<SpotType>)
      returns (r: Result<map<string, seq<LegacySpot>>, ParkingError>)
      requires row >= 1 && types == TypesOf(tokens)
      requires Built(m, types, row, 0) && ListsWellFormed(m)
      requires row > 1 ==> AllNamed(tokens)
      ensures r.Err? ==> r.error == IllegalArgument && Arrangement(tokens).Err?
      ensures r.Ok? ==> AllNamed(tokens) && Built(r.value, types, row + 1, 0) && ListsWellFormed(r.value)
      ensures r.Ok? ==> forall s :: s in SpotsIn(r.value) ==> s in SpotsIn(m) || (fresh(s) && s.IsAvailable())
    {
      var current := m;
      var col := 0;
      while col < |tokens|
        invariant 0 <= col <= |tokens|
        invariant forall l :: 0 <= l < col ==> ParseSpotType(tokens[l]).Some?
        invariant Built(current, types, row, col) && ListsWellFormed(current)
        invariant forall s :: s in SpotsIn(current) ==> s in SpotsIn(m) || (fresh(s) && s.IsAvailable())
      {
        var next := AddColumn(current, tokens, row, col, types);
        if next.Err? {
          UnkeyedRejected(tokens, col);
          return Err(next.error);
        }
        NamedStep(tokens, col);
        current := next.value;
        col := col + 1;
      }
      BuiltNextRow(current, types, row);
      return Ok(current);
    }

    /** One pass of the inner building loop: createSpot on the stripped
        token and the id "R{row}-{col + 1}", the spot appended under the
        token as its key. */
    static method AddColumn(m: map<string, seq<LegacySpot>>, tokens: seq<string>, row: nat, col: nat, ghost types: seq<SpotType>)
      returns (r: Result<map<string, seq<LegacySpot>>, ParkingError>)
      requires row >= 1 && col < |tokens| && types == TypesOf(tokens)
      requires Built(m, types, row, col) && ListsWellFormed(m)
      ensures r.Err? <==> KindOfKey(Strip(tokens[col])).None?
      ensures r.Err? ==> r.error == IllegalArgument
      ensures r.Ok? ==> Built(r.value, types, row, col + 1) && ListsWellFormed(r.value)
      ensures r.Ok? ==> forall s :: s in SpotsIn(r.value) ==> s in SpotsIn(m) || (fresh(s) && s.IsAvailable())
    {
      var spotType := Strip(tokens[col]);
      var spotId := FormatSpotId(row, col + 1);
      assert forall s :: s in SpotsIn(m) ==> allocated(s);
      var spot := CreateSpot(Some(spotType), Some(spotId));
      if spot.Err? {
        return Err(spot.error);
      }
      TokenColumn(m, tokens, row, col, types, spotType, spot.value);
      return Ok(m[spotType := Lookup(m, spotType) + [spot.value]]);
    }

    /** parkVehicle. A new Vehicle object is made for the identifier, so the
        "already parked" lookup, which compares keys by identity, never
        finds it. The search's spots are each given the vehicle and recorded
        under it; finding none is null and nothing changes. The search
        cannot fail on the ids this class builds, and a found spot cannot be
        taken, so no exception arises. */
    method ParkVehicle(identifier: string, vehicleType: VehicleType) returns (r: Option<seq<LegacySpot>>, ghost vehicle: LegacyVehicle)
      requires Valid()
      modifies this, SpotsIn(spotsByType)
      ensures Valid()
      ensures fresh(vehicle) && vehicle.identifier == identifier && vehicle.vehicleType == vehicleType
      ensures var found := old(FindForType(vehicleType, spotsByType));
              && found.Ok? && r == found.value
              && (r.None? ==> vehicleSpots == old(vehicleSpots) && unchanged(SpotsIn(spotsByType)))
              && (r.Some? ==>
                    && vehicleSpots == old(vehicleSpots)[vehicle := r.value]
                    && (forall k :: 0 <= k < |r.value| ==> r.value[k].vehicle == vehicle)
                    && unchanged(SpotsIn(spotsByType) - Members(r.value)))
    {
      // findParkingSpot on the vehicle about to be made is the search for
      // its type, which reads only the spots
      SearchFindsFree(vehicleType, spotsByType);
      var parkingSpots := FindForType(vehicleType, spotsByType).value;
      var v := new LegacyVehicle(identifier, vehicleType);
      vehicle := v;
      // parkVehicle's containsKey check on the new vehicle compares keys by
      // identity, and no key is the vehicle just made: it is always false
      Record(v, parkingSpots);
      return parkingSpots, v;
    }

    /** The end of parkVehicle on the search's result: nothing found changes
        nothing; found spots are occupied and recorded. */
    method Record(v: LegacyVehicle, found: Option<seq<LegacySpot>>)
      requires Valid() && v !in vehicleSpots
      requires found.Some? ==>
                 && |found.value| > 0 && Distinct(found.value)
                 && forall l :: 0 <= l < |found.value| ==> found.value[l] in SpotsIn(spotsByType) && found.value[l].IsAvailable()
      modifies this, SpotsIn(spotsByType)
      ensures Valid()
      ensures found.None? ==> vehicleSpots == old(vehicleSpots) && unchanged(SpotsIn(spotsByType))
      ensures found.Some? ==>
                && vehicleSpots == old(vehicleSpots)[v := found.value]
                && (forall k :: 0 <= k < |found.value| ==> found.value[k].vehicle == v)
                && unchanged(SpotsIn(spotsByType) - Members(found.value))
    {
      if found.Some? {
        Occupy(v, found.value);
      }
    }

    /** The end of parkVehicle: each found spot is given the vehicle, then
        the spots are recorded under it. */
    method Occupy(v: LegacyVehicle, spots: seq<LegacySpot>)
      requires Valid() && v !in vehicleSpots
      requires |spots| > 0 && Distinct(spots)
      requires forall l :: 0 <= l < |spots| ==> spots[l] in SpotsIn(spotsByType) && spots[l].IsAvailable()
      modifies this, Members(spots)
      ensures Valid()
      ensures vehicleSpots == old(vehicleSpots)[v := spots]
      ensures forall l :: 0 <= l < |spots| ==> spots[l].vehicle == v
    {
      ParkAll(spots, v);
      vehicleSpots := vehicleSpots[v := spots];
      forall w | w in vehicleSpots && w != v
        ensures forall k :: 0 <= k < |vehicleSpots[w]| ==> vehicleSpots[w][k] !in spots
      {
        forall k | 0 <= k < |vehicleSpots[w]| ensures vehicleSpots[w][k] !in spots {
          assert old(vehicleSpots[w][k].vehicle) == w;
        }
      }
    }

    /** The vehicles recorded under an identifier. */
    function ParkedAs(identifier: string): set<LegacyVehicle>
      reads this
    {
      set v | v in vehicleSpots && v.identifier == identifier
    }

    /** removeVehicle. The recorded vehicles with the identifier are looked
        up: more than one is a RuntimeException, none changes nothing, and
        exactly one is dropped with each of its spots freed. */
    method RemoveVehicle(identifier: string) returns (r: Outcome<ParkingError>)
      requires Valid()
      modifies this, SpotsIn(spotsByType)
      ensures Valid()
      ensures |old(ParkedAs(identifier))| > 1 ==>
                r == Fail(Runtime) && vehicleSpots == old(vehicleSpots) && unchanged(SpotsIn(spotsByType))
      ensures |old(ParkedAs(identifier))| == 0 ==>
                r == Pass && vehicleSpots == old(vehicleSpots) && unchanged(SpotsIn(spotsByType))
      ensures |old(ParkedAs(identifier))| == 1 ==> r == Pass
      ensures forall v :: |old(ParkedAs(identifier))| == 1 && v in old(ParkedAs(identifier)) ==>
                && vehicleSpots == old(vehicleSpots) - {v}
                && (forall k :: 0 <= k < |old(vehicleSpots)[v]| ==> old(vehicleSpots)[v][k].IsAvailable())
                && unchanged(SpotsIn(spotsByType) - Members(old(vehicleSpots)[v]))
    {
      var parkedVehicles := set v | v in vehicleSpots && v.identifier == identifier;
      if |parkedVehicles| > 1 {
        return Fail(Runtime);
      }
      if |parkedVehicles| == 0 {
        return Pass;
      }
      var parkedVehicle :| parkedVehicle in parkedVehicles;
      assert parkedVehicles == {parkedVehicle} by {
        assert |parkedVehicles - {parkedVehicle}| == 0;
      }
      Release(parkedVehicle);
      return Pass;
    }

    /** The end of removeVehicle: the vehicle's record is dropped and each
        of its spots freed. */
    method Release(v: LegacyVehicle)
      requires Valid() && v in vehicleSpots
      modifies this, SpotsIn(spotsByType)
      ensures Valid()
      ensures vehicleSpots == old(vehicleSpots) - {v}
      ensures forall k :: 0 <= k < |old(vehicleSpots)[v]| ==> old(vehicleSpots)[v][k].IsAvailable()
      ensures unchanged(SpotsIn(spotsByType) - Members(old(vehicleSpots)[v]))
    {
      var usedSpots := vehicleSpots[v];
      vehicleSpots := vehicleSpots - {v};
      VacateAll(usedSpots);
      forall w | w in vehicleSpots
        ensures forall k :: 0 <= k < |vehicleSpots[w]| ==> vehicleSpots[w][k] !in usedSpots
      {
        forall k | 0 <= k < |vehicleSpots[w]| ensures vehicleSpots[w][k] !in usedSpots {
          assert old(vehicleSpots[w][k].vehicle) == w;
        }
      }
    }

    /** Every spot of the lot as the summary streams see it: the COMPACT
        list, then the REGULAR list. */
    function AllViews(): seq<SpotView>
      reads this, SpotsIn(spotsByType)
      requires RowKeysPresent(spotsByType)
    {
      assert forall s :: s in Lookup(spotsByType, CompactKey) ==> s in SpotsIn(spotsByType);
      assert forall s :: s in Lookup(spotsByType, RegularKey) ==> s in SpotsIn(spotsByType);
      Views(Lookup(spotsByType, CompactKey)) + Views(Lookup(spotsByType, RegularKey))
    }

    /** The per-type statuses: size, free and taken spots of each list. */
    function TypeStatusMap(): map<string, SpotTypeStatus>
      reads this, SpotsIn(spotsByType)
      requires RowKeysPresent(spotsByType)
    {
      map key | key in spotsByType ::
        assert forall s :: s in spotsByType[key] ==> s in SpotsIn(spotsByType);
        TypeStatusOf(Views(spotsByType[key]))
    }

    /** getLotSummary: the configured total, the free spots counted, taken
        as the total less the free ones, the flags from those two, the
        vans among the taken spots, and the spots grouped by the part of
        their id before '-'. */
    function GetLotSummary(): (s: LegacySummary)
      reads this, SpotsIn(spotsByType)
      requires RowKeysPresent(spotsByType)
      ensures s.totalSpots == totalSpots && s.availableSpots == CountFree(AllViews())
      ensures s.occupiedSpots == totalSpots - CountFree(AllViews())
      ensures (s.isFull <==> s.availableSpots == 0) && (s.isEmpty <==> s.occupiedSpots == 0)
      ensures s.vanCount == CountVans(AllViews())
      ensures forall key :: key in s.byType <==> key in spotsByType
      ensures forall row :: row in s.byRow <==> exists k :: 0 <= k < |AllViews()| && AllViews()[k].row == row
      ensures forall row :: row in s.byRow ==>
                && s.byRow[row].total == CountInRow(AllViews(), row)
                && s.byRow[row].available == CountFreeInRow(AllViews(), row)
                && s.byRow[row].occupied == CountInRow(AllViews(), row) - CountFreeInRow(AllViews(), row)
    {
      var vs := AllViews();
      TallyViewsCounts(vs);
      var available := CountFree(vs);
      var occupied := totalSpots - available;
      LegacySummary(totalSpots, available, occupied, TypeStatusMap(), available == 0, occupied == 0,
                    CountVans(vs), TallyViews(NoTally, vs).byRow)
    }

    /** For a lot of zero or more rows the configured total is the number
        of spots, so the summary's taken count is the number of taken spots,
        and free and taken add up to the total overall, per type and per
        row. */
    lemma SummaryConsistent()
      requires Valid() && rows >= 0
      ensures RowKeysPresent(spotsByType)
      ensures var s := GetLotSummary();
              && s.totalSpots == |AllViews()|
              && s.occupiedSpots == CountTaken(AllViews()) && s.occupiedSpots >= 0
              && s.availableSpots + s.occupiedSpots == s.totalSpots
              && (forall key :: key in s.byType ==>
                    s.byType[key].available + s.byType[key].occupied == s.byType[key].total
                    && s.byType[key].total == |spotsByType[key]|)
              && (forall row :: row in s.byRow ==>
                    s.byRow[row].available + s.byRow[row].occupied == s.byRow[row].total)
    {
      BuiltIdsReadable(spotsByType);
      HoldsSize(spotsByType, arrangement, rows);
      FreePlusTaken(AllViews());
    }
  }

  /** The forEach of parkVehicle: each spot of the list, all free and
      distinct, takes the vehicle. */
  method ParkAll(spots: seq<LegacySpot>, v: LegacyVehicle)
    requires Distinct(spots) && forall l :: 0 <= l < |spots| ==> spots[l].IsAvailable()
    modifies Members(spots)
    ensures forall l :: 0 <= l < |spots| ==> spots[l].vehicle == v
  {
    var k := 0;
    while k < |spots|
      invariant 0 <= k <= |spots|
      invariant forall l :: 0 <= l < k ==> spots[l].vehicle == v
      invariant forall l :: k <= l < |spots| ==> spots[l].IsAvailable()
    {
      assert spots[k] in Members(spots);
      var outcome := spots[k].ParkVehicle(v);
      assert outcome == Pass;
      k := k + 1;
    }
  }

  /** The forEach of removeVehicle: each spot of the list is freed. */
  method VacateAll(spots: seq<LegacySpot>)
    modifies Members(spots)
    ensures forall l :: 0 <= l < |spots| ==> spots[l].IsAvailable()
  {
    var k := 0;
    while k < |spots|
      invariant 0 <= k <= |spots|
      invariant forall l :: 0 <= l < k ==> spots[l].IsAvailable()
    {
      assert spots[k] in Members(spots);
      spots[k].RemoveVehicle();
      k := k + 1;
    }
  }
}
