/** ParkingLotUtil of the older engine: the static spot search over spots
    grouped by type name, and the spot factory. Where the newer strategy
    answers with an empty list or a ParkingUnavailableException, this one
    answers null (None here) or lets the underlying exception through. */
module LegacyUtil {
  import opened ParkingTypes
  import opened SpotIds
  import opened RowTemplate
  import opened RowAdjacency
  import opened LegacySpots

  /** ParkingLotConstants.REGULAR and ParkingLotConstants.COMPACT: the type
      names that key the spot map. */
  const RegularKey: string := "REGULAR"
  const CompactKey: string := "COMPACT"

  /** The spot type a key of the spot map stands for, if any. */
  function KindOfKey(key: string): (r: Option<SpotType>)
    ensures r == Some(REGULAR) <==> key == RegularKey
    ensures r == Some(COMPACT) <==> key == CompactKey
    ensures r.None? <==> key != RegularKey && key != CompactKey
  {
    if key == RegularKey then Some(REGULAR)
    else if key == CompactKey then Some(COMPACT)
    else None
  }

  /** A stripped template token is a key exactly when the newer engine's
      valueOf reads it as a type, and then the key stands for that type. */
  lemma KindOfStrippedToken(token: string)
    ensures KindOfKey(Strip(token)) == ParseSpotType(token)
    ensures KindOfKey(Strip(token)).Some? ==> Strip(token) == SpotTypeName(KindOfKey(Strip(token)).value)
  {
  }

  /** Every spot held in the map, whatever its list. */
  function SpotsIn(m: map<string, seq<LegacySpot>>): set<LegacySpot>
  {
    set key, s | key in m && s in m[key] :: s
  }

  /** No spot of the list is free. */
  predicate NoneFree(spots: seq<LegacySpot>)
    reads spots
  {
    forall k :: 0 <= k < |spots| ==> !spots[k].IsAvailable()
  }

  /** Position `k` holds the first free spot of the list. */
  predicate FirstFreeAt(spots: seq<LegacySpot>, k: int)
    reads spots
  {
    0 <= k < |spots| && spots[k].IsAvailable() && forall k' :: 0 <= k' < k ==> !spots[k'].IsAvailable()
  }

  /** stream().filter(ParkingSpot::isAvailable): the free spots, in list
      order. */
  function FreeSpots(spots: seq<LegacySpot>): (r: seq<LegacySpot>)
    reads spots
    ensures |r| <= |spots|
    ensures forall k :: 0 <= k < |r| ==> r[k] in spots && r[k].IsAvailable()
    ensures forall k :: 0 <= k < |spots| && spots[k].IsAvailable() ==> spots[k] in r
    ensures |r| > 0 ==> exists k :: FirstFreeAt(spots, k) && r[0] == spots[k]
    ensures |r| == 0 <==> NoneFree(spots)
  {
    if spots == [] then []
    else
      var rest := FreeSpots(spots[1..]);
      if spots[0].IsAvailable() then
        assert FirstFreeAt(spots, 0);
        [spots[0]] + rest
      else
        assert |rest| > 0 ==> exists k :: FirstFreeAt(spots, k) && rest[0] == spots[k] by {
          if |rest| > 0 {
            var k :| FirstFreeAt(spots[1..], k) && rest[0] == spots[1..][k];
            assert FirstFreeAt(spots, k + 1);
          }
        }
        rest
  }

  /** Filtering a list without repeats gives one without repeats. */
  lemma {:induction false} FreeSpotsDistinct(spots: seq<LegacySpot>)
    requires Distinct(spots)
    ensures Distinct(FreeSpots(spots))
  {
    if spots != [] {
      var tail := spots[1..];
      assert Distinct(tail) by {
        forall i, j | 0 <= i < j < |tail| ensures tail[i] != tail[j] {
          assert tail[i] == spots[i + 1] && tail[j] == spots[j + 1];
        }
      }
      FreeSpotsDistinct(tail);
      assert spots[0] !in tail by {
        forall k | 0 <= k < |tail| ensures tail[k] != spots[0] {
          assert tail[k] == spots[k + 1];
        }
      }
    }
  }

  /** findSingleAvailableSpot: a singleton list of the first free spot under
      the key, or null; a missing key counts as an empty list. */
  function FindSingleAvailableSpot(key: string, m: map<string, seq<LegacySpot>>): (r: Option<seq<LegacySpot>>)
    reads Lookup(m, key)
    ensures r.None? <==> NoneFree(Lookup(m, key))
    ensures r.Some? ==> exists k :: FirstFreeAt(Lookup(m, key), k) && r.value == [Lookup(m, key)[k]]
  {
    var free := FreeSpots(Lookup(m, key));
    if |free| == 0 then None else Some([free[0]])
  }

  /** What extractRowFromSpotId and extractSpotNum make of each spot's id. */
  function KeysOfSpots(spots: seq<LegacySpot>): (keys: seq<SpotKey>)
    ensures |keys| == |spots|
    ensures forall k :: 0 <= k < |spots| ==>
              keys[k] == SpotKey(ExtractRow(spots[k].spotId), ExtractSpotNum(spots[k].spotId))
  {
    if spots == [] then []
    else [SpotKey(ExtractRow(spots[0].spotId), ExtractSpotNum(spots[0].spotId))] + KeysOfSpots(spots[1..])
  }

  /** findTwoAdjacentSpots: an id that does not split into two parts is an
      IllegalArgumentException, a column text parseInt rejects a
      NumberFormatException, and no pair is null. */
  function FindTwoAdjacentSpots(m: map<string, seq<LegacySpot>>): Result<Option<seq<LegacySpot>>, ParkingError>
    reads Lookup(m, RegularKey)
  {
    var free := FreeSpots(Lookup(m, RegularKey));
    var keys := KeysOfSpots(free);
    match FindAdjacentPair(keys)
    case Err(MalformedSpotId(_)) => Err(IllegalArgument)
    case Err(BadColumnNumber(text)) => Err(NumberFormat(text))
    case Ok(None) => Ok(None)
    case Ok(Some((i, j))) =>
      FindAdjacentPairFound(keys);
      Ok(Some([free[i], free[j]]))
  }

  /** The footprint of the search: the two lists it looks at. */
  function Searched(m: Option<map<string, seq<LegacySpot>>>): set<LegacySpot>
  {
    if m.None? then {}
    else (set s | s in Lookup(m.value, RegularKey)) + (set s | s in Lookup(m.value, CompactKey))
  }

  /** findParkingSpot: a null vehicle or map is a NullPointerException; a
      car takes the first free REGULAR spot, a motorcycle the first free
      COMPACT spot and otherwise the first free REGULAR one, anything else a
      pair of row neighbours; finding nothing is null. */
  function FindParkingSpot(vehicle: LegacyVehicle?, m: Option<map<string, seq<LegacySpot>>>): Result<Option<seq<LegacySpot>>, ParkingError>
    reads Searched(m)
  {
    if vehicle == null || m.None? then Err(NullPointer)
    else FindForType(vehicle.vehicleType, m.value)
  }

  /** The search once both arguments are known to be present: it depends
      on the vehicle's type only. */
  function FindForType(vehicleType: VehicleType, m: map<string, seq<LegacySpot>>): Result<Option<seq<LegacySpot>>, ParkingError>
    reads Searched(Some(m))
  {
    if vehicleType == CAR then Ok(FindSingleAvailableSpot(RegularKey, m))
    else if vehicleType == MOTORCYCLE then
      var compact := FindSingleAvailableSpot(CompactKey, m);
      Ok(if compact.Some? then compact else FindSingleAvailableSpot(RegularKey, m))
    else FindTwoAdjacentSpots(m)
  }

  // ---------------------------------------------------------------------
  // What the search promises
  // ---------------------------------------------------------------------

  /** Null arguments are rejected; a car or motorcycle always gets an
      answer. */
  lemma FindParkingSpotNulls(vehicle: LegacyVehicle?, m: Option<map<string, seq<LegacySpot>>>)
    ensures vehicle == null || m.None? ==> FindParkingSpot(vehicle, m) == Err(NullPointer)
    ensures vehicle != null && m.Some? && vehicle.vehicleType in {CAR, MOTORCYCLE} ==> FindParkingSpot(vehicle, m).Ok?
  {
  }

  /** A car gets the first free REGULAR spot, or null when there is none. */
  lemma CarSpec(v: LegacyVehicle, m: map<string, seq<LegacySpot>>)
    requires v.vehicleType == CAR
    ensures var r := FindParkingSpot(v, Some(m));
            var regular := Lookup(m, RegularKey);
            && r.Ok?
            && (r.value.None? <==> NoneFree(regular))
            && (r.value.Some? ==> exists k :: FirstFreeAt(regular, k) && r.value.value == [regular[k]])
  {
  }

  /** A motorcycle gets the first free COMPACT spot, else the first free
      REGULAR spot, else null. */
  lemma MotorcycleSpec(v: LegacyVehicle, m: map<string, seq<LegacySpot>>)
    requires v.vehicleType == MOTORCYCLE
    ensures var r := FindParkingSpot(v, Some(m));
            var compact := Lookup(m, CompactKey);
            var regular := Lookup(m, RegularKey);
            && r.Ok?
            && (!NoneFree(compact) ==> exists k :: FirstFreeAt(compact, k) && r.value == Some([compact[k]]))
            && (NoneFree(compact) && !NoneFree(regular) ==>
                  exists k :: FirstFreeAt(regular, k) && r.value == Some([regular[k]]))
            && (r.value.None? <==> NoneFree(compact) && NoneFree(regular))
  {
  }

  /** How findTwoAdjacentSpots turns the answer of the row search into a
      result: a malformed id is IllegalArgumentException, no pair is null,
      and a pair of positions is the list of the two spots there. */
  lemma FindTwoAdjacentSpotsCases(m: map<string, seq<LegacySpot>>)
    ensures var free := FreeSpots(Lookup(m, RegularKey));
            var found := FindAdjacentPair(KeysOfSpots(free));
            var r := FindTwoAdjacentSpots(m);
            && (found.Err? <==> r.Err?)
            && (found.Err? && found.error.MalformedSpotId? ==> r == Err(IllegalArgument))
            && (found == Ok(None) <==> r == Ok(None))
            && (found.Ok? && found.value.Some? ==>
                  found.value.value.0 < found.value.value.1 < |free|
                  && r == Ok(Some([free[found.value.value.0], free[found.value.value.1]])))
  {
    var free := FreeSpots(Lookup(m, RegularKey));
    var found := FindAdjacentPair(KeysOfSpots(free));
    if found.Ok? && found.value.Some? {
      FindAdjacentPairFound(KeysOfSpots(free));
    }
  }

  /** A van gets the first pair of row neighbours with consecutive columns
      among the free REGULAR spots. */
  lemma VanFound(v: LegacyVehicle, m: map<string, seq<LegacySpot>>)
    requires v.vehicleType == VAN
    ensures var r := FindParkingSpot(v, Some(m));
            var free := FreeSpots(Lookup(m, RegularKey));
            r.Ok? && r.value.Some? ==>
              exists i: nat, j: nat :: i < j < |free| && FirstAdjacent(KeysOfSpots(free), i, j)
                                      && r.value.value == [free[i], free[j]]
  {
    var free := FreeSpots(Lookup(m, RegularKey));
    var keys := KeysOfSpots(free);
    var r := FindParkingSpot(v, Some(m));
    assert r == FindTwoAdjacentSpots(m);
    FindTwoAdjacentSpotsCases(m);
    if r.Ok? && r.value.Some? {
      FindAdjacentPairFound(keys);
      var (i, j) := FindAdjacentPair(keys).value.value;
      assert FirstAdjacent(keys, i, j) && i < j < |free| && r.value.value == [free[i], free[j]];
    }
  }

  /** A van gets null only when every pair of row neighbours among the free
      REGULAR spots was read and their columns are not consecutive. */
  lemma VanNone(v: LegacyVehicle, m: map<string, seq<LegacySpot>>)
    requires v.vehicleType == VAN
    ensures var r := FindParkingSpot(v, Some(m));
            var keys := KeysOfSpots(FreeSpots(Lookup(m, RegularKey)));
            r == Ok(None) ==>
              forall i: nat, j: nat :: RowNeighbours(keys, i, j) ==> ColumnsRead(keys, i, j) && !Consecutive(keys, i, j)
  {
    var keys := KeysOfSpots(FreeSpots(Lookup(m, RegularKey)));
    assert FindParkingSpot(v, Some(m)) == FindTwoAdjacentSpots(m);
    FindTwoAdjacentSpotsCases(m);
    if FindParkingSpot(v, Some(m)) == Ok(None) {
      FindAdjacentPairNone(keys);
    }
  }

  /** A free REGULAR spot whose id does not split into two parts makes the
      van search an IllegalArgumentException, before any pair is examined. */
  lemma VanBadId(v: LegacyVehicle, m: map<string, seq<LegacySpot>>)
    requires v.vehicleType == VAN
    ensures var keys := KeysOfSpots(FreeSpots(Lookup(m, RegularKey)));
            !RowsReadable(keys, |keys|) ==> FindParkingSpot(v, Some(m)) == Err(IllegalArgument)
  {
    var keys := KeysOfSpots(FreeSpots(Lookup(m, RegularKey)));
    assert FindParkingSpot(v, Some(m)) == FindTwoAdjacentSpots(m);
    FindTwoAdjacentSpotsCases(m);
    FindAdjacentPairRows(keys);
  }

  /** Every list holds spots of the type its key names. */
  predicate KindedLists(m: map<string, seq<LegacySpot>>)
  {
    forall key, s :: key in m && s in m[key] ==> KindOfKey(key) == Some(s.kind)
  }

  /** The spots found are free spots of the map, two distinct REGULAR spots
      for a van when the REGULAR list has no repeats, one spot otherwise. */
  lemma FindForTypeSound(vehicleType: VehicleType, m: map<string, seq<LegacySpot>>)
    requires KindedLists(m) && Distinct(Lookup(m, RegularKey))
    ensures var r := FindForType(vehicleType, m);
            r.Ok? && r.value.Some? ==>
              && |r.value.value| == (if vehicleType in {CAR, MOTORCYCLE} then 1 else 2)
              && Distinct(r.value.value)
              && forall k :: 0 <= k < |r.value.value| ==>
                   && r.value.value[k].IsAvailable() && r.value.value[k] in SpotsIn(m)
                   && (if vehicleType == MOTORCYCLE then r.value.value[k].kind in {COMPACT, REGULAR}
                       else r.value.value[k].kind == REGULAR)
  {
    if vehicleType in {CAR, MOTORCYCLE} {
      SingleSound(CompactKey, m);
      SingleSound(RegularKey, m);
    } else {
      VanSound(m);
    }
  }

  lemma VanSound(m: map<string, seq<LegacySpot>>)
    requires KindedLists(m) && Distinct(Lookup(m, RegularKey))
    ensures var r := FindTwoAdjacentSpots(m);
            r.Ok? && r.value.Some? ==>
              && |r.value.value| == 2 && Distinct(r.value.value)
              && forall k :: 0 <= k < 2 ==>
                   r.value.value[k].IsAvailable() && r.value.value[k] in SpotsIn(m) && r.value.value[k].kind == REGULAR
  {
    var keys := KeysOfSpots(FreeSpots(Lookup(m, RegularKey)));
    FindTwoAdjacentSpotsCases(m);
    if FindAdjacentPair(keys).Ok? && FindAdjacentPair(keys).value.Some? {
      var (i, j) := FindAdjacentPair(keys).value.value;
      PairSound(m, i, j);
    }
  }

  /** When every REGULAR id reads as a row and a column, the search answers
      every vehicle type: neither exception of the van search can arise. */
  lemma FindForTypeTotal(vehicleType: VehicleType, m: map<string, seq<LegacySpot>>)
    requires forall k :: 0 <= k < |Lookup(m, RegularKey)| ==>
               ExtractRow(Lookup(m, RegularKey)[k].spotId).Ok? && ExtractSpotNum(Lookup(m, RegularKey)[k].spotId).Ok?
    ensures FindForType(vehicleType, m).Ok?
  {
    if vehicleType != CAR && vehicleType != MOTORCYCLE {
      var free := FreeSpots(Lookup(m, RegularKey));
      var keys := KeysOfSpots(free);
      forall k | 0 <= k < |free|
        ensures ExtractRow(free[k].spotId).Ok? && ExtractSpotNum(free[k].spotId).Ok?
      {
        var l :| 0 <= l < |Lookup(m, RegularKey)| && Lookup(m, RegularKey)[l] == free[k];
      }
      FindAdjacentPairRows(keys);
      FindTwoAdjacentSpotsCases(m);
      if FindAdjacentPair(keys).Err? {
        var p := FindAdjacentPairColumnError(keys);
      }
    }
  }

  lemma SingleSound(key: string, m: map<string, seq<LegacySpot>>)
    requires KindedLists(m)
    ensures var r := FindSingleAvailableSpot(key, m);
            r.Some? ==> |r.value| == 1 && r.value[0].IsAvailable() && r.value[0] in SpotsIn(m)
                        && KindOfKey(key) == Some(r.value[0].kind)
  {
    var free := FreeSpots(Lookup(m, key));
    if |free| > 0 {
      assert free[0] in Lookup(m, key);
      assert key in m;
    }
  }

  lemma PairSound(m: map<string, seq<LegacySpot>>, i: nat, j: nat)
    requires KindedLists(m) && Distinct(Lookup(m, RegularKey))
    requires i < j < |FreeSpots(Lookup(m, RegularKey))|
    ensures var free := FreeSpots(Lookup(m, RegularKey));
            var r := [free[i], free[j]];
            && Distinct(r)
            && forall k :: 0 <= k < |r| ==> r[k].IsAvailable() && r[k] in SpotsIn(m) && r[k].kind == REGULAR
  {
    var free := FreeSpots(Lookup(m, RegularKey));
    FreeSpotsDistinct(Lookup(m, RegularKey));
    RegularListed(m, free[i]);
    RegularListed(m, free[j]);
    assert free[i] != free[j];
    var r := [free[i], free[j]];
    assert Distinct(r) by {
      forall a, b | 0 <= a < b < |r| ensures r[a] != r[b] {
        assert a == 0 && b == 1;
      }
    }
    assert free[i].IsAvailable() && free[j].IsAvailable();
    forall k | 0 <= k < |r| ensures r[k].IsAvailable() && r[k] in SpotsIn(m) && r[k].kind == REGULAR {
      assert r[k] == free[i] || r[k] == free[j];
    }
  }

  /** A spot of the REGULAR list is a REGULAR spot of the lot. */
  lemma RegularListed(m: map<string, seq<LegacySpot>>, s: LegacySpot)
    requires KindedLists(m) && s in Lookup(m, RegularKey)
    ensures s in SpotsIn(m) && s.kind == REGULAR
  {
    assert RegularKey in m;
    assert KindOfKey(RegularKey) == Some(s.kind);
  }

  /** createSpot: null arguments are a NullPointerException, the two type
      names give a free spot of that type with the given id, and any other
      name is an IllegalArgumentException. */
  method CreateSpot(spotType: Option<string>, spotId: Option<string>) returns (r: Result<LegacySpot, ParkingError>)
    ensures spotType.None? || spotId.None? ==> r == Err(NullPointer)
    ensures spotType.Some? && spotId.Some? && KindOfKey(spotType.value).None? ==> r == Err(IllegalArgument)
    ensures spotType.Some? && spotId.Some? && KindOfKey(spotType.value).Some? ==>
              && r.Ok? && fresh(r.value)
              && r.value.spotId == spotId.value && r.value.kind == KindOfKey(spotType.value).value
              && r.value.IsAvailable()
  {
    if spotType.None? || spotId.None? {
      return Err(NullPointer);
    }
    if spotType.value == RegularKey {
      var spot := new LegacySpot(spotId.value, REGULAR);
      return Ok(spot);
    } else if spotType.value == CompactKey {
      var spot := new LegacySpot(spotId.value, COMPACT);
      return Ok(spot);
    }
    return Err(IllegalArgument);
  }
}
