/** RegularCompactAllocationStrategy: picks spots for a vehicle from the
    spots grouped by type, without changing any of them. A car takes the
    first available REGULAR spot, a motorcycle the first available COMPACT
    spot and otherwise the first available REGULAR one, and any other
    vehicle (a van) two available REGULAR spots that are neighbours in the
    same row with consecutive column numbers. */
module AllocationStrategy {
  import opened ParkingTypes
  import opened SpotIds
  import opened RowAdjacency
  import opened Spot

  /** Every spot held in the map, whatever its list. */
  function SpotsOf(m: map<SpotType, seq<ParkingSpot>>): set<ParkingSpot>
  {
    set t, s | t in m && s in m[t] :: s
  }

  /** Every spot of every list is a spot of the map. */
  lemma SpotsOfHolds(m: map<SpotType, seq<ParkingSpot>>, t: SpotType)
    requires t in m
    ensures forall k :: 0 <= k < |m[t]| ==> m[t][k] in SpotsOf(m)
  {
    forall k | 0 <= k < |m[t]| ensures m[t][k] in SpotsOf(m) {
      assert m[t][k] in m[t];
    }
  }

  /** A spot of the map lies in one of its lists. */
  lemma SpotsOfFind(m: map<SpotType, seq<ParkingSpot>>, s: ParkingSpot) returns (t: SpotType, k: nat)
    requires s in SpotsOf(m)
    ensures t in m && k < |m[t]| && m[t][k] == s
  {
    t :| t in m && s in m[t];
    k :| 0 <= k < |m[t]| && m[t][k] == s;
  }

  /** Appending a spot to a list adds exactly that spot to the map's spots. */
  lemma SpotsOfAppend(m: map<SpotType, seq<ParkingSpot>>, t: SpotType, spot: ParkingSpot)
    ensures SpotsOf(m[t := Lookup(m, t) + [spot]]) == SpotsOf(m) + {spot}
  {
    var m' := m[t := Lookup(m, t) + [spot]];
    forall x | x in SpotsOf(m') ensures x in SpotsOf(m) + {spot} {
      var u :| u in m' && x in m'[u];
      if u != t {
        assert x in m[u];
      } else if x != spot {
        assert x in Lookup(m, t);
        assert x in m[t];
      }
    }
    forall x | x in SpotsOf(m) + {spot} ensures x in SpotsOf(m') {
      if x == spot {
        assert x in m'[t];
      } else {
        var u :| u in m && x in m[u];
        if u == t {
          assert x in m'[t];
        } else {
          assert x in m'[u];
        }
      }
    }
  }

  // ---------------------------------------------------------------------
  // Reference definitions
  // ---------------------------------------------------------------------

  /** No spot of the list is available. */
  predicate NoneAvailable(spots: seq<ParkingSpot>)
    reads spots
  {
    forall k :: 0 <= k < |spots| ==> !spots[k].IsAvailable()
  }

  /** Position `k` holds the first available spot of the list. */
  predicate FirstAvailableAt(spots: seq<ParkingSpot>, k: int)
    reads spots
  {
    0 <= k < |spots| && spots[k].IsAvailable() && forall k' :: 0 <= k' < k ==> !spots[k'].IsAvailable()
  }

  // ---------------------------------------------------------------------
  // The stream pipelines
  // ---------------------------------------------------------------------

  /** stream().filter(ParkingSpot::isAvailable): the available spots, in
      list order. */
  function Available(spots: seq<ParkingSpot>): (r: seq<ParkingSpot>)
    reads spots
    ensures |r| <= |spots|
    ensures forall k :: 0 <= k < |r| ==> r[k] in spots && r[k].IsAvailable()
    ensures forall k :: 0 <= k < |spots| && spots[k].IsAvailable() ==> spots[k] in r
    ensures |r| > 0 ==> exists k :: FirstAvailableAt(spots, k) && r[0] == spots[k]
    ensures |r| == 0 <==> NoneAvailable(spots)
  {
    if spots == [] then []
    else
      var rest := Available(spots[1..]);
      if spots[0].IsAvailable() then
        assert FirstAvailableAt(spots, 0);
        [spots[0]] + rest
      else
        assert |rest| > 0 ==> exists k :: FirstAvailableAt(spots, k) && rest[0] == spots[k] by {
          if |rest| > 0 {
            var k :| FirstAvailableAt(spots[1..], k) && rest[0] == spots[1..][k];
            assert FirstAvailableAt(spots, k + 1);
          }
        }
        rest
  }

  /** Filtering a list without repeats gives one without repeats. */
  lemma {:induction false} AvailableDistinct(spots: seq<ParkingSpot>)
    requires Distinct(spots)
    ensures Distinct(Available(spots))
  {
    if spots != [] {
      var tail := spots[1..];
      assert Distinct(tail) by {
        forall i, j | 0 <= i < j < |tail| ensures tail[i] != tail[j] {
          assert tail[i] == spots[i + 1] && tail[j] == spots[j + 1];
        }
      }
      AvailableDistinct(tail);
      assert spots[0] !in tail by {
        forall k | 0 <= k < |tail| ensures tail[k] != spots[0] {
          assert tail[k] == spots[k + 1];
        }
      }
    }
  }

  /** findSingleAvailableSpot: a singleton list of the first available spot
      of the given type, or nothing; a type missing from the map counts as an
      empty list. */
  function FindSingleAvailableSpot(t: SpotType, m: map<SpotType, seq<ParkingSpot>>): Option<seq<ParkingSpot>>
    reads Lookup(m, t)
  {
    var avail := Available(Lookup(m, t));
    if |avail| == 0 then None else Some([avail[0]])
  }

  /** The first available spot of type `t`, or nothing when there is none. */
  lemma FindSingleAvailableSpotSpec(t: SpotType, m: map<SpotType, seq<ParkingSpot>>)
    ensures var r := FindSingleAvailableSpot(t, m);
            && (r.None? <==> NoneAvailable(Lookup(m, t)))
            && (r.Some? ==> exists k :: FirstAvailableAt(Lookup(m, t), k) && r.value == [Lookup(m, t)[k]])
  {
  }

  /** What extractRowFromSpotId and extractSpotNum make of each spot's id. */
  function KeysOf(spots: seq<ParkingSpot>): (keys: seq<SpotKey>)
    ensures |keys| == |spots|
    ensures forall k :: 0 <= k < |spots| ==>
              keys[k] == SpotKey(ExtractRow(spots[k].spotId), ExtractSpotNum(spots[k].spotId))
  {
    if spots == [] then []
    else [SpotKey(ExtractRow(spots[0].spotId), ExtractSpotNum(spots[0].spotId))] + KeysOf(spots[1..])
  }

  /** findTwoAdjacentSpots. An id that does not split into two parts is a
      ParkingUnavailableException caused by InvalidParkingSpotIdException;
      a column text parseInt rejects is a NumberFormatException; finding
      no pair gives the empty list. */
  function FindTwoAdjacentSpots(m: map<SpotType, seq<ParkingSpot>>): Result<seq<ParkingSpot>, ParkingError>
    reads Lookup(m, REGULAR)
  {
    var avail := Available(Lookup(m, REGULAR));
    var keys := KeysOf(avail);
    match FindAdjacentPair(keys)
    case Err(MalformedSpotId(id)) => Err(ParkingUnavailable(InvalidSpotId(id)))
    case Err(BadColumnNumber(text)) => Err(NumberFormat(text))
    case Ok(None) => Ok([])
    case Ok(Some((i, j))) =>
      FindAdjacentPairFound(keys);
      Ok([avail[i], avail[j]])
  }

  /** orElse(Collections.emptyList()) */
  function OrEmpty(o: Option<seq<ParkingSpot>>): seq<ParkingSpot>
  {
    if o.Some? then o.value else []
  }

  /** The footprint of the strategy: the two lists it searches. */
  function Searched(m: Option<map<SpotType, seq<ParkingSpot>>>): set<ParkingSpot>
  {
    if m.None? then {}
    else (set s | s in Lookup(m.value, REGULAR)) + (set s | s in Lookup(m.value, COMPACT))
  }

  /** The strategy only looks at spots of the map. */
  lemma SearchedInSpots(m: map<SpotType, seq<ParkingSpot>>)
    ensures Searched(Some(m)) <= SpotsOf(m)
  {
    if REGULAR in m { SpotsOfHolds(m, REGULAR); }
    if COMPACT in m { SpotsOfHolds(m, COMPACT); }
  }

  /** findParkingSpot. A null vehicle or a null map is rejected first, in
      that order; a type other than CAR and MOTORCYCLE is served as a van. */
  function FindParkingSpot(vehicle: Option<Vehicle>, m: Option<map<SpotType, seq<ParkingSpot>>>): Result<seq<ParkingSpot>, ParkingError>
    reads Searched(m)
  {
    if vehicle.None? then Err(ParkingUnavailable(NullVehicle))
    else if m.None? then Err(ParkingUnavailable(NullSpotMap))
    else if vehicle.value.vehicleType == CAR then
      Ok(OrEmpty(FindSingleAvailableSpot(REGULAR, m.value)))
    else if vehicle.value.vehicleType == MOTORCYCLE then
      var compact := FindSingleAvailableSpot(COMPACT, m.value);
      Ok(if compact.Some? then compact.value else OrEmpty(FindSingleAvailableSpot(REGULAR, m.value)))
    else
      FindTwoAdjacentSpots(m.value)
  }

  // ---------------------------------------------------------------------
  // What the strategy promises
  // ---------------------------------------------------------------------

  /** Null arguments are rejected before anything is searched. */
  lemma FindParkingSpotNulls(vehicle: Option<Vehicle>, m: Option<map<SpotType, seq<ParkingSpot>>>)
    ensures vehicle.None? ==> FindParkingSpot(vehicle, m) == Err(ParkingUnavailable(NullVehicle))
    ensures vehicle.Some? && m.None? ==> FindParkingSpot(vehicle, m) == Err(ParkingUnavailable(NullSpotMap))
    ensures vehicle.Some? && m.Some? && FindParkingSpot(vehicle, m).Err? ==>
              vehicle.value.vehicleType !in {CAR, MOTORCYCLE}
  {
  }

  /** A car gets the first available REGULAR spot, or the empty list when
      every REGULAR spot is taken. */
  lemma CarSpec(v: Vehicle, m: map<SpotType, seq<ParkingSpot>>)
    requires v.vehicleType == CAR
    ensures var r := FindParkingSpot(Some(v), Some(m));
            var regular := Lookup(m, REGULAR);
            && r.Ok?
            && (r.value == [] <==> NoneAvailable(regular))
            && (r.value != [] ==> exists k :: FirstAvailableAt(regular, k) && r.value == [regular[k]])
  {
    FindSingleAvailableSpotSpec(REGULAR, m);
  }

  /** A motorcycle gets the first available COMPACT spot; only when there is
      none, the first available REGULAR spot; and otherwise the empty list. */
  lemma MotorcycleSpec(v: Vehicle, m: map<SpotType, seq<ParkingSpot>>)
    requires v.vehicleType == MOTORCYCLE
    ensures var r := FindParkingSpot(Some(v), Some(m));
            var compact := Lookup(m, COMPACT);
            var regular := Lookup(m, REGULAR);
            && r.Ok?
            && (!NoneAvailable(compact) ==>
                  exists k :: FirstAvailableAt(compact, k) && r.value == [compact[k]])
            && (NoneAvailable(compact) && !NoneAvailable(regular) ==>
                  exists k :: FirstAvailableAt(regular, k) && r.value == [regular[k]])
            && (r.value == [] <==> NoneAvailable(compact) && NoneAvailable(regular))
  {
    FindSingleAvailableSpotSpec(COMPACT, m);
    FindSingleAvailableSpotSpec(REGULAR, m);
  }

  /** How findTwoAdjacentSpots turns the answer of the row search into a
      result: errors keep their cause, no pair is the empty list, and a pair
      of positions is the list of the two spots at those positions. */
  lemma FindTwoAdjacentSpotsCases(m: map<SpotType, seq<ParkingSpot>>)
    ensures var avail := Available(Lookup(m, REGULAR));
            var found := FindAdjacentPair(KeysOf(avail));
            var r := FindTwoAdjacentSpots(m);
            && (found.Err? <==> r.Err?)
            && (found == Ok(None) <==> r == Ok([]))
            && (found.Ok? && found.value.Some? ==>
                  found.value.value.0 < found.value.value.1 < |avail|
                  && r == Ok([avail[found.value.value.0], avail[found.value.value.1]]))
  {
    var avail := Available(Lookup(m, REGULAR));
    var found := FindAdjacentPair(KeysOf(avail));
    if found.Ok? && found.value.Some? {
      FindAdjacentPairFound(KeysOf(avail));
    }
  }

  /** A van gets the first pair of row neighbours with consecutive columns
      among the available REGULAR spots. */
  lemma VanFound(v: Vehicle, m: map<SpotType, seq<ParkingSpot>>)
    requires v.vehicleType == VAN
    ensures var r := FindParkingSpot(Some(v), Some(m));
            var avail := Available(Lookup(m, REGULAR));
            r.Ok? && r.value != [] ==>
              exists i: nat, j: nat :: i < j < |avail| && FirstAdjacent(KeysOf(avail), i, j)
                                      && r.value == [avail[i], avail[j]]
  {
    var avail := Available(Lookup(m, REGULAR));
    var keys := KeysOf(avail);
    var r := FindParkingSpot(Some(v), Some(m));
    assert r == FindTwoAdjacentSpots(m);
    FindTwoAdjacentSpotsCases(m);
    if r.Ok? && r.value != [] {
      FindAdjacentPairFound(keys);
      var (i, j) := FindAdjacentPair(keys).value.value;
      assert FirstAdjacent(keys, i, j) && i < j < |avail| && r.value == [avail[i], avail[j]];
    }
  }

  /** A van gets the empty list only when every pair of row neighbours among
      the available REGULAR spots was read and their columns are not
      consecutive. */
  lemma VanNone(v: Vehicle, m: map<SpotType, seq<ParkingSpot>>)
    requires v.vehicleType == VAN
    ensures var r := FindParkingSpot(Some(v), Some(m));
            var keys := KeysOf(Available(Lookup(m, REGULAR)));
            r == Ok([]) ==>
              forall i: nat, j: nat :: RowNeighbours(keys, i, j) ==> ColumnsRead(keys, i, j) && !Consecutive(keys, i, j)
  {
    var keys := KeysOf(Available(Lookup(m, REGULAR)));
    var r := FindParkingSpot(Some(v), Some(m));
    assert r == FindTwoAdjacentSpots(m);
    FindTwoAdjacentSpotsCases(m);
    if r == Ok([]) {
      FindAdjacentPairNone(keys);
    }
  }

  /** The first available REGULAR spot whose id does not split into two
      parts makes the van search fail with that id, before any pair is
      examined. */
  lemma VanBadId(v: Vehicle, m: map<SpotType, seq<ParkingSpot>>)
    requires v.vehicleType == VAN
    ensures var r := FindParkingSpot(Some(v), Some(m));
            var avail := Available(Lookup(m, REGULAR));
            var keys := KeysOf(avail);
            !RowsReadable(keys, |keys|) ==>
              exists k :: 0 <= k < |avail| && RowsReadable(keys, k) && keys[k].row.Err?
                          && r == Err(ParkingUnavailable(InvalidSpotId(avail[k].spotId)))
  {
    var avail := Available(Lookup(m, REGULAR));
    var keys := KeysOf(avail);
    assert FindParkingSpot(Some(v), Some(m)) == FindTwoAdjacentSpots(m);
    FindAdjacentPairRows(keys);
  }

  /** Any other failure of the van search is a column text of an available
      REGULAR spot that parseInt rejects. */
  lemma VanBadColumn(v: Vehicle, m: map<SpotType, seq<ParkingSpot>>)
    requires v.vehicleType == VAN
    ensures var r := FindParkingSpot(Some(v), Some(m));
            var avail := Available(Lookup(m, REGULAR));
            var keys := KeysOf(avail);
            r.Err? && RowsReadable(keys, |keys|) ==>
              exists k :: 0 <= k < |avail| && |JavaSplit(avail[k].spotId, '-')| == 2
                          && r == Err(NumberFormat(JavaSplit(avail[k].spotId, '-')[1]))
  {
    var avail := Available(Lookup(m, REGULAR));
    var keys := KeysOf(avail);
    assert FindParkingSpot(Some(v), Some(m)) == FindTwoAdjacentSpots(m);
    if FindAdjacentPair(keys).Err? && RowsReadable(keys, |keys|) {
      var p := FindAdjacentPairColumnError(keys);
      assert ExtractRow(avail[p].spotId).Ok?;
    }
  }

  /** Every list of the map holds spots of its own type. */
  predicate TypedLists(m: map<SpotType, seq<ParkingSpot>>)
  {
    forall t, s :: t in m && s in m[t] ==> s.spotType == t
  }

  /** Whatever the vehicle, the spots returned are available, distinct when
      the REGULAR list is, and of a type the vehicle may use: REGULAR for a
      car or a van, COMPACT or REGULAR for a motorcycle. */
  lemma FindParkingSpotSound(v: Vehicle, m: map<SpotType, seq<ParkingSpot>>)
    requires TypedLists(m) && Distinct(Lookup(m, REGULAR))
    ensures var r := FindParkingSpot(Some(v), Some(m));
            r.Ok? ==>
              && |r.value| <= 2 && Distinct(r.value)
              && (forall k :: 0 <= k < |r.value| ==> r.value[k].IsAvailable() && r.value[k] in SpotsOf(m))
              && (forall k :: 0 <= k < |r.value| ==>
                    if v.vehicleType == MOTORCYCLE then r.value[k].spotType in {COMPACT, REGULAR}
                    else r.value[k].spotType == REGULAR)
  {
    var r := FindParkingSpot(Some(v), Some(m));
    if v.vehicleType == VAN {
      VanSound(m);
    } else {
      SingleSound(COMPACT, m);
      SingleSound(REGULAR, m);
    }
  }

  lemma SingleSound(t: SpotType, m: map<SpotType, seq<ParkingSpot>>)
    requires TypedLists(m)
    ensures var r := FindSingleAvailableSpot(t, m);
            r.Some? ==> |r.value| == 1 && r.value[0].IsAvailable() && r.value[0] in SpotsOf(m)
                        && r.value[0].spotType == t
  {
    var avail := Available(Lookup(m, t));
    if |avail| > 0 {
      assert avail[0] in Lookup(m, t);
    }
  }

  /** Two different positions of the available REGULAR spots hold two
      different available REGULAR spots of the map. */
  lemma PairSound(m: map<SpotType, seq<ParkingSpot>>, i: nat, j: nat)
    requires TypedLists(m) && Distinct(Lookup(m, REGULAR))
    requires i < j < |Available(Lookup(m, REGULAR))|
    ensures var avail := Available(Lookup(m, REGULAR));
            var r := [avail[i], avail[j]];
            && Distinct(r)
            && forall k :: 0 <= k < |r| ==> r[k].IsAvailable() && r[k] in SpotsOf(m) && r[k].spotType == REGULAR
  {
    var avail := Available(Lookup(m, REGULAR));
    AvailableDistinct(Lookup(m, REGULAR));
    var a, b := avail[i], avail[j];
    assert a in Lookup(m, REGULAR) && b in Lookup(m, REGULAR);
    assert REGULAR in m;
    assert a != b;
    var r := [a, b];
    assert Distinct(r) by {
      forall x, y | 0 <= x < y < |r| ensures r[x] != r[y] {
        assert x == 0 && y == 1;
      }
    }
    forall k | 0 <= k < |r|
      ensures r[k].IsAvailable() && r[k] in SpotsOf(m) && r[k].spotType == REGULAR
    {
      assert r[k] == a || r[k] == b;
    }
  }

  lemma VanSound(m: map<SpotType, seq<ParkingSpot>>)
    requires TypedLists(m) && Distinct(Lookup(m, REGULAR))
    ensures var r := FindTwoAdjacentSpots(m);
            r.Ok? ==>
              && (|r.value| == 0 || |r.value| == 2) && Distinct(r.value)
              && forall k :: 0 <= k < |r.value| ==>
                   r.value[k].IsAvailable() && r.value[k] in SpotsOf(m) && r.value[k].spotType == REGULAR
  {
    var avail := Available(Lookup(m, REGULAR));
    var keys := KeysOf(avail);
    FindTwoAdjacentSpotsCases(m);
    if FindAdjacentPair(keys).Ok? && FindAdjacentPair(keys).value.Some? {
      var (i, j) := FindAdjacentPair(keys).value.value;
      PairSound(m, i, j);
    }
  }

  /** Both extractions read the id. */
  predicate WellFormedId(spotId: string)
  {
    ExtractRow(spotId).Ok? && ExtractSpotNum(spotId).Ok?
  }

  /** When every REGULAR id is well formed, the strategy answers every
      vehicle with a list: neither the InvalidParkingSpotIdException nor the
      NumberFormatException path can be taken. */
  lemma FindParkingSpotTotal(v: Vehicle, m: map<SpotType, seq<ParkingSpot>>)
    requires forall k :: 0 <= k < |Lookup(m, REGULAR)| ==> WellFormedId(Lookup(m, REGULAR)[k].spotId)
    ensures FindParkingSpot(Some(v), Some(m)).Ok?
  {
    if v.vehicleType != CAR && v.vehicleType != MOTORCYCLE {
      var avail := Available(Lookup(m, REGULAR));
      var keys := KeysOf(avail);
      forall k | 0 <= k < |avail| ensures WellFormedId(avail[k].spotId) {
        var l :| 0 <= l < |Lookup(m, REGULAR)| && Lookup(m, REGULAR)[l] == avail[k];
      }
      FindAdjacentPairRows(keys);
      if FindAdjacentPair(keys).Err? {
        var p := FindAdjacentPairColumnError(keys);
      }
    }
  }
}
