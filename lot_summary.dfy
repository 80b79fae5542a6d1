/** parking.domain.ParkingLotSummary and its nested SpotTypeStatus and
    RowStatus: immutable snapshots whose constructors only reject negative
    counts (and null maps) and otherwise store their arguments as given. */
module LotSummary {
  import opened ParkingTypes

  /** SpotTypeStatus: the counts for one spot type. */
  datatype SpotTypeStatus = SpotTypeStatus(total: int, available: int, occupied: int)

  /** RowStatus: the counts for one row. */
  datatype RowStatus = RowStatus(total: int, available: int, occupied: int)

  /** The snapshot; the maps are values, so the defensive copies of the
      constructor are implicit. */
  datatype ParkingLotSummary = ParkingLotSummary(
    totalSpots: int,
    availableSpots: int,
    occupiedSpots: int,
    byType: map<SpotType, SpotTypeStatus>,
    isFull: bool,
    isEmpty: bool,
    vanCount: int,
    byRow: map<string, RowStatus>)

  /** The SpotTypeStatus constructor: any negative count is an
      IllegalArgumentException, otherwise the counts are kept as given,
      without checking them against each other. */
  function NewSpotTypeStatus(total: int, available: int, occupied: int): (r: Result<SpotTypeStatus, ParkingError>)
    ensures r.Ok? <==> total >= 0 && available >= 0 && occupied >= 0
    ensures r.Err? ==> r.error == IllegalArgument
    ensures r.Ok? ==> r.value.total == total && r.value.available == available && r.value.occupied == occupied
  {
    if total < 0 || available < 0 || occupied < 0 then Err(IllegalArgument)
    else Ok(SpotTypeStatus(total, available, occupied))
  }

  /** The RowStatus constructor, with the same rule. */
  function NewRowStatus(total: int, available: int, occupied: int): (r: Result<RowStatus, ParkingError>)
    ensures r.Ok? <==> total >= 0 && available >= 0 && occupied >= 0
    ensures r.Err? ==> r.error == IllegalArgument
    ensures r.Ok? ==> r.value.total == total && r.value.available == available && r.value.occupied == occupied
  {
    if total < 0 || available < 0 || occupied < 0 then Err(IllegalArgument)
    else Ok(RowStatus(total, available, occupied))
  }

  /** The ParkingLotSummary constructor. The four counts are checked first
      (IllegalArgumentException); then Map.copyOf rejects a null byType and
      a null byRow (NullPointerException). The flags are not compared with
      the counts. */
  function NewParkingLotSummary(
    totalSpots: int, availableSpots: int, occupiedSpots: int,
    byType: Option<map<SpotType, SpotTypeStatus>>,
    isFull: bool, isEmpty: bool, vanCount: int,
    byRow: Option<map<string, RowStatus>>): (r: Result<ParkingLotSummary, ParkingError>)
    ensures r.Ok? <==> && totalSpots >= 0 && availableSpots >= 0 && occupiedSpots >= 0 && vanCount >= 0
                       && byType.Some? && byRow.Some?
    ensures (totalSpots < 0 || availableSpots < 0 || occupiedSpots < 0 || vanCount < 0) ==>
              r == Err(IllegalArgument)
    ensures (totalSpots >= 0 && availableSpots >= 0 && occupiedSpots >= 0 && vanCount >= 0) && r.Err? ==>
              r == Err(NullPointer)
    ensures r.Ok? ==>
              && r.value.totalSpots == totalSpots && r.value.availableSpots == availableSpots
              && r.value.occupiedSpots == occupiedSpots && r.value.byType == byType.value
              && r.value.isFull == isFull && r.value.isEmpty == isEmpty
              && r.value.vanCount == vanCount && r.value.byRow == byRow.value
  {
    if totalSpots < 0 || availableSpots < 0 || occupiedSpots < 0 || vanCount < 0 then Err(IllegalArgument)
    else if byType.None? then Err(NullPointer)
    else if byRow.None? then Err(NullPointer)
    else Ok(ParkingLotSummary(totalSpots, availableSpots, occupiedSpots, byType.value,
                              isFull, isEmpty, vanCount, byRow.value))
  }

  /** Counts that are consistent with each other: what the lot administrator
      produces, although the constructors do not require it. */
  predicate Consistent(s: ParkingLotSummary)
  {
    && s.availableSpots + s.occupiedSpots == s.totalSpots
    && (s.isFull <==> s.availableSpots == 0)
    && (s.isEmpty <==> s.occupiedSpots == 0)
    && (forall t :: t in s.byType ==> s.byType[t].available + s.byType[t].occupied == s.byType[t].total)
    && (forall row :: row in s.byRow ==> s.byRow[row].available + s.byRow[row].occupied == s.byRow[row].total)
  }

  /** The constructor stores inconsistent counts as readily as consistent
      ones: a lot reported full and empty at once with more available than
      total spots is accepted. */
  lemma NoCrossCheck()
    ensures var r := NewParkingLotSummary(1, 5, 0, Some(map[]), true, true, 0, Some(map[]));
            r.Ok? && !Consistent(r.value)
  {
  }
}
