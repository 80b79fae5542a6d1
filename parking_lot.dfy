/** ParkingLot: the facade clients use. It records the configured size of
    the lot and hands parking and removal to its lot administrator. */
module Facade {
  import opened ParkingTypes
  import opened Spot
  import opened AllocationStrategy
  import opened RowTemplate
  import opened LotAdmin

  /** The size the facade reports: rows times the number of tokens of the
      template, computed before the template is checked. */
  function ConfiguredSize(numOfRows: int, rowSequence: string): int
  {
    numOfRows * |Tokens(rowSequence)|
  }

  class ParkingLot {
    /** totalSpots, a Java long: the product of an int and an array length
        always fits, so no wrap-around arises. */
    const totalSpots: int
    const admin: RegularCompactLotAdmin

    ghost predicate Valid()
      reads this, admin, SpotsOf(admin.spotsByType)
    {
      admin.Valid()
    }

    constructor (totalSpots: int, admin: RegularCompactLotAdmin)
      ensures this.totalSpots == totalSpots && this.admin == admin
    {
      this.totalSpots := totalSpots;
      this.admin := admin;
    }

    /** The Java constructor: the size is fixed from the template first;
        then COMPACT_REGULAR builds a RegularCompactLotAdmin, whose
        IllegalSpotTypeException propagates, and any other admin type is
        IllegalParkingLotAdminException without the template being looked
        at. For a lot that is built, the size is the number of spots its
        administrator holds whenever the row count is not negative. */
    static method Create(numOfRows: int, rowSequence: string, adminType: AdminType)
      returns (r: Result<ParkingLot, ParkingError>)
      ensures adminType != COMPACT_REGULAR ==> r == Err(IllegalParkingLotAdmin)
      ensures adminType == COMPACT_REGULAR ==>
                && (r.Err? <==> Arrangement(Tokens(rowSequence)).Err?)
                && (r.Err? ==> r.error == Arrangement(Tokens(rowSequence)).error)
      ensures r.Ok? ==>
                && fresh(r.value) && fresh(r.value.admin)
                && r.value.totalSpots == ConfiguredSize(numOfRows, rowSequence)
                && r.value.Valid() && r.value.admin.vehicleSpots == map[]
                && Holds(r.value.admin.spotsByType, Arrangement(Tokens(rowSequence)).value, numOfRows)
                && (numOfRows >= 0 ==>
                      r.value.totalSpots == |Lookup(r.value.admin.spotsByType, COMPACT)|
                                            + |Lookup(r.value.admin.spotsByType, REGULAR)|)
    {
      var spotArrangement := Tokens(rowSequence);
      var size := numOfRows * |spotArrangement|;
      match adminType {
        case COMPACT_REGULAR =>
          var admin := RegularCompactLotAdmin.Create(numOfRows, rowSequence);
          if admin.Err? {
            return Err(admin.error);
          }
          ArrangementLength(spotArrangement);
          if numOfRows >= 0 {
            HoldsSize(admin.value.spotsByType, Arrangement(spotArrangement).value, numOfRows);
          }
          var lot := new ParkingLot(size, admin.value);
          return Ok(lot);
        case UNSUPPORTED_TYPE =>
          return Err(IllegalParkingLotAdmin);
      }
    }

    /** parkVehicle: the first of the spots the administrator assigns, which
        for a vehicle already parked is the first of its recorded spots.
        A new vehicle gets exactly the spots the strategy allocates, and no
        other spot changes. ParkingUnavailableException arises exactly when
        the vehicle is new and the strategy finds nothing; then nothing
        changes. */
    method ParkVehicle(identifier: string, vehicleType: VehicleType) returns (r: Result<ParkingSpot, ParkingError>)
      requires Valid()
      modifies admin, SpotsOf(admin.spotsByType)
      ensures Valid()
      ensures admin.spotsByType == old(admin.spotsByType)
      ensures identifier in old(admin.vehicleSpots) ==>
                && r == Ok(old(admin.vehicleSpots)[identifier][0])
                && admin.vehicleSpots == old(admin.vehicleSpots)
                && unchanged(SpotsOf(admin.spotsByType))
      ensures r.Ok? ==>
                && identifier in admin.vehicleSpots && r.value == admin.vehicleSpots[identifier][0]
                && r.value.vehicle.Some? && r.value.vehicle.value.identifier == identifier
      ensures r.Err? ==>
                && r == Err(ParkingUnavailable(NoSuitableSpot(identifier)))
                && admin.vehicleSpots == old(admin.vehicleSpots)
                && unchanged(SpotsOf(admin.spotsByType))
      ensures identifier !in old(admin.vehicleSpots) && r.Ok? ==>
                && admin.vehicleSpots == old(admin.vehicleSpots)[identifier := admin.vehicleSpots[identifier]]
                && r.value.vehicle == Some(Vehicle(identifier, vehicleType))
      ensures identifier !in old(admin.vehicleSpots) && r.Ok? ==>
                && old(admin.Allocation(identifier, vehicleType)).Ok?
                && admin.vehicleSpots[identifier] == old(admin.Allocation(identifier, vehicleType)).value
                && unchanged(SpotsOf(admin.spotsByType) - Members(admin.vehicleSpots[identifier]))
      ensures r.Err? <==>
                && identifier !in old(admin.vehicleSpots)
                && old(admin.Allocation(identifier, vehicleType)).Ok?
                && old(admin.Allocation(identifier, vehicleType)).value == []
    {
      var parkingSpots := admin.ParkVehicle(identifier, vehicleType);
      if parkingSpots.Err? {
        return Err(parkingSpots.error);
      }
      if |parkingSpots.value| == 0 {
        return Err(ParkingUnavailable(NoSuitableSpot(identifier)));
      }
      return Ok(parkingSpots.value[0]);
    }

    /** removeVehicle: handed to the administrator as it is. */
    method RemoveVehicle(identifier: string)
      requires Valid()
      modifies admin, SpotsOf(admin.spotsByType)
      ensures Valid()
      ensures admin.spotsByType == old(admin.spotsByType)
      ensures admin.vehicleSpots == old(admin.vehicleSpots) - {identifier}
      ensures identifier in old(admin.vehicleSpots) ==>
                forall k :: 0 <= k < |old(admin.vehicleSpots)[identifier]| ==>
                  old(admin.vehicleSpots)[identifier][k].IsAvailable()
      ensures identifier !in old(admin.vehicleSpots) ==> unchanged(SpotsOf(admin.spotsByType))
    {
      admin.RemoveVehicle(identifier);
    }
  }
}
