/** The older engine's spots and vehicles. Its Vehicle has no equals, so
    two vehicles are the same only when they are the same object; its spot
    classes RegularSpot and CompactSpot behave alike and are told apart here
    by the type they were created for. */
module LegacySpots {
  import opened ParkingTypes

  /** parking.domain.Vehicle of the older engine, compared by identity. */
  class LegacyVehicle {
    const identifier: string
    const vehicleType: VehicleType

    constructor (identifier: string, vehicleType: VehicleType)
      ensures this.identifier == identifier && this.vehicleType == vehicleType
    {
      this.identifier := identifier;
      this.vehicleType := vehicleType;
    }
  }

  /** parking.spot.RegularSpot (and CompactSpot): an id and an occupant,
      null when the spot is free. */
  class LegacySpot {
    const spotId: string
    const kind: SpotType
    var vehicle: LegacyVehicle?

    /** A new spot keeps its id and is free. */
    constructor (spotId: string, kind: SpotType)
      ensures this.spotId == spotId && this.kind == kind
      ensures vehicle == null
    {
      this.spotId := spotId;
      this.kind := kind;
      this.vehicle := null;
    }

    /** isAvailable: no occupant. */
    predicate IsAvailable()
      reads this
    {
      vehicle == null
    }

    /** getVehicleType reads the occupant's type without a null check: on a
        free spot it is a NullPointerException. */
    function GetVehicleType(): (r: Result<VehicleType, ParkingError>)
      reads this
      ensures r.Err? <==> IsAvailable()
      ensures r.Err? ==> r.error == NullPointer
      ensures r.Ok? ==> vehicle != null && r.value == vehicle.vehicleType
    {
      if vehicle == null then Err(NullPointer) else Ok(vehicle.vehicleType)
    }

    /** parkVehicle: a free spot takes the vehicle as given (a null vehicle
        leaves it free); a taken spot is a RuntimeException and keeps its
        occupant. */
    method ParkVehicle(v: LegacyVehicle?) returns (r: Outcome<ParkingError>)
      modifies this
      ensures old(IsAvailable()) ==> r == Pass && vehicle == v
      ensures !old(IsAvailable()) ==> r == Fail(Runtime) && vehicle == old(vehicle)
    {
      if IsAvailable() {
        vehicle := v;
        return Pass;
      }
      return Fail(Runtime);
    }

    /** removeVehicle: the spot is free afterwards, whatever it held. */
    method RemoveVehicle()
      modifies this
      ensures IsAvailable()
    {
      vehicle := null;
    }
  }
}
