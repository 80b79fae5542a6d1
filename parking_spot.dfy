/** parking.domain.ParkingSpot: a spot with a fixed id and type whose
    occupant is set by assignVehicle and cleared by removeVehicle. */
module Spot {
  import opened ParkingTypes

  class ParkingSpot {
    const spotId: string
    const spotType: SpotType
    var vehicle: Option<Vehicle>

    /** A new spot keeps its id and type and is empty. */
    constructor (spotId: string, spotType: SpotType)
      ensures this.spotId == spotId && this.spotType == spotType
      ensures vehicle == None
    {
      this.spotId := spotId;
      this.spotType := spotType;
      this.vehicle := None;
    }

    /** isAvailable: no vehicle occupies the spot. */
    predicate IsAvailable()
      reads this
    {
      vehicle.None?
    }

    /** getVehicleType: the occupant's type, or null for an empty spot. */
    function GetVehicleType(): (r: Option<VehicleType>)
      reads this
      ensures r.None? <==> IsAvailable()
      ensures r.Some? ==> vehicle.Some? && r.value == vehicle.value.vehicleType
    {
      if vehicle.Some? then Some(vehicle.value.vehicleType) else None
    }

    /** assignVehicle: occupies an available spot; an occupied spot raises
        DoubleParkingException and keeps its occupant. */
    method AssignVehicle(v: Vehicle) returns (r: Outcome<ParkingError>)
      modifies this
      ensures old(IsAvailable()) ==> r == Pass && vehicle == Some(v)
      ensures !old(IsAvailable()) ==> r == Fail(DoubleParking) && vehicle == old(vehicle)
    {
      if !IsAvailable() {
        return Fail(DoubleParking);
      }
      vehicle := Some(v);
      r := Pass;
    }

    /** removeVehicle: the spot is empty afterwards, whatever it held. */
    method RemoveVehicle()
      modifies this
      ensures vehicle == None
    {
      vehicle := None;
    }
  }
}
