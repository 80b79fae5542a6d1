/** The older administrator's re-park check, followed through a second
    parkVehicle and a removeVehicle for the same identifier. */
module LegacyReparking {
  import opened ParkingTypes
  import opened LegacySpots
  import opened LegacyUtil
  import opened LegacyAdmin

  /** The re-park check as written: a second parkVehicle with the same
      identifier, while a spot is free for it, records a second Vehicle
      object, after which removeVehicle for that identifier throws and
      leaves both recorded. */
  method RepeatedIdentifier(admin: ParkingLotAdmin, identifier: string, vehicleType: VehicleType)
    returns (r: Option<seq<LegacySpot>>, removal: Outcome<ParkingError>)
    requires admin.Valid() && |admin.ParkedAs(identifier)| == 1
    requires FindForType(vehicleType, admin.spotsByType).Ok? && FindForType(vehicleType, admin.spotsByType).value.Some?
    modifies admin, SpotsIn(admin.spotsByType)
    ensures r.Some? && removal == Fail(Runtime)
    ensures |admin.ParkedAs(identifier)| == 2
  {
    ghost var before := admin.ParkedAs(identifier);
    ghost var v;
    r, v := admin.ParkVehicle(identifier, vehicleType);
    ghost var after := admin.ParkedAs(identifier);
    assert after == before + {v};
    OneMore(before, v);
    removal := admin.RemoveVehicle(identifier);
  }

  lemma OneMore(before: set<LegacyVehicle>, v: LegacyVehicle)
    requires |before| == 1 && v !in before
    ensures |before + {v}| == 2
  {
  }
}
