/** Value types shared by every part of the parking-lot model: the enums,
    the vehicle record, the exception classes as error variants, and the
    Option/Result wrappers used wherever the Java code returns null or throws. */
module ParkingTypes {

  datatype Option<+T> = None | Some(value: T)

  datatype Result<+T, +E> = Ok(value: T) | Err(error: E)

  /** The outcome of a void Java method that may throw. */
  datatype Outcome<+E> = Pass | Fail(error: E)

  /** parking.enums.VehicleType */
  datatype VehicleType = MOTORCYCLE | CAR | VAN

  /** parking.enums.ParkingSpotType */
  datatype SpotType = COMPACT | REGULAR

  /** parking.enums.ParkingLotAdminType */
  datatype AdminType = COMPACT_REGULAR | UNSUPPORTED_TYPE

  /** parking.domain.Vehicle: an identifier and a type, nothing else. */
  datatype Vehicle = Vehicle(identifier: string, vehicleType: VehicleType)

  /** Why a ParkingUnavailableException was raised; `InvalidSpotId` is the
      case whose cause is an InvalidParkingSpotIdException. */
  datatype UnavailableReason =
    | NullVehicle
    | NullSpotMap
    | InvalidSpotId(spotId: string)
    | NoSuitableSpot(identifier: string)

  /** The exceptions the core can raise. */
  datatype ParkingError =
    | ParkingUnavailable(reason: UnavailableReason)
    | IllegalSpotType(token: string)
    | IllegalParkingLotAdmin
    | DoubleParking
    | NumberFormat(text: string)
    | IllegalArgument
    | NullPointer
    | Runtime

  /** Every spot type, in declaration order. */
  const SpotTypes: seq<SpotType> := [COMPACT, REGULAR]

  /** `map.getOrDefault(key, emptyList())` */
  function Lookup<K, T>(m: map<K, seq<T>>, k: K): seq<T>
  {
    if k in m then m[k] else []
  }

  /** No element occurs twice. */
  predicate Distinct<T(==)>(s: seq<T>)
  {
    forall i, j :: 0 <= i < j < |s| ==> s[i] != s[j]
  }

  /** A new element at the end keeps a list without repeats. */
  lemma DistinctSnoc<T>(s: seq<T>, x: T)
    requires Distinct(s) && x !in s
    ensures Distinct(s + [x])
  {
    var l := s + [x];
    forall i, j | 0 <= i < j < |l| ensures l[i] != l[j] {
      assert l[i] == s[i];
      if j < |s| {
        assert l[j] == s[j];
      }
    }
  }
}
