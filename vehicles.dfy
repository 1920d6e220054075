/** Vehicle types, the vehicle collaborator of routes, and the bus. */
module Vehicles {
  import opened Wrappers
  import opened Strings

  /** The three route and vehicle variants, each with its fixed lower-case type tag. */
  datatype Kind = BusKind | TrainKind | FerryKind {
    function Tag(): (t: string)
      ensures t in {"bus", "train", "ferry"}
      ensures ',' !in t && ':' !in t && '|' !in t
    {
      match this
      case BusKind => "bus"
      case TrainKind => "train"
      case FerryKind => "ferry"
    }
  }

  /** Different variants have different tags, so comparing tags is comparing variants. */
  lemma TagInjective(a: Kind, b: Kind)
    ensures a.Tag() == b.Tag() <==> a == b
  {
  }

  /** A vehicle as a route sees it: something with a type tag. */
  class PublicTransport {
    const kind: Kind

    constructor (kind: Kind)
      ensures this.kind == kind
    {
      this.kind := kind;
    }
  }

  // ---------------------------------------------------------------------------
  // Bus: a vehicle with a registration number
  // ---------------------------------------------------------------------------

  /**
   * A bus: the vehicle it is as a `PublicTransport` (of type "bus"), and the registration number
   * it adds, which is fixed when the bus is created.
   */
  datatype Bus = Bus(vehicle: PublicTransport, registrationNumber: string)

  /** The bus constructor's handling of the registration number: null becomes "", line breaks are removed. */
  function SanitisedRegistration(registrationNumber: Option<string>): (r: string)
    ensures registrationNumber.None? ==> r == ""
    ensures '\n' !in r && '\r' !in r
    ensures registrationNumber.Some? ==> IsSubsequence(r, registrationNumber.value)
    ensures registrationNumber.Some? ==>
      forall c :: c != '\n' && c != '\r' ==> multiset(r)[c] == multiset(registrationNumber.value)[c]
    ensures registrationNumber.Some? && '\n' !in registrationNumber.value && '\r' !in registrationNumber.value
      ==> r == registrationNumber.value
  {
    match registrationNumber
    case None => ""
    case Some(s) =>
      StripLineBreaksIsSubsequence(s);
      StripLineBreaks(s)
  }

  /**
   * `new Bus(...)`: a new vehicle of type "bus" (the superclass part, whose id, capacity and route
   * are not modelled) holding the sanitised registration number.
   */
  method NewBus(registrationNumber: Option<string>) returns (b: Bus)
    ensures fresh(b.vehicle) && b.vehicle.kind == BusKind
    ensures GetRegistrationNumber(b) == SanitisedRegistration(registrationNumber)
  {
    var vehicle := new PublicTransport(BusKind);
    b := Bus(vehicle, SanitisedRegistration(registrationNumber));
  }

  /** `getRegistrationNumber`: the value stored at construction. */
  function GetRegistrationNumber(b: Bus): (r: string)
    ensures r == b.registrationNumber
  {
    b.registrationNumber
  }

  /**
   * `Bus.encode`: the encoding inherited from the vehicle (`inherited`, which this model takes as
   * given) followed by "," and the registration number.
   */
  function EncodeBus(b: Bus, inherited: string): (r: string)
    ensures |r| == |inherited| + 1 + |b.registrationNumber|
    ensures r[..|inherited|] == inherited
    ensures r[|r| - |b.registrationNumber| - 1..] == "," + b.registrationNumber
  {
    inherited + "," + GetRegistrationNumber(b)
  }
}
