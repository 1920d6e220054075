/**
 * Route strings from the route file format, decoded against concrete registries of stops.
 */
module Scenarios {
  import opened Wrappers
  import opened Exceptions
  import opened Strings
  import opened Stops
  import opened Vehicles
  import opened RouteFormat

  /** "bus,red,1:UQ Lakes|City|Valley" against a registry holding those three stops. */
  lemma DecodeRedBusRoute(lakes: Stop, city: Stop, valley: Stop)
    requires lakes.name == "UQ Lakes" && city.name == "City" && valley.name == "Valley"
    ensures DecodeRoute(Some("bus,red,1:UQ Lakes|City|Valley"), Some([lakes, city, valley]))
      == Ok(RouteData(BusKind, "red", 1, [lakes, city, valley]))
  {
    var d := RouteData(BusKind, "red", 1, [lakes, city, valley]);
    RedBusEncoding(d);
    RedBusDistinct(d);
    DecodeEncodeIdentity(d);
  }

  /** The red bus route can be encoded, and its three stop names differ. */
  lemma RedBusDistinct(d: RouteData)
    requires d.name == "red" && |d.stops| == 3
    requires d.stops[0].name == "UQ Lakes" && d.stops[1].name == "City" && d.stops[2].name == "Valley"
    ensures Encodable(d) && NamesIdentifyStops(d.stops)
  {
    assert |d.stops[0].name| == 8 && |d.stops[1].name| == 4 && |d.stops[2].name| == 6;
  }

  lemma RedBusEncoding(d: RouteData)
    requires d.kind == BusKind && d.name == "red" && d.number == 1 && |d.stops| == 3
    requires d.stops[0].name == "UQ Lakes" && d.stops[1].name == "City" && d.stops[2].name == "Valley"
    ensures EncodeRoute(d) == "bus,red,1:UQ Lakes|City|Valley"
  {
    assert Names(d.stops) == RedBusStopNames();
    RedBusLayout();
  }

  function RedBusStopNames(): seq<string> {
    ["UQ Lakes", "City", "Valley"]
  }

  lemma RedBusStopSegment()
    ensures Join(RedBusStopNames(), '|') == "UQ Lakes|City|Valley"
  {
    var names := RedBusStopNames();
    assert Join(names[2..], '|') == "Valley";
    assert Join(names[1..], '|') == "City|Valley" by {
      assert names[1..][1..] == names[2..];
    }
  }

  /** The same string is rejected when the registry has no stop called "Valley". */
  lemma DecodeRedBusRouteMissingStop(lakes: Stop, city: Stop)
    requires lakes.name == "UQ Lakes" && city.name == "City"
    ensures DecodeRoute(Some("bus,red,1:UQ Lakes|City|Valley"), Some([lakes, city]))
      == Err(TransportFormat)
  {
    var names := RedBusStopNames();
    RedBusLayout();
    RedBusNamesEncodable();
    ParseInt32ToString(1);
    assert FindByName([lakes, city], names[2]).None?;
    DecodeUnknownStop("bus", "red", IntToString(1), names, [lakes, city], 2);
  }

  lemma RedBusLayout()
    ensures "bus,red,1:UQ Lakes|City|Valley" ==
      "bus" + "," + "red" + "," + IntToString(1) + ":" + Join(RedBusStopNames(), '|')
  {
    RedBusStopSegment();
    assert IntToString(1) == "1";
  }

  lemma RedBusNamesEncodable()
    ensures forall i :: 0 <= i < |RedBusStopNames()| ==> EncodableStopName(RedBusStopNames()[i])
  {
  }

  /** An unknown type tag is a format error. */
  lemma DecodeUnknownVehicleType(existing: seq<Stop>)
    ensures DecodeRoute(Some("car,red,1:"), Some(existing)) == Err(TransportFormat)
  {
    CarLayout();
    UnknownTagWithoutStops("car", "red", 1, existing);
  }

  lemma UnknownTagWithoutStops(tag: string, name: string, n: Int32, existing: seq<Stop>)
    requires ',' !in tag && ',' !in name && ':' !in tag && ':' !in name
    requires tag != "bus" && tag != "ferry" && tag != "train"
    ensures DecodeRoute(Some(tag + "," + name + "," + (IntToString(n) + ":" + [])), Some(existing))
      == Err(TransportFormat)
  {
    var number := IntToString(n);
    var tail := number + ":" + [];
    NumberText(n);
    assert number != [];
    SplitNumberPart(number, []);
    assert Split(tail, ':') == [number];
    assert multiset(tail)[':'] == 1 by {
      assert multiset(tail) == multiset(number) + multiset(":");
    }
    assert tail[|tail| - 1] == ':' && |tail| > 1;
    DecodeRejectsUnknownTag(tag, name, tail, existing);
  }

  lemma CarLayout()
    ensures "car,red,1:" == "car" + "," + "red" + "," + (IntToString(1) + ":" + [])
    ensures ':' !in "car" && ':' !in "red" && ',' !in "car" && ',' !in "red"
  {
    assert IntToString(1) == "1";
  }
}
