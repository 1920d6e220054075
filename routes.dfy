/**
 * The route entity: a named, numbered sequence of stops with the vehicles running on it. Stops and
 * vehicles are shared objects; the calls a route makes on its stops (`addRoute`,
 * `addNeighbouringStop`) are recorded in two ghost relations of the route.
 */
module Routes {
  import opened Wrappers
  import opened Exceptions
  import opened Strings
  import opened Stops
  import opened Vehicles
  import opened RouteFormat

  /** The registrations `stop.addRoute(route)` made when the given stops were added to `route`. */
  ghost function Registrations(stops: seq<Stop>, route: Route): set<(Stop, Route)>
    decreases |stops|
  {
    if stops == [] then {}
    else Registrations(stops[..|stops| - 1], route) + {(stops[|stops| - 1], route)}
  }

  /** The neighbour links made between consecutive stops, one in each direction. */
  ghost function Links(stops: seq<Stop>): set<(Stop, Stop)>
    decreases |stops|
  {
    if |stops| < 2 then {}
    else
      var a, b := stops[|stops| - 2], stops[|stops| - 1];
      Links(stops[..|stops| - 1]) + {(a, b), (b, a)}
  }

  /** A route is registered on exactly the stops it has, and on no others. */
  lemma {:induction false} RegistrationsMembers(stops: seq<Stop>, route: Route, st: Stop, r: Route)
    ensures (st, r) in Registrations(stops, route) <==> r == route && st in stops
  {
    if stops != [] {
      var init := stops[..|stops| - 1];
      RegistrationsMembers(init, route, st, r);
      assert stops == init + [stops[|stops| - 1]];
    }
  }

  /** Two stops are linked exactly when they are next to each other on the route, in either order. */
  lemma {:induction false} LinksMembers(stops: seq<Stop>, a: Stop, b: Stop)
    ensures (a, b) in Links(stops) <==>
      exists i :: 0 <= i < |stops| - 1 &&
        ((stops[i] == a && stops[i + 1] == b) || (stops[i] == b && stops[i + 1] == a))
  {
    if |stops| >= 2 {
      var init := stops[..|stops| - 1];
      LinksMembers(init, a, b);
      if (a, b) in Links(init) {
        var i :| 0 <= i < |init| - 1 &&
          ((init[i] == a && init[i + 1] == b) || (init[i] == b && init[i + 1] == a));
        assert stops[i] == init[i] && stops[i + 1] == init[i + 1];
      }
      if exists i :: 0 <= i < |stops| - 1 &&
          ((stops[i] == a && stops[i + 1] == b) || (stops[i] == b && stops[i + 1] == a))
      {
        var i :| 0 <= i < |stops| - 1 &&
          ((stops[i] == a && stops[i + 1] == b) || (stops[i] == b && stops[i + 1] == a));
        if i < |stops| - 2 {
          assert init[i] == stops[i] && init[i + 1] == stops[i + 1];
        }
      }
    }
  }

  /** The names of the stops, each followed by '|': what the encoding loop has built. */
  function Terminated(names: seq<string>): string
    decreases |names|
  {
    if names == [] then "" else Terminated(names[..|names| - 1]) + names[|names| - 1] + "|"
  }

  /** Dropping the last '|' of the built text leaves the stop segment of the encoding. */
  lemma {:induction false} TerminatedSegment(names: seq<string>)
    requires names != []
    ensures Terminated(names) == StopSegment(names) + "|"
  {
    var init, last := names[..|names| - 1], names[|names| - 1];
    if init == [] {
      assert names == [last];
    } else {
      TerminatedSegment(init);
      JoinAppend(init, [last], '|');
      assert init + [last] == names;
    }
  }

  /** One more name adds that name and a '|' to the built text. */
  lemma TerminatedStep(header: string, names: seq<string>, i: nat, built: string)
    requires i < |names| && built == header + Terminated(names[..i])
    ensures built + names[i] + "|" == header + Terminated(names[..i + 1])
  {
    assert names[..i + 1][..i] == names[..i];
  }

  /** Deleting the last character of the built text leaves the header and the stop segment. */
  lemma DropLastBar(header: string, names: seq<string>, built: string)
    requires built == header + Terminated(names)
    ensures names == [] ==> built == header + StopSegment(names)
    ensures names != [] ==> |built| > 0 && built[..|built| - 1] == header + StopSegment(names)
  {
    if names == [] {
      assert header + [] == header;
    } else {
      TerminatedSegment(names);
      var segment := StopSegment(names);
      assert header + Terminated(names) == (header + segment) + "|";
    }
  }

  class Route {
    const kind: Kind
    const name: string
    const number: Int32
    var stops: seq<Stop>
    var vehicles: seq<PublicTransport>
    ghost var registrations: set<(Stop, Route)>
    ghost var neighbours: set<(Stop, Stop)>

    /**
     * The route's invariant: a sanitised name, every stop registered with this route, consecutive
     * stops linked as neighbours, and vehicles only of the route's own type and only once there
     * is a stop.
     */
    ghost predicate Valid()
      reads this
    {
      '\n' !in name && '\r' !in name &&
      registrations == Registrations(stops, this) &&
      neighbours == Links(stops) &&
      (vehicles != [] ==> stops != []) &&
      forall v :: v in vehicles ==> v.kind == kind
    }

    /** What the text form of this route records. */
    function Data(): RouteData
      reads this
    {
      RouteData(kind, name, number, stops)
    }

    /**
     * A route of the given variant (the subclass that is instantiated) with the given name (`None`
     * for null) and number, and no stops or vehicles yet.
     */
    constructor (kind: Kind, name: Option<string>, number: Int32)
      ensures Valid()
      ensures this.kind == kind && this.number == number
      ensures this.name == if name.None? then "" else StripLineBreaks(name.value)
      ensures stops == [] && vehicles == []
      ensures registrations == {} && neighbours == {}
    {
      this.kind := kind;
      this.name := if name.None? then "" else StripLineBreaks(name.value);
      this.number := number;
      vehicles := [];
      stops := [];
      registrations := {};
      neighbours := {};
    }

    /** The stops in the order they were added; a value, so changing it cannot change the route. */
    method GetStopsOnRoute() returns (r: seq<Stop>)
      ensures r == stops
    {
      r := stops;
    }

    /** The first stop added, or EmptyRouteException when there is none. */
    method GetStartStop() returns (r: Result<Stop, Error>)
      ensures r.Err? <==> stops == []
      ensures r.Err? ==> r.error == EmptyRoute
      ensures r.Ok? ==> r.value == stops[0]
    {
      if stops == [] {
        return Err(EmptyRoute);
      }
      return Ok(stops[0]);
    }

    /**
     * Appends a stop (nothing happens for null), registers this route on it and, unless it is the
     * first stop, links it with the previous stop in both directions.
     */
    method AddStop(stop: Stop?)
      requires Valid()
      modifies this`stops, this`registrations, this`neighbours
      ensures Valid()
      ensures stop == null ==>
        stops == old(stops) && registrations == old(registrations) && neighbours == old(neighbours)
      ensures stop != null ==> stops == old(stops) + [stop]
      ensures stop != null ==> registrations == old(registrations) + {(stop, this)}
      ensures stop != null && old(stops) != [] ==>
        var previous := old(stops)[|old(stops)| - 1];
        neighbours == old(neighbours) + {(previous, stop), (stop, previous)}
      ensures old(stops) == [] ==> neighbours == old(neighbours)
      ensures old(stops) != [] ==> stops[0] == old(stops)[0]
    {
      if stop == null {
        return;
      }
      ghost var before := stops;
      registrations := registrations + {(stop, this)};  // stop.addRoute(this)
      stops := stops + [stop];
      assert stops[..|stops| - 1] == before;
      if |stops| == 1 {
        return;
      }
      var previous := stops[|stops| - 2];
      neighbours := neighbours + {(previous, stop)};  // previous.addNeighbouringStop(stop)
      neighbours := neighbours + {(stop, previous)};  // stop.addNeighbouringStop(previous)
    }

    /** The vehicles on the route; a value, so changing it cannot change the route. */
    method GetTransports() returns (r: seq<PublicTransport>)
      ensures r == vehicles
    {
      r := vehicles;
    }

    /**
     * Adds a vehicle, checking in this order: null (nothing happens), no stops yet
     * (EmptyRouteException), a type tag other than the route's (IncompatibleTypeException).
     */
    method AddTransport(transport: PublicTransport?) returns (r: Outcome<Error>)
      requires Valid()
      modifies this`vehicles
      ensures Valid()
      ensures transport == null ==> r == Pass && vehicles == old(vehicles)
      ensures transport != null && stops == [] ==> r == Fail(EmptyRoute) && vehicles == old(vehicles)
      ensures transport != null && stops != [] && transport.kind.Tag() != kind.Tag() ==>
        r == Fail(IncompatibleType) && vehicles == old(vehicles)
      ensures transport != null && stops != [] && transport.kind.Tag() == kind.Tag() ==>
        r == Pass && vehicles == old(vehicles) + [transport]
    {
      if transport == null {
        return Pass;
      }
      if stops == [] {
        return Fail(EmptyRoute);
      }
      if kind.Tag() != transport.kind.Tag() {
        return Fail(IncompatibleType);
      }
      TagInjective(kind, transport.kind);
      vehicles := vehicles + [transport];
      return Pass;
    }

    /** Routes are equal when their names and numbers are. */
    predicate Equals(other: Route?)
      ensures other == null ==> !Equals(other)
      ensures other == this ==> Equals(other)
    {
      other != null && name == other.name && number == other.number
    }

    /** `hashCode`: the route number, a Java `int`. */
    function HashCode(): (h: int)
      ensures -0x8000_0000 <= h < 0x8000_0000
    {
      number
    }

    /**
     * Builds "{type},{name},{number}:" and then each stop name followed by '|', and finally deletes
     * the last character when there was at least one stop.
     */
    method ToString() returns (s: string)
      ensures s == EncodeRoute(Data())
    {
      var builder := kind.Tag() + "," + name + "," + IntToString(number) + ":";
      ghost var header, names := builder, Names(stops);
      var i := 0;
      while i < |stops|
        invariant 0 <= i <= |stops| == |names|
        invariant builder == header + Terminated(names[..i])
      {
        assert names[i] == stops[i].name;
        TerminatedStep(header, names, i, builder);
        builder := builder + stops[i].name + "|";
        i := i + 1;
      }
      assert names[..|stops|] == names;
      DropLastBar(header, names, builder);
      assert header + StopSegment(names) == EncodeRoute(Data());
      if stops != [] {
        builder := builder[..|builder| - 1];  // deleteCharAt(length() - 1)
      }
      s := builder;
    }

    /** The encoding is the string form. */
    method Encode() returns (s: string)
      ensures s == EncodeRoute(Data())
    {
      s := ToString();
    }

    /**
     * compareAndAddStops: for each token, scans the existing stops from the front and adds the
     * first one with that name; reaching the last existing stop without a match throws.
     */
    method CompareAndAddStops(tokens: seq<string>, existing: seq<Stop>) returns (r: Outcome<Error>)
      requires Valid()
      modifies this`stops, this`registrations, this`neighbours
      ensures Valid()
      ensures r.Pass? <==> ResolveStops(tokens, existing).Ok?
      ensures r.Fail? ==> r.error == TransportFormat
      ensures r.Pass? ==> stops == old(stops) + ResolveStops(tokens, existing).value
    {
      var i := 0;
      while i < |tokens|
        invariant 0 <= i <= |tokens|
        invariant Valid()
        invariant ResolveStops(tokens[..i], existing).Ok?
        invariant stops == old(stops) + ResolveStops(tokens[..i], existing).value
      {
        var token := tokens[i];
        ghost var before := stops;
        ghost var found := false;
        var j := 0;
        while j < |existing|
          invariant 0 <= j <= |existing|
          invariant existing != [] ==> j < |existing|
          invariant Valid()
          invariant stops == before
          invariant forall k :: 0 <= k < j ==> existing[k].name != token
        {
          if existing[j].name == token {
            AddStop(existing[j]);
            found := true;
            break;
          }
          if j == |existing| - 1 {
            // existingStops.get(existingStops.size() - 1).equals(j): no stop has this name
            assert FindByName(existing, tokens[i]).None?;
            return Fail(TransportFormat);
          }
          j := j + 1;
        }
        ResolveStopsStep(tokens, i, existing);
        if found {
          assert FindByName(existing, token) == Some(j);
        } else {
          assert existing == [];
        }
        i := i + 1;
      }
      assert tokens[..|tokens|] == tokens;
      return Pass;
    }

    /**
     * Route.decode: checks the whole string, cuts it into type, name and the rest, parses the
     * number, creates the route of the tagged variant and adds the resolved stops to it.
     */
    static method Decode(routeString: Option<string>, existingStops: Option<seq<Stop>>)
      returns (r: Result<Route, Error>)
      ensures r.Err? <==> DecodeRoute(routeString, existingStops).Err?
      ensures r.Err? ==> r.error == DecodeRoute(routeString, existingStops).error
      ensures r.Ok? ==>
        fresh(r.value) && r.value.Valid() && r.value.vehicles == [] &&
        r.value.Data() == DecodeRoute(routeString, existingStops).value
    {
      if routeString.None? || existingStops.None? || EndsWith(routeString.value, '|') {
        return Err(TransportFormat);
      }
      var s, existing := routeString.value, existingStops.value;
      if !HasStaticDelimiters(s) {
        return Err(TransportFormat);
      }
      var routeInfo := RouteInfo(s);
      r := DecodeParts(routeInfo, existing);
    }

    /** The part of decode that follows the delimiter checks, on the three comma-separated fields. */
    static method DecodeParts(routeInfo: seq<string>, existing: seq<Stop>) returns (r: Result<Route, Error>)
      requires |routeInfo| == 3
      ensures r.Err? <==> DecodeFields(routeInfo, existing).Err?
      ensures r.Err? ==> r.error == DecodeFields(routeInfo, existing).error
      ensures r.Ok? ==>
        fresh(r.value) && r.value.Valid() && r.value.vehicles == [] &&
        r.value.Data() == DecodeFields(routeInfo, existing).value
    {
      var numberParts := Split(routeInfo[2], ':');
      if |numberParts| == 0 {
        return Err(IndexOutOfBounds);
      }
      var number := StringToInt(numberParts[0]);
      if number.None? {
        return Err(TransportFormat);
      }
      var instance := NewRouteInstance(routeInfo, number.value);
      if instance.Err? {
        return Err(instance.error);
      }
      var route := instance.value;
      DecodeFieldsAccepted(routeInfo, existing, number.value, route.kind);
      var outcome := route.CompareAndAddStops(StopTokens(routeInfo[2]), existing);
      if outcome.Fail? {
        return Err(outcome.error);
      }
      return Ok(route);
    }

    /** newRouteInstance: a new route of the variant the type tag names, or a format error. */
    static method NewRouteInstance(routeInfo: seq<string>, number: Int32) returns (r: Result<Route, Error>)
      requires |routeInfo| == 3
      ensures r.Err? <==> KindOfTag(routeInfo[0]).None?
      ensures r.Err? ==> r.error == TransportFormat
      ensures r.Ok? ==>
        fresh(r.value) && r.value.Valid() && r.value.vehicles == [] &&
        r.value.Data() == RouteData(KindOfTag(routeInfo[0]).value, StripLineBreaks(routeInfo[1]), number, [])
    {
      var kind := KindOfTag(routeInfo[0]);
      if kind.None? {
        return Err(TransportFormat);
      }
      var route := new Route(kind.value, Some(routeInfo[1]), number);
      return Ok(route);
    }
  }

  /** Route equality is an equivalence, and null is equal to no route. */
  lemma EqualsIsEquivalence(a: Route, b: Route, c: Route)
    ensures a.Equals(a) && !a.Equals(null)
    ensures a.Equals(b) ==> b.Equals(a)
    ensures a.Equals(b) && b.Equals(c) ==> a.Equals(c)
  {
  }

  /** Equal routes have equal hash codes. */
  lemma EqualRoutesHashAlike(a: Route, b: Route)
    ensures a.Equals(b) ==> a.HashCode() == b.HashCode()
  {
  }
}
