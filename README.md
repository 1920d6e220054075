# Routes of a public transport network

This project models a transport network's route entity and proves properties about it. A route
has a type (bus, ferry or train), a name and a number. It also holds an ordered sequence of stops
and the vehicles that run on it. It can be written to a one-line text form and read back from one:

    {type},{name},{number}:{stop0}|{stop1}|...|{stopN}

The bus vehicle is modelled as well. It is a vehicle of type "bus" with a sanitised registration
number, which it adds to the vehicle encoding.

Decode reads back what encode writes when the stop names are non-empty and hold no ',', ':' or
'|', and the route name holds no ',' or ':' (`DecodeEncode`). Outside those conditions the model
keeps what the code does. With two or more stops, a last stop whose name is empty or ends with '|'
makes the text end with '|', which decode rejects (`EncodeTrailingBar`). A single stop with an empty name is written
exactly like a route with no stops (`EncodeSingleEmptyName`).

Modules:

- `Wrappers`, `Exceptions`: `Option`, `Result` and `Outcome`, and the exceptions the route code
  throws (`EmptyRouteException`, `IncompatibleTypeException`, `TransportFormatException`, and the
  array index error `decode` can leak).
- `Strings`: the parts of `java.lang.String` and `Integer` the route code uses, with one-character
  patterns:
  - `replace` and `replaceAll`;
  - `split` with and without a limit, including the removal of trailing empty strings;
  - `endsWith` and `trim`;
  - `Integer.parseInt` and `Integer.toString`.
- `Stops`, `Vehicles`: the collaborators of a route (a stop's name; a vehicle's type tag) and
  the bus.
- `RouteFormat`: the text form as values. `EncodeRoute` is `toString`. `DecodeRoute` is `decode`,
  step by step as the code does it. This module also holds the lemmas about decode's edge cases
  and the encode/decode round trip.
- `Routes`: the mutable `Route` class. Its ghost state records the calls it makes on stops:
  `registrations` are the `stop.addRoute(this)` calls, and `neighbours` are the
  `addNeighbouringStop` links. `Valid()` ties both to the stop sequence. `ToString`,
  `CompareAndAddStops` and `Decode` are loops and object construction, proved equal to the
  `RouteFormat` functions.
- `Scenarios`: concrete route strings decoded against concrete stops.

## Model

| member | source | states |
|---|---|---|
| Routes.Route.constructor | project/src/routes/Route.java:45-50 | the name is the argument with every `\n` and `\r` removed, or `""` for null; the number is kept; there are no stops, no vehicles, no registrations and no neighbour links; the route invariant holds |
| Routes.Route.GetStopsOnRoute | project/src/routes/Route.java:81-83 | returns the stops in the order they were added |
| Routes.Route.GetStartStop | project/src/routes/Route.java:92-98 | fails with EmptyRoute exactly when there are no stops, and otherwise returns the first stop |
| Routes.Route.AddStop | project/src/routes/Route.java:115-131 | null changes nothing; otherwise the stop is appended and this route is registered on it; the stop and the previous last stop are linked in both directions, and a first stop gets no link; the first stop never changes; the invariant is preserved |
| Routes.Route.GetTransports | project/src/routes/Route.java:144-146 | returns the vehicles in order |
| Routes.Route.AddTransport | project/src/routes/Route.java:162-177 | null: no-op; no stops: EmptyRoute, even when the types differ too; a different type tag: IncompatibleType; otherwise the vehicle is appended exactly once; vehicles are unchanged on every failure; only vehicles of the route's own type are ever held |
| Routes.Route.ToString | project/src/routes/Route.java:228-245 | the loop that appends each stop name and a bar and then deletes the last character builds exactly `EncodeRoute` of the route's data |
| Routes.Route.Encode | project/src/routes/Route.java:253-255 | the encoding is the string form |
| Routes.Route.CompareAndAddStops | project/src/routes/Route.java:392-410 | the nested scan succeeds exactly when every token resolves; a failure is a format error; on success the resolved stops are appended in token order; the invariant is preserved |
| Routes.Route.DecodeParts | project/src/routes/Route.java:285-291 | after the delimiter checks, it fails exactly when `DecodeFields` fails, with the same error; otherwise it returns a new valid route with no vehicles whose data is `DecodeFields`' value |
| Routes.Route.NewRouteInstance | project/src/routes/Route.java:345-357 | fails with a format error exactly when the tag is not "bus", "ferry" or "train"; otherwise a new valid route of that variant with the sanitised name, the number, and no stops or vehicles |
| Routes.Route.Decode | project/src/routes/Route.java:270-294 | fails exactly when `DecodeRoute` fails, with the same error; otherwise it returns a new valid route with no vehicles whose data is `DecodeRoute`'s value |
| Routes.RegistrationsMembers | project/src/routes/Route.java:120 | a route is registered on exactly the stops it holds |
| Routes.LinksMembers | project/src/routes/Route.java:128-130 | two stops are linked exactly when they are adjacent on the route, in either order |
| Routes.TerminatedSegment | project/src/routes/Route.java:236-242 | dropping the last character of the names each followed by a bar leaves the names joined by bars |
| Routes.Route.Equals | project/src/routes/Route.java:191-199 | equal by name and number; null is never equal and a route equals itself; `EqualsIsEquivalence` gives the rest of the equivalence |
| Routes.Route.HashCode | project/src/routes/Route.java:201-204 | the route number, a Java `int`; `EqualRoutesHashAlike` ties it to `Equals` |
| Routes.EqualsIsEquivalence | project/src/routes/Route.java:191-199 | equality by name and number is reflexive, symmetric and transitive, and no route equals null |
| Routes.EqualRoutesHashAlike | project/src/routes/Route.java:201-204 | equal routes have equal hash codes |
| RouteFormat.EncodeRoute | project/src/routes/Route.java:228-245 | the value of `toString`: the type tag, ',', the name, ',', `Integer.toString(number)`, ':', then the stop names joined by bars; it starts with the tag and ','; `EncodeRouteEnd`, `EncodedStops` and `DecodeEncode` state its properties |
| RouteFormat.EncodeRouteEnd | project/src/routes/Route.java:240-242 | the encoding ends with ':' when there are no stops, and otherwise with the last stop's name |
| RouteFormat.EncodeTrailingBar | project/src/routes/Route.java:236-242 | with two or more stops whose last name is empty or ends with a bar, the encoding ends with a bar, and decode rejects it with a format error even against the route's own stops |
| RouteFormat.EncodeSingleEmptyName | project/src/routes/Route.java:236-242 | one stop with an empty name encodes exactly as no stops |
| RouteFormat.StopSegmentSeparators | project/src/routes/Route.java:236-242 | n stop names give n - 1 bar separators |
| RouteFormat.DelimiterCount | project/src/routes/Route.java:310-313 | the length lost by removing every `c` is the number of occurrences of `c` |
| RouteFormat.HasStaticDelimiters | project/src/routes/Route.java:305-318 | holds exactly when the whole string has two ',' and one ':' |
| RouteFormat.RouteInfo | project/src/routes/Route.java:282 | `split(",", 3)` of a string with two commas gives three comma-free parts that rebuild the string |
| RouteFormat.StringToInt | project/src/routes/Route.java:328-335 | `Integer.parseInt` of the trimmed text: a value exactly when the trimmed text is a decimal that fits a Java `int`, and then its decimal value; `StringToIntOfIntToString` is its partner |
| RouteFormat.StringToIntOfIntToString | project/src/routes/Route.java:328-335 | any `int` printed with blanks around it reads back as that `int` |
| RouteFormat.KindOfTag | project/src/routes/Route.java:345-357 | a recognised tag is the variant's own tag; anything but exactly "bus", "ferry" or "train" is rejected |
| RouteFormat.KindOfTagOfTag | project/src/routes/Route.java:347-353 | every variant's tag selects that variant |
| RouteFormat.StopTokens | project/src/routes/Route.java:375-377 | no stop token holds a bar |
| RouteFormat.ResolveStopsStep | project/src/routes/Route.java:396-409 | one more token appends the first stop with that name, or nothing when the stop list is empty |
| RouteFormat.FindByName | project/src/routes/Route.java:397-401 | the scan finds the first stop with exactly that name, or reports that none has it |
| RouteFormat.ResolveStops | project/src/routes/Route.java:392-410 | fails, with a format error, exactly when the stop list is non-empty and some token matches no stop; an empty list gives no stops; otherwise token k resolves to the first stop named token k |
| RouteFormat.DecodeFields | project/src/routes/Route.java:285-291 | errors are format or index errors; a decoded name has no line breaks; decoded stops come from the given stops |
| RouteFormat.DecodeRoute | project/src/routes/Route.java:270-294 | a null argument, a trailing bar, or delimiter counts other than two ',' and one ':' give a format error; a decoded name has no line breaks; decoded stops come from the given stops |
| RouteFormat.SplitNumberPart | project/src/routes/Route.java:285 | how `split(":")` of the part after the second comma comes out, with Java's trailing-empty removal |
| RouteFormat.DecodeLayout | project/src/routes/Route.java:275-282 | a string with the expected separators passes the checks and is cut into its three parts |
| RouteFormat.DecodeNumbered | project/src/routes/Route.java:275-285 | the same for a third part of the form number:stops |
| RouteFormat.NumberPartFields | project/src/routes/Route.java:285 | the pieces `decode` takes from number:stops are the number and the stop tokens |
| RouteFormat.DecodeFieldsAccepted | project/src/routes/Route.java:285-291 | with a valid number and tag, the result is that of resolving the stop tokens |
| RouteFormat.NumberedFieldsAccepted | project/src/routes/Route.java:285-291 | the fields of "{tag},{name},{number}:{rest}" decode to the resolution of the bar-separated tokens of rest, or to a format error when a token does not resolve |
| RouteFormat.DecodeWellFormed | project/src/routes/Route.java:270-294 | decoding a well-formed string gives its tag, sanitised name and number, with the stops resolved from its tokens, or a format error when a token does not resolve |
| RouteFormat.SplitNonEmpty | project/src/routes/Route.java:285 | with at most one ':' and not ":" alone, `split(":")` has a first piece |
| RouteFormat.DecodeRejectsBadNumber | project/src/routes/Route.java:328-335 | for any string with two commas and one ':' (wherever it stands) that does not end with a bar and is not "{tag},{name},:", a number piece that is not a 32-bit integer after trimming is a format error |
| RouteFormat.DecodeRejectsUnknownTag | project/src/routes/Route.java:345-357 | for the same strings, once the number parses, a type other than "bus", "ferry" and "train" is a format error |
| RouteFormat.DecodeFieldsWithoutNumber | project/src/routes/Route.java:285 | when the number part splits to no pieces, the result is an index error |
| RouteFormat.DecodeIndexOutOfBounds | project/src/routes/Route.java:285 | "{tag},{name},:" gives an index error rather than a format error, before the tag is checked |
| RouteFormat.DecodeWithoutStops | project/src/routes/Route.java:375 | "{tag},{name},{number}:" gives a route with no stops |
| RouteFormat.DecodeColonInName | project/src/routes/Route.java:282-285 | a single ':' inside the name is accepted, and the route has no stops |
| RouteFormat.ColonFreeFields | project/src/routes/Route.java:285-291 | fields whose third part has no ':' decode to a route with no stops |
| RouteFormat.DecodeWithEmptyRegistry | project/src/routes/Route.java:396-409 | against an empty stop list, every token is skipped and the route has no stops |
| RouteFormat.DecodeUnknownStop | project/src/routes/Route.java:403-407 | for stop names the format can carry, a token that names no stop of a non-empty list is a format error |
| RouteFormat.NumberText | project/src/routes/Route.java:233 | the printed number holds no ',' or ':' and reads back as the number |
| RouteFormat.EncodedStops | project/src/routes/Route.java:236-242 | the stop segment holds no ',' or ':', does not end with a bar, is empty only without stops, and splits back into the stop names |
| RouteFormat.SegmentText | project/src/routes/Route.java:236-242 | the same for stop names joined by bars |
| RouteFormat.ResolveOwnNames | project/src/routes/Route.java:392-410 | a route's own stop names all resolve against its own stops, to stops with the same names |
| RouteFormat.DecodeEncode | project/src/routes/Route.java:228-294 | decoding an encoding against the route's own stops gives back the type, name, number and stop names, when the names hold no ',', ':' or bar and stop names are non-empty |
| RouteFormat.ResolveOwnNamesIdentity | project/src/routes/Route.java:392-410 | when a name determines the stop, a stop list resolves its own names to itself |
| RouteFormat.DecodeEncodeIdentity | project/src/routes/Route.java:228-294 | when, in addition, different stops have different names, decoding the encoding gives back exactly the route |
| Scenarios.DecodeRedBusRoute | project/src/routes/Route.java:270-294 | the bus route string for "red", number 1, with stops "UQ Lakes", "City" and "Valley" decodes to bus route red, number 1, with those three stops |
| Scenarios.RedBusEncoding | project/src/routes/Route.java:228-245 | that route encodes to that string |
| Scenarios.DecodeRedBusRouteMissingStop | project/src/routes/Route.java:403-407 | the same string against a list without "Valley" is a format error |
| Scenarios.DecodeUnknownVehicleType | project/src/routes/Route.java:354-355 | "car,red,1:" is a format error |
| Scenarios.UnknownTagWithoutStops | project/src/routes/Route.java:345-357 | "{tag},{name},{number}:" with a printed `int` and an unknown tag is a format error |
| Vehicles.Kind.Tag | project/src/routes/Route.java:211 | each variant has one of the tags "bus", "train" and "ferry", which hold no separator of the format |
| Vehicles.TagInjective | project/src/routes/Route.java:172 | comparing type tags is comparing variants |
| Vehicles.SanitisedRegistration | project/src/vehicles/Bus.java:31-32 | null becomes ""; the result has no `\n` or `\r`; other characters are kept in order and in number; a clean number is kept unchanged |
| Vehicles.NewBus | project/src/vehicles/Bus.java:29-33 | a new vehicle of type "bus" whose registration number reads back as the sanitised argument |
| Vehicles.GetRegistrationNumber | project/src/vehicles/Bus.java:40-42 | returns the stored registration number |
| Vehicles.EncodeBus | project/src/vehicles/Bus.java:49-51 | the inherited encoding, then "," and the registration number, which therefore ends it |
| Stops.Names | project/src/routes/Route.java:236-237 | one name per stop, in order |
| Strings.EndsWith | project/src/routes/Route.java:276 | `endsWith` for one character: the string is non-empty and its last character is that one, which then occurs in it |
| Strings.RemoveAll | project/src/routes/Route.java:46 | removes every occurrence of the character, and leaves a string without it unchanged |
| Strings.RemoveAllCounts | project/src/routes/Route.java:310-313 | removal shortens the string by the number of occurrences of the character and keeps every other character as often as before |
| Strings.RemoveAllIsSubsequence | project/src/routes/Route.java:46 | removal keeps the remaining characters in order |
| Strings.StripLineBreaks | project/src/routes/Route.java:46 | no `\n` or `\r` remains; other characters keep their counts; a clean string is unchanged |
| Strings.StripLineBreaksIsSubsequence | project/src/vehicles/Bus.java:31-32 | sanitising keeps the remaining characters in order |
| Strings.StripLineBreaksIdempotent | project/src/routes/Route.java:46 | sanitising twice is sanitising once |
| Strings.Pieces | project/src/routes/Route.java:377 | there is always at least one piece, even for the empty string |
| Strings.PiecesCount | project/src/routes/Route.java:377 | one more piece than separators |
| Strings.PiecesAvoid | project/src/routes/Route.java:377 | no piece holds the separator |
| Strings.JoinOfPieces | project/src/routes/Route.java:377 | the pieces rejoined give the string back |
| Strings.DropTrailingEmpty | project/src/routes/Route.java:375 | a prefix of the pieces that ends with a non-empty piece, where every piece dropped is empty |
| Strings.Split | project/src/routes/Route.java:285 | a string without the separator splits to itself; otherwise the pieces without the empty ones at the end |
| Strings.SplitOfSeparator | project/src/routes/Route.java:285 | the separator alone splits to no pieces at all |
| Strings.SplitOfJoin | project/src/routes/Route.java:377 | splitting undoes joining when no piece holds the separator and the last piece is non-empty |
| Strings.SplitLimit | project/src/routes/Route.java:282 | `split(d, limit)`: the number of pieces, pieces that rejoin to the string, and separator-free pieces except the last |
| Strings.Trim | project/src/routes/Route.java:331 | the result is empty or starts and ends above ' '; a string that already does is unchanged |
| Strings.TrimPadded | project/src/routes/Route.java:331 | blanks around such a string are exactly what is removed |
| Strings.ParseInteger | project/src/routes/Route.java:331 | accepts exactly an optional sign followed by ASCII digits; the sign of the value follows the text |
| Strings.ParseInt32 | project/src/routes/Route.java:331-334 | a decimal text is accepted exactly when its value fits in 32 bits |
| Strings.NatToString | project/src/routes/Route.java:233 | non-empty ASCII digits, without leading zeros |
| Strings.IntToString | project/src/routes/Route.java:233 | non-empty, only '-' and digits, with no blank at either end |
| Strings.NatToStringValue | project/src/routes/Route.java:233 | the digits printed have the printed value |
| Strings.ParseIntToString | project/src/routes/Route.java:331 | parsing undoes printing |
| Strings.ParseInt32ToString | project/src/routes/Route.java:331-334 | printing and then parsing gives back exactly the 32-bit values |

## Left out

- Stop (`addRoute`, `addNeighbouringStop`, `getName`, `equals`): Stop.java is not part of this
  model. A stop is an object with a constant name. The calls a route makes on its stops are kept
  as the route's ghost `registrations` and `neighbours` relations, so the model does not show them
  on the stop objects.
- `Stop.equals` in `compareAndAddStops`: the model assumes that `existingStops.get(size - 1).equals(j)`
  holds exactly when `j` is the last element of the list by position.
- Routes.Route.Decode: null elements of `existingStops` are not modelled (the stop list is a
  sequence of non-null stops). Java throws a `NullPointerException` from `j.getName()` when the
  scan in `compareAndAddStops` reaches one, and that exception escapes decode.
- Routes.Route.Decode: when decode fails part-way, Java has already called `addRoute` and
  `addNeighbouringStop` on some existing stops. Those effects stay on the stops. In the model they
  are recorded only on the discarded route object.
- The PublicTransport superclass and the BusRoute, TrainRoute and FerryRoute subclasses are not
  part of this model. `getType` is a closed `Kind` datatype with the tags "bus", "train" and
  "ferry". A vehicle is reduced to its type tag; a bus is such a vehicle of type "bus" paired with
  its registration number, and its id, capacity and route are not modelled.
- Vehicles.EncodeBus: the inherited `PublicTransport.encode` text is a parameter.
- `getName` and `getRouteNumber` are the constant fields `name` and `number` of `Route`, read
  directly.
- `equals(Object)`: only route arguments (or null) are modelled. An object of another class is
  never equal to a route.
- `hashCode`: only its agreement with `equals` is stated.
- Regular expressions: `replaceAll`, `split` and `split("\\|")` are modelled for one-character
  literal patterns, which is all the route code uses.
- Round trip: `toString` can write text that `decode` rejects or reads back with other stops, for
  stop names that are empty or contain ',', ':' or '|'. The model keeps this behaviour, and
  `DecodeEncode` promises the round trip only for names the format can carry.
- Strings.ParseInteger: only ASCII digits are accepted. `Integer.parseInt` also accepts digits
  from other Unicode scripts.
- Defensive copies in `getStopsOnRoute` and `getTransports`: the model returns sequence values,
  which callers cannot use to change the route.
- Exceptions are results (`Result`, `Outcome`) rather than thrown. The array index error of
  "{tag},{name},:" is the `IndexOutOfBounds` error.
- The `Writeable` interface, file I/O and the rest of the network are not part of this model.
