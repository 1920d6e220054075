/** The exceptions the route code throws. */
module Exceptions {

  datatype Error =
    | EmptyRoute        // EmptyRouteException: the route has no stops yet
    | IncompatibleType  // IncompatibleTypeException: the vehicle's type differs from the route's
    | TransportFormat   // TransportFormatException: a malformed encoded route
    | IndexOutOfBounds  // ArrayIndexOutOfBoundsException escaping from Route.decode
}
