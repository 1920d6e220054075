/** The stop collaborator, as far as routes use it. */
module Stops {

  /**
   * A stop in the network. Routes only read its name; the calls a route makes on a stop
   * (`addRoute`, `addNeighbouringStop`) are recorded by the route itself.
   */
  class Stop {
    const name: string

    constructor (name: string)
      ensures this.name == name
    {
      this.name := name;
    }
  }

  /** The names of the given stops, in order. */
  function Names(stops: seq<Stop>): (r: seq<string>)
    ensures |r| == |stops|
    ensures forall k :: 0 <= k < |stops| ==> r[k] == stops[k].name
  {
    seq(|stops|, k requires 0 <= k < |stops| => stops[k].name)
  }
}
