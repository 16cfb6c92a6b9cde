/** The flight record and the lookup the data service offers over it. */
module Flights {
  import opened Wrappers
  import opened Forms

  datatype Flight = Flight(id: int, from: string, to: string, date: string, delayed: Option<bool>)

  /** The arguments of one call of the data service's `find(from, to)`. */
  datatype Query = Query(from: Value, to: Value)

  /**
   The data service's `find`, abstracted to the flights it would deliver for a
   pair of search terms. HTTP, latency and failures are not modelled.
   */
  type Finder = (Value, Value) -> seq<Flight>
}
