/**
 A model of the flight registry `AirportManagement`: an in-memory map from flight
 number to a flight record (airline, destination, passenger list) with five
 operations. The mutable dictionary of the Python class becomes an immutable `map`;
 every mutating operation returns either the new registry or the error it raises.
 */
module AirportManagement {

  /** A flight record. Airline and destination are fixed when the flight is added;
      the passenger list only grows, one check-in at a time, duplicates allowed. */
  datatype Flight = Flight(airline: string, destination: string, passengers: seq<string>)

  /** The two failures of the registry, both raised as a `ValueError` by the Python class:
      adding a flight number that is present, and naming one that is absent. */
  datatype Error = AlreadyExists | DoesNotExist

  /** Either the value an operation returns or the error it raises. */
  datatype Result<+T> = Ok(value: T) | Err(error: Error)

  type FlightNumber = string

  /** The registry's whole state: flight number to flight record. */
  type Registry = map<FlightNumber, Flight>

  /** `before` and `after` hold the same flight numbers, with the same records,
      everywhere except possibly at `n`. */
  ghost predicate SameElsewhere(before: Registry, after: Registry, n: FlightNumber)
  {
    forall k :: k != n ==> (k in before <==> k in after) && (k in before ==> before[k] == after[k])
  }

  /** A freshly constructed registry holds no flights. */
  function NewRegistry(): (r: Registry)
    ensures |r| == 0
    ensures forall n :: n !in r
  {
    map[]
  }

  /** Adds a flight with an empty passenger list; fails if the number is taken. */
  function AddFlight(reg: Registry, number: FlightNumber, airline: string, destination: string): (r: Result<Registry>)
    ensures r.Err? <==> number in reg
    ensures r.Err? ==> r.error == AlreadyExists
    ensures r.Ok? ==> number in r.value && r.value[number] == Flight(airline, destination, [])
    ensures r.Ok? ==> SameElsewhere(reg, r.value, number)
    ensures r.Ok? ==> r.value.Keys == reg.Keys + {number} && |r.value| == |reg| + 1
  {
    if number in reg then
      Err(AlreadyExists)
    else
      var added := reg[number := Flight(airline, destination, [])];
      assert added.Keys == reg.Keys + {number};
      Ok(added)
  }

  /** Deletes a flight; fails if the number is absent. */
  function RemoveFlight(reg: Registry, number: FlightNumber): (r: Result<Registry>)
    ensures r.Err? <==> number !in reg
    ensures r.Err? ==> r.error == DoesNotExist
    ensures r.Ok? ==> number !in r.value && SameElsewhere(reg, r.value, number)
    ensures r.Ok? ==> r.value.Keys == reg.Keys - {number} && |r.value| == |reg| - 1
  {
    if number !in reg then
      Err(DoesNotExist)
    else
      var removed := reg - {number};
      assert removed.Keys == reg.Keys - {number};
      Ok(removed)
  }

  /** Appends a passenger name to a flight's list; fails if the flight is absent.
      Nothing is deduplicated: a name checked in twice appears twice. */
  function CheckInPassenger(reg: Registry, number: FlightNumber, name: string): (r: Result<Registry>)
    ensures r.Err? <==> number !in reg
    ensures r.Err? ==> r.error == DoesNotExist
    ensures r.Ok? ==> number in r.value
    ensures r.Ok? ==> r.value[number].airline == reg[number].airline
    ensures r.Ok? ==> r.value[number].destination == reg[number].destination
    ensures r.Ok? ==> r.value[number].passengers == reg[number].passengers + [name]
    ensures r.Ok? ==> SameElsewhere(reg, r.value, number) && r.value.Keys == reg.Keys
  {
    if number !in reg then
      Err(DoesNotExist)
    else
      var f := reg[number];
      Ok(reg[number := f.(passengers := f.passengers + [name])])
  }

  /** The record stored for a flight; fails if the flight is absent. */
  function GetFlightDetails(reg: Registry, number: FlightNumber): (r: Result<Flight>)
    ensures r.Err? <==> number !in reg
    ensures r.Err? ==> r.error == DoesNotExist
    ensures r.Ok? ==> r.value == reg[number]
  {
    if number !in reg then Err(DoesNotExist) else Ok(reg[number])
  }

  /** Every registered flight: exactly the numbers whose details can be read,
      each mapped to the record that `GetFlightDetails` returns for it. */
  function GetAllFlights(reg: Registry): (all: map<FlightNumber, Flight>)
    ensures forall n :: n in all <==> GetFlightDetails(reg, n).Ok?
    ensures forall n :: n in all ==> GetFlightDetails(reg, n) == Ok(all[n])
  {
    reg
  }
}
