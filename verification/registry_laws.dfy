/**
 Laws relating the registry operations to one another: what a read returns after
 each update, which updates undo each other, and that updates on different
 flights do not interfere.
 */
module RegistryLaws {
  import opened AirportManagement

  /** A new registry lists no flights and has details for none. */
  lemma NewRegistryIsEmpty(n: FlightNumber)
    ensures |GetAllFlights(NewRegistry())| == 0
    ensures GetFlightDetails(NewRegistry(), n) == Err(DoesNotExist)
  {
  }

  /** Adding an absent flight makes its details readable: the given airline and
      destination with nobody checked in yet. */
  lemma AddThenGet(reg: Registry, n: FlightNumber, airline: string, destination: string)
    requires n !in reg
    ensures AddFlight(reg, n, airline, destination).Ok?
    ensures GetFlightDetails(AddFlight(reg, n, airline, destination).value, n)
            == Ok(Flight(airline, destination, []))
  {
  }

  /** Adding a flight number twice fails the second time, whatever the new airline
      and destination, and the record of the first add stays as it was. */
  lemma AddTwiceKeepsOriginal(reg: Registry, n: FlightNumber, a1: string, d1: string, a2: string, d2: string)
    requires n !in reg
    ensures AddFlight(reg, n, a1, d1).Ok?
    ensures AddFlight(AddFlight(reg, n, a1, d1).value, n, a2, d2) == Err(AlreadyExists)
    ensures GetFlightDetails(AddFlight(reg, n, a1, d1).value, n) == Ok(Flight(a1, d1, []))
  {
  }

  /** Removing a flight that was just added gives back the registry as it was. */
  lemma RemoveUndoesAdd(reg: Registry, n: FlightNumber, airline: string, destination: string)
    requires n !in reg
    ensures AddFlight(reg, n, airline, destination).Ok?
    ensures RemoveFlight(AddFlight(reg, n, airline, destination).value, n) == Ok(reg)
  {
    var added := AddFlight(reg, n, airline, destination).value;
    var back := RemoveFlight(added, n).value;
    assert back.Keys == reg.Keys;
    assert forall k :: k in reg ==> back[k] == reg[k];
    assert back == reg;
  }

  /** Removing a flight and adding it again with the same airline and destination
      restores it with an empty passenger list: check-ins are not remembered. */
  lemma ReAddForgetsPassengers(reg: Registry, n: FlightNumber)
    requires n in reg
    ensures RemoveFlight(reg, n).Ok?
    ensures AddFlight(RemoveFlight(reg, n).value, n, reg[n].airline, reg[n].destination)
            == Ok(reg[n := reg[n].(passengers := [])])
  {
    var removed := RemoveFlight(reg, n).value;
    var again := AddFlight(removed, n, reg[n].airline, reg[n].destination).value;
    var expected := reg[n := reg[n].(passengers := [])];
    assert again.Keys == expected.Keys;
    assert forall k :: k in again ==> again[k] == expected[k];
    assert again == expected;
  }

  /** Removing an absent flight fails and, since no new registry comes back, the
      map the caller holds is unchanged; the flight still has no details. */
  lemma RemoveAbsentFails(reg: Registry, n: FlightNumber)
    requires n !in reg
    ensures RemoveFlight(reg, n) == Err(DoesNotExist)
    ensures GetFlightDetails(reg, n) == Err(DoesNotExist)
  {
  }

  /** After a removal the flight is gone from the full listing, and every other
      flight is listed with the record it had. */
  lemma RemoveThenGetAll(reg: Registry, n: FlightNumber)
    requires n in reg
    ensures RemoveFlight(reg, n).Ok?
    ensures n !in GetAllFlights(RemoveFlight(reg, n).value)
    ensures forall k :: k in reg && k != n ==>
              k in GetAllFlights(RemoveFlight(reg, n).value) && GetAllFlights(RemoveFlight(reg, n).value)[k] == reg[k]
  {
  }

  /** Check-ins on two different flights give the same registry in either order. */
  lemma CheckInsOnDistinctFlightsCommute(reg: Registry, n1: FlightNumber, p1: string, n2: FlightNumber, p2: string)
    requires n1 in reg && n2 in reg && n1 != n2
    ensures CheckInPassenger(reg, n1, p1).Ok? && CheckInPassenger(reg, n2, p2).Ok?
    ensures CheckInPassenger(CheckInPassenger(reg, n1, p1).value, n2, p2)
            == CheckInPassenger(CheckInPassenger(reg, n2, p2).value, n1, p1)
  {
    var a := CheckInPassenger(CheckInPassenger(reg, n1, p1).value, n2, p2).value;
    var b := CheckInPassenger(CheckInPassenger(reg, n2, p2).value, n1, p1).value;
    assert a.Keys == b.Keys;
    assert forall k :: k in a ==> a[k] == b[k];
    assert a == b;
  }

  /** A check-in raises the count of the checked-in name by one and leaves the
      count of every other name as it was. */
  lemma CheckInCountsOnce(reg: Registry, n: FlightNumber, name: string, other: string)
    requires n in reg && other != name
    ensures CheckInPassenger(reg, n, name).Ok?
    ensures multiset(CheckInPassenger(reg, n, name).value[n].passengers)[name]
            == multiset(reg[n].passengers)[name] + 1
    ensures multiset(CheckInPassenger(reg, n, name).value[n].passengers)[other]
            == multiset(reg[n].passengers)[other]
  {
  }
}
