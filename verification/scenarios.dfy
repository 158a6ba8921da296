/** The registry's own test scenarios, as chains of calls from a new registry. */
module Scenarios {
  import opened AirportManagement

  /** One flight with two check-ins: both names are listed, in order; a flight
      never added has no details, and the listing holds one flight. */
  lemma CheckInScenario()
    ensures var r1 := AddFlight(NewRegistry(), "AI101", "Air India", "New York");
            && r1.Ok?
            && var r2 := CheckInPassenger(r1.value, "AI101", "Alice");
            && r2.Ok?
            && var r3 := CheckInPassenger(r2.value, "AI101", "Bob");
            && r3.Ok?
            && GetFlightDetails(r3.value, "AI101") == Ok(Flight("Air India", "New York", ["Alice", "Bob"]))
            && GetFlightDetails(r3.value, "XX999") == Err(DoesNotExist)
            && |GetAllFlights(r3.value)| == 1
  {
    var r1 := AddFlight(NewRegistry(), "AI101", "Air India", "New York").value;
    assert r1 == map["AI101" := Flight("Air India", "New York", [])];
    assert [] + ["Alice"] == ["Alice"];
    assert ["Alice"] + ["Bob"] == ["Alice", "Bob"];
    var r2 := CheckInPassenger(r1, "AI101", "Alice").value;
    assert r2 == map["AI101" := Flight("Air India", "New York", ["Alice"])];
    var r3 := CheckInPassenger(r2, "AI101", "Bob").value;
    assert r3 == map["AI101" := Flight("Air India", "New York", ["Alice", "Bob"])];
    assert "XX999" != "AI101";
  }

  /** Three adds list three flights; removing AI101 lists two and AI101 has no
      details any more. */
  lemma AddRemoveScenario()
    ensures var r1 := AddFlight(NewRegistry(), "AI101", "Air India", "New York");
            && r1.Ok?
            && var r2 := AddFlight(r1.value, "EK303", "Emirates", "Dubai");
            && r2.Ok?
            && var r3 := AddFlight(r2.value, "LH404", "Lufthansa", "Frankfurt");
            && r3.Ok?
            && |GetAllFlights(r3.value)| == 3
            && var r4 := RemoveFlight(r3.value, "AI101");
            && r4.Ok?
            && |GetAllFlights(r4.value)| == 2
            && GetFlightDetails(r4.value, "AI101") == Err(DoesNotExist)
  {
  }
}
