# Airport flight registry — Dafny model

This project models `AirportManagement`, an in-memory flight registry. The registry
maps a flight number to a flight record. Each record holds an airline, a destination
and a passenger list. There are five operations: add a flight, remove a flight, check
a passenger in, read one flight's details, and read all flights.

The Python dictionary becomes an immutable `map<string, Flight>`. Each mutating
operation is a pure function that returns `Result<Registry>`: either `Ok` with the new
registry or `Err` with the error the Python class raises. Both of its failures
are `ValueError`s. They are kept apart here as two tags:

- `AlreadyExists` is returned by add.
- `DoesNotExist` is returned by remove, check-in and get-details.

A failing call returns no registry, so the caller still holds the unchanged map.
The code raises a plain `ValueError` for both; the model keeps them apart only by tag.

Modules:

- `AirportManagement` (`airport_management.dfy`) has the data model and the five
  operations. Their contracts state the full post-state: the key that changed, and
  that every other key and record is unchanged (`SameElsewhere`).
- `RegistryLaws` (`registry_laws.dfy`) relates the operations to each other. It covers
  reads after updates, remove undoing add, re-adding forgetting passengers, check-ins
  commuting across flights, and name counts.
- `FlightLog` (`flight_log.dfy`) drives the registry the way a caller does: a log of
  calls applied in order. A call that raises leaves the registry as it was. The
  central theorem, `ReplayMatchesHistory`, checks the replayed registry against a
  description read from the log alone, without replaying it. A flight is present
  exactly when some add named it after its last removal. Its record is the first such
  add's airline and destination. Its passengers are the names of every later
  check-in for it, in order.
- `Scenarios` (`scenarios.dfy`) states scenarios from the test suite as lemmas about
  the model.

## Model

| member | source | states |
|---|---|---|
| `AirportManagement.NewRegistry` | airport_management.py:2-4 | a new registry holds no flight at all, so its size is 0 |
| `AirportManagement.AddFlight` | airport_management.py:6-14 | fails with AlreadyExists exactly when the number is present; otherwise the number maps to the given airline and destination with no passengers, every other flight and record is unchanged, the key set gains just that number and the size grows by one |
| `AirportManagement.RemoveFlight` | airport_management.py:16-20 | fails with DoesNotExist exactly when the number is absent; otherwise the number is gone, every other flight and record is unchanged, and the size drops by one |
| `AirportManagement.CheckInPassenger` | airport_management.py:22-26 | fails with DoesNotExist exactly when the flight is absent; otherwise the flight's passengers are the old list followed by the name, its airline and destination are kept, and every other flight is unchanged |
| `AirportManagement.GetFlightDetails` | airport_management.py:28-32 | fails with DoesNotExist exactly when the flight is absent; otherwise returns the stored record |
| `AirportManagement.GetAllFlights` | airport_management.py:34-36 | lists exactly the flights whose details can be read, each with the record get-details returns for it |
| `RegistryLaws.NewRegistryIsEmpty` | test_airport_management.py:90-93 | a new registry lists zero flights and has details for none |
| `RegistryLaws.AddThenGet` | test_airport_management.py:11-14 | after adding an absent flight, its details are the given airline and destination with no passengers |
| `RegistryLaws.AddTwiceKeepsOriginal` | test_airport_management.py:16-19 | adding the same number a second time fails with AlreadyExists, whatever the new airline and destination, and the first record stays readable as added |
| `RegistryLaws.RemoveUndoesAdd` | airport_management.py:6-20 | removing a flight that was just added gives back exactly the registry from before the add |
| `RegistryLaws.ReAddForgetsPassengers` | airport_management.py:10-20 | removing a flight and adding it again with the same airline and destination restores it with an empty passenger list |
| `RegistryLaws.RemoveAbsentFails` | test_airport_management.py:26-29 | removing an absent flight fails with DoesNotExist and the flight still has no details |
| `RegistryLaws.RemoveThenGetAll` | test_airport_management.py:21-24 | after a removal the flight is missing from the full listing, and every other flight is still listed, with its old record |
| `RegistryLaws.CheckInsOnDistinctFlightsCommute` | airport_management.py:22-26 | check-ins on two different flights give the same registry in either order |
| `RegistryLaws.CheckInCountsOnce` | airport_management.py:26 | one check-in raises the name's count in the passenger list by one and leaves every other name's count as it was |
| `FlightLog.Step` | airport_management.py:1-36 | a call raises exactly in the error cases of the five operations; a raising call carries AlreadyExists for an add and DoesNotExist otherwise; a raising call and any read leave the registry unchanged; a successful add, remove or check-in replies Done; details reply with the stored record; get-all returns the whole map; no call changes a flight other than the one it names |
| `FlightLog.StepAtFlight` | airport_management.py:6-26 | seen from one flight, a removal leaves it absent; an add creates it only if it is absent; a check-in appends only if it is present; calls on other flights leave it as it was |
| `FlightLog.ReplayMatchesHistory` | airport_management.py:1-36 | for every log of calls from a new registry and every flight, the flight is present if and only if some add named it after its last removal; its record is then that first add's airline and destination with the names of all later check-ins for it, in order |
| `FlightLog.RepeatedCheckIn` | test_airport_management.py:44-49 | checking one name in k times appends it k times: its count rises by exactly k, other names keep their counts, and airline, destination and other flights are unchanged; on an absent flight every such check-in fails and nothing changes |
| `Scenarios.CheckInScenario` | test_airport_management.py:36-42 | add AI101 and check in Alice then Bob: the details list Air India, New York and the passengers Alice and Bob in order; XX999 has no details; one flight is listed |
| `Scenarios.AddRemoveScenario` | test_airport_management.py:78-88 | three adds list three flights; removing AI101 leaves two, and AI101 then has no details |

## Left out

- The `print` in the class body (airport_management.py:39) is console output at class-definition time and does not affect the registry.
- Aliasing is not modelled. `get_flight_details` and `get_all_flights` return the live internal dict and list, so a caller could change the registry through them. Here both are pure reads that return values.
- Exception message strings and the `ValueError` type are not modelled. The two error tags keep the "already exists" and "does not exist" cases apart.
- The order in which get-all lists flights is not modelled; only the number-to-record mapping is. The Python dictionary returned by `get_all_flights` (airport_management.py:36) iterates in insertion order, so removing a flight and adding it again moves it to the end, while a Dafny `map` has no order.
- The unittest test runner is not modelled. Its assertions appear only as the scenario and law lemmas above.
