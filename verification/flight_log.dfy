/**
 The registry as a caller drives it: a log of calls applied one after another,
 each either committing its new registry or raising an error and leaving the
 registry as it was. The main result characterises the registry a log produces
 without replaying it: a flight is present exactly when, after its last removal,
 some add named it, and its record is that add's airline and destination with
 the names of every later check-in for it, in order.
 */
module FlightLog {
  import opened AirportManagement

  /** One call on the registry. */
  datatype Op =
    | Add(number: FlightNumber, airline: string, destination: string)
    | Remove(number: FlightNumber)
    | CheckIn(number: FlightNumber, passenger: string)
    | Details(number: FlightNumber)
    | All

  /** What a call gives back to its caller. */
  datatype Reply =
    | Done
    | Record(flight: Flight)
    | Flights(flights: map<FlightNumber, Flight>)
    | Raised(error: Error)

  /** The registry after a call, and the call's reply. */
  datatype Outcome = Outcome(registry: Registry, reply: Reply)

  datatype Option<+T> = None | Some(value: T)

  /** Commits the registry an update returns, or keeps the old one if it failed. */
  function Commit(reg: Registry, r: Result<Registry>): Outcome
  {
    match r
    case Ok(next) => Outcome(next, Done)
    case Err(e) => Outcome(reg, Raised(e))
  }

  /** Performs one call. A call that raises leaves the registry untouched, reads
      never change it, and no call touches a flight other than the one it names. */
  function Step(reg: Registry, op: Op): (o: Outcome)
    ensures o.reply.Raised? <==>
              || (op.Add? && op.number in reg)
              || ((op.Remove? || op.CheckIn? || op.Details?) && op.number !in reg)
    ensures o.reply.Raised? ==> o.registry == reg
    ensures op.Details? || op.All? ==> o.registry == reg
    ensures op.All? ==> o.reply == Flights(reg)
    ensures !op.All? ==> SameElsewhere(reg, o.registry, op.number)
    ensures op.Details? && op.number in reg ==> o.reply == Record(reg[op.number])
    ensures o.reply.Raised? ==> o.reply.error == (if op.Add? then AlreadyExists else DoesNotExist)
    ensures !o.reply.Raised? && (op.Add? || op.Remove? || op.CheckIn?) ==> o.reply == Done
  {
    match op
    case Add(n, a, d) => Commit(reg, AddFlight(reg, n, a, d))
    case Remove(n) => Commit(reg, RemoveFlight(reg, n))
    case CheckIn(n, p) => Commit(reg, CheckInPassenger(reg, n, p))
    case Details(n) =>
      (match GetFlightDetails(reg, n)
       case Ok(f) => Outcome(reg, Record(f))
       case Err(e) => Outcome(reg, Raised(e)))
    case All => Outcome(reg, Flights(GetAllFlights(reg)))
  }

  /** The registry after performing the calls of `ops` in order, starting from `start`. */
  function Replay(start: Registry, ops: seq<Op>): Registry
    decreases |ops|
  {
    if |ops| == 0 then start
    else Step(Replay(start, ops[..|ops| - 1]), ops[|ops| - 1]).registry
  }

  /** The calls of `ops` after the last removal of flight `n` (all of them if
      `n` was never removed). */
  function SinceLastRemoval(ops: seq<Op>, n: FlightNumber): (s: seq<Op>)
    ensures |s| <= |ops|
    ensures forall i :: 0 <= i < |s| ==> s[i] == ops[|ops| - |s| + i]
    ensures forall i :: 0 <= i < |s| ==> s[i] != Remove(n)
    ensures |s| < |ops| ==> ops[|ops| - |s| - 1] == Remove(n)
    decreases |ops|
  {
    if |ops| == 0 then []
    else if ops[|ops| - 1] == Remove(n) then []
    else SinceLastRemoval(ops[..|ops| - 1], n) + [ops[|ops| - 1]]
  }

  /** True if `op` is an add of flight `n`. */
  predicate AddsFlight(op: Op, n: FlightNumber)
  {
    op.Add? && op.number == n
  }

  /** The position of the first add of flight `n` in `ops`, if there is one. */
  function FirstAdd(ops: seq<Op>, n: FlightNumber): (r: Option<nat>)
    ensures r.Some? ==> r.value < |ops| && AddsFlight(ops[r.value], n)
    ensures r.Some? ==> forall j :: 0 <= j < r.value ==> !AddsFlight(ops[j], n)
    ensures r.None? ==> forall j :: 0 <= j < |ops| ==> !AddsFlight(ops[j], n)
  {
    if |ops| == 0 then None
    else if AddsFlight(ops[0], n) then Some(0)
    else
      match FirstAdd(ops[1..], n)
      case None => None
      case Some(i) => Some(i + 1)
  }

  /** The names checked in to flight `n` by the calls of `ops`, in call order. */
  function CheckedIn(ops: seq<Op>, n: FlightNumber): seq<string>
  {
    if |ops| == 0 then []
    else if ops[0].CheckIn? && ops[0].number == n then [ops[0].passenger] + CheckedIn(ops[1..], n)
    else CheckedIn(ops[1..], n)
  }

  /** The record of flight `n` described by a stretch of calls with no removal of
      `n`, starting from a registry without `n`: absent unless some add named it;
      otherwise the first such add's airline and destination, with every name
      checked in to it after that add. Earlier check-ins and later adds fail and
      leave no trace. */
  function SegmentView(seg: seq<Op>, n: FlightNumber): Option<Flight>
  {
    match FirstAdd(seg, n)
    case None => None
    case Some(i) => Some(Flight(seg[i].airline, seg[i].destination, CheckedIn(seg[i + 1..], n)))
  }

  /** The record of flight `n` after the calls of `ops` from a new registry, read
      off the log alone: what the calls after `n`'s last removal describe. */
  function HistoryView(ops: seq<Op>, n: FlightNumber): Option<Flight>
  {
    SegmentView(SinceLastRemoval(ops, n), n)
  }

  /** The record of flight `n` in `reg`, if any. */
  function Lookup(reg: Registry, n: FlightNumber): Option<Flight>
  {
    if n in reg then Some(reg[n]) else None
  }

  /** What one call other than a removal of `n` does to the record of `n`:
      an add creates it if it is absent, a check-in appends to it if present. */
  function Extend(v: Option<Flight>, op: Op, n: FlightNumber): Option<Flight>
  {
    if AddsFlight(op, n) then (if v.Some? then v else Some(Flight(op.airline, op.destination, [])))
    else if v.Some? && op.CheckIn? && op.number == n then Some(v.value.(passengers := v.value.passengers + [op.passenger]))
    else v
  }

  /** The first add in a log extended by one call. */
  lemma {:induction false} FirstAddAppend(ops: seq<Op>, op: Op, n: FlightNumber)
    ensures FirstAdd(ops + [op], n)
            == if FirstAdd(ops, n).Some? then FirstAdd(ops, n)
               else if AddsFlight(op, n) then Some(|ops|)
               else None
    decreases |ops|
  {
    if |ops| > 0 {
      assert (ops + [op])[1..] == ops[1..] + [op];
      FirstAddAppend(ops[1..], op, n);
    }
  }

  /** The check-ins of a log extended by one call. */
  lemma {:induction false} CheckedInAppend(ops: seq<Op>, op: Op, n: FlightNumber)
    ensures CheckedIn(ops + [op], n)
            == CheckedIn(ops, n) + (if op.CheckIn? && op.number == n then [op.passenger] else [])
    decreases |ops|
  {
    if |ops| == 0 {
      assert CheckedIn([op], n) == (if op.CheckIn? && op.number == n then [op.passenger] else []) + CheckedIn([], n);
    } else {
      assert (ops + [op])[1..] == ops[1..] + [op];
      CheckedInAppend(ops[1..], op, n);
    }
  }

  /** One more call on a stretch without removals of `n` changes the described
      record of `n` as that call would. */
  lemma SegmentViewAppend(seg: seq<Op>, op: Op, n: FlightNumber)
    ensures SegmentView(seg + [op], n) == Extend(SegmentView(seg, n), op, n)
  {
    var seg' := seg + [op];
    FirstAddAppend(seg, op, n);
    match FirstAdd(seg, n)
    case None =>
      if AddsFlight(op, n) {
        assert FirstAdd(seg', n) == Some(|seg|);
        assert seg'[|seg| + 1..] == [];
      }
    case Some(i) =>
      assert FirstAdd(seg', n) == Some(i);
      assert seg'[i] == seg[i];
      assert seg'[i + 1..] == seg[i + 1..] + [op];
      CheckedInAppend(seg[i + 1..], op, n);
      var extra := if op.CheckIn? && op.number == n then [op.passenger] else [];
      assert SegmentView(seg', n)
             == Some(Flight(seg[i].airline, seg[i].destination, CheckedIn(seg[i + 1..], n) + extra));
      if !(op.CheckIn? && op.number == n) {
        assert CheckedIn(seg[i + 1..], n) + extra == CheckedIn(seg[i + 1..], n);
      }
  }

  /** The history view of a log extended by one call: a removal of `n` empties it,
      any other call extends it as that call would. */
  lemma HistoryViewAppend(ops: seq<Op>, op: Op, n: FlightNumber)
    ensures op == Remove(n) ==> HistoryView(ops + [op], n) == None
    ensures op != Remove(n) ==> HistoryView(ops + [op], n) == Extend(HistoryView(ops, n), op, n)
  {
    assert (ops + [op])[..|ops|] == ops;
    if op != Remove(n) {
      assert SinceLastRemoval(ops + [op], n) == SinceLastRemoval(ops, n) + [op];
      SegmentViewAppend(SinceLastRemoval(ops, n), op, n);
    }
  }

  /** One call seen from flight `n`: a removal of `n` leaves it absent, and any
      other call changes its record exactly as `Extend` says. */
  lemma StepAtFlight(reg: Registry, op: Op, n: FlightNumber)
    ensures op == Remove(n) ==> Lookup(Step(reg, op).registry, n) == None
    ensures op != Remove(n) ==> Lookup(Step(reg, op).registry, n) == Extend(Lookup(reg, n), op, n)
  {
  }

  /** Replaying a log from a new registry gives, for every flight, exactly the
      record the log's history describes: the flight is present if and only if
      the view has a record for it, and then that record is the stored one. */
  lemma {:induction false} ReplayMatchesHistory(ops: seq<Op>, n: FlightNumber)
    ensures n in Replay(NewRegistry(), ops) <==> HistoryView(ops, n).Some?
    ensures n in Replay(NewRegistry(), ops) ==> Replay(NewRegistry(), ops)[n] == HistoryView(ops, n).value
    decreases |ops|
  {
    if |ops| == 0 {
      assert SinceLastRemoval(ops, n) == [];
    } else {
      var prefix := ops[..|ops| - 1];
      var op := ops[|ops| - 1];
      assert ops == prefix + [op];
      ReplayMatchesHistory(prefix, n);
      var reg := Replay(NewRegistry(), prefix);
      assert Lookup(reg, n) == HistoryView(prefix, n);
      HistoryViewAppend(prefix, op, n);
      StepAtFlight(reg, op, n);
      assert Lookup(Replay(NewRegistry(), ops), n) == HistoryView(ops, n);
    }
  }

  /** `k` copies of the same call. */
  function Repeat(op: Op, k: nat): seq<Op>
  {
    seq(k, _ => op)
  }

  /** Checking the same name in to a present flight `k` times appends it `k` times:
      the name's count goes up by exactly `k`, other names keep their count, and
      the flight's airline, destination and every other flight are unchanged.
      On an absent flight every one of those check-ins fails and nothing changes. */
  lemma {:induction false} RepeatedCheckIn(reg: Registry, n: FlightNumber, name: string, k: nat)
    ensures n !in reg ==> Replay(reg, Repeat(CheckIn(n, name), k)) == reg
    ensures n in reg ==> var after := Replay(reg, Repeat(CheckIn(n, name), k));
              && n in after
              && after[n].airline == reg[n].airline
              && after[n].destination == reg[n].destination
              && after[n].passengers == reg[n].passengers + seq(k, _ => name)
              && multiset(after[n].passengers)[name] == multiset(reg[n].passengers)[name] + k
              && (forall other :: other != name ==>
                    multiset(after[n].passengers)[other] == multiset(reg[n].passengers)[other])
              && SameElsewhere(reg, after, n)
    decreases k
  {
    if k > 0 {
      var ops := Repeat(CheckIn(n, name), k);
      assert ops[..k - 1] == Repeat(CheckIn(n, name), k - 1);
      RepeatedCheckIn(reg, n, name, k - 1);
      if n in reg {
        var before := Replay(reg, ops[..k - 1]);
        var after := Replay(reg, ops);
        assert after == CheckInPassenger(before, n, name).value;
        assert seq(k, _ => name) == seq(k - 1, _ => name) + [name];
        assert reg[n].passengers + seq(k, _ => name) == (reg[n].passengers + seq(k - 1, _ => name)) + [name];
      }
    }
  }
}

