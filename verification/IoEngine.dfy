/**
  Handing units to the I/O engine and taking them back: `td_io_queue`, `td_io_commit` and `td_io_getevents` of
  `ioengines.c`, with what `do_io` (`backend.c`) and the completion code (`io_u.c`) do about the answer.
 */
module IoEngine {
  import opened Bits
  import opened Common
  import opened IoUQueue

  /**
    What comes of an attempt. A unit that the engine completed at once is done, has transferred a part (`Short`),
    nothing (`Empty`), or an error (`Faulty`); otherwise it was queued, or the engine was busy or refused it.
   */
  datatype Answer = Done | Short | Empty | Faulty | Queued | Busy | Refused

  /** `ddir_rw`. */
  predicate Transfers(d: Ddir) {
    d != Sync
  }

  /** `do_io` puts the unit back without clearing FLIGHT. */
  predicate GivesUp(a: Answer) {
    a.Empty? || a.Refused?
  }

  /** The units given up in a series of attempts. */
  ghost function GivenUp(answers: seq<(IoU, Answer)>): set<IoU> {
    set e | e in answers && GivesUp(e.1) :: e.0
  }

  lemma OneMoreAnswer(answers: seq<(IoU, Answer)>, u: IoU, a: Answer)
    ensures GivenUp(answers + [(u, a)]) == GivenUp(answers) + if GivesUp(a) then {u} else {}
  {
    var more := answers + [(u, a)];
    assert (u, a) in more;
    assert forall e :: e in more <==> e in answers || e == (u, a);
  }

  ghost function Going(units: set<IoU>, d: Ddir): set<IoU>
    reads units`ddir
  {
    set u | u in units && u.ddir == d
  }

  /** The two counters, what waits and what is in flight; and what a commit makes of them. */
  type Counters = (U32, U32)

  function Committed(c: Counters): Counters {
    (0, Wrap(c.0 + c.1))
  }

  /** Another unit has been queued. */
  function OneMore(c: Counters, transfers: bool, batch: U32, depth: nat): Counters {
    var waiting := if transfers then Wrap(c.0 + 1) else c.0;
    if waiting >= batch && depth != 0 then Committed((waiting, c.1)) else (waiting, c.1)
  }

  class Submission {
    const batch: U32                 // iodepth_batch
    const units: set<IoU>
    var queued: U32                  // io_u_queued
    var inFlight: U32                // io_u_in_flight
    var issues: map<Ddir, int>       // io_issues
    var engine: set<IoU>             // what the engine has queued and not handed back
    // history
    ghost var answers: seq<(IoU, Answer)>   // every attempt so far, and what came of it
    ghost var syncs: nat             // queued units that transfer nothing
    ghost var settled: map<Ddir, int> // I/Os that are over, well or badly
    ghost var laps: int              // how often the counters have wrapped

    ghost predicate Valid()
      reads this, units`flight, units`ddir
    {
      FlightOk() && CountersOk() && IssuesOk()
    }

    /** FLIGHT is set on the units in the engine, and on those that have been given up. */
    ghost predicate FlightOk()
      reads this`engine, this`answers, units`flight
    {
      engine <= units && |units| < 0x8000_0000 && FlightFor(GivenUp(answers))
    }

    ghost predicate FlightFor(givenUp: set<IoU>)
      reads this`engine, units`flight
    {
      && engine !! givenUp && givenUp <= units
      && forall u :: u in units ==> (u.flight <==> u in engine || u in givenUp)
    }

    ghost function Counts(): Counters
      reads this`queued, this`inFlight
    {
      (queued, inFlight)
    }

    ghost predicate CountersOk()
      reads this`engine, this`queued, this`inFlight, this`syncs, this`laps
    {
      queued + inFlight == |engine| - syncs + 0x1_0000_0000 * laps
    }

    /** Every I/O is counted once, however often it has been tried. */
    ghost predicate IssuesOk()
      reads this`engine, this`issues, this`settled, units`ddir
    {
      && engine <= units
      && forall d :: Transfers(d) ==> d in issues && d in settled && issues[d] == settled[d] + |Going(engine, d)|
    }

    constructor (batch: U32, units: set<IoU>)
      requires |units| < 0x8000_0000 && forall u :: u in units ==> !u.flight
      ensures Valid() && this.units == units && this.batch == batch && engine == {} && queued == inFlight == 0
      ensures answers == [] && syncs == 0
    {
      this.batch, this.units := batch, units;
      queued, inFlight, engine := 0, 0, {};
      issues := map[Read := 0, Write := 0, Trim := 0];
      answers, syncs, settled, laps := [], 0, map[Read := 0, Write := 0, Trim := 0], 0;
    }

    // ----- What the invariant says about any reachable state

    /** The assertion of `td_io_queue` holds for a unit exactly when no attempt with it came out empty or refused. */
    lemma AssertionHoldsIff(u: IoU)
      requires Valid() && u in units && u !in engine
      ensures !u.flight <==> forall e :: e in answers && e.0 == u ==> !GivesUp(e.1)
    {
      assert u in GivenUp(answers) <==> exists e :: e in answers && GivesUp(e.1) && e.0 == u;
    }

    /** The two counters together are exact as long as no sync has been queued (but for 2^32 of them). */
    lemma SumExactIff()
      requires Valid()
      ensures Wrap(queued + inFlight) == |engine| <==> syncs % 0x1_0000_0000 == 0
    {
      SubsetSize(engine, units);
      WrapsTo(queued + inFlight, |engine|, syncs, laps);
    }

    /** The second counter alone is exact if and only if, besides, nothing waits for a commit. */
    lemma InFlightExactIff()
      requires Valid()
      ensures inFlight == |engine| <==> (queued + syncs) % 0x1_0000_0000 == 0
    {
      SubsetSize(engine, units);
      WrapsTo(inFlight, |engine|, queued + syncs, laps);
    }

    // ----- Operations

    /** `td_io_commit`; the engine's own hook changes none of this. */
    method Commit(depth: nat)
      requires CountersOk()
      modifies this`queued, this`inFlight, this`laps
      ensures CountersOk()
      ensures Counts() == if depth == 0 then old(Counts()) else Committed(old(Counts()))
    {
      if depth == 0 || queued == 0 {
        return;
      }
      if inFlight + queued >= 0x1_0000_0000 {
        laps := laps - 1;
      }
      inFlight := Wrap(inFlight + queued);
      queued := 0;
    }

    /** The rest of it, when the engine has queued the unit: in time for a commit, if enough are waiting. */
    method Enqueue(u: IoU, depth: nat)
      requires u in units && u !in engine && engine <= units && |units| < 0x8000_0000 && CountersOk()
      modifies this`queued, this`inFlight, this`laps, this`engine, this`syncs
      ensures CountersOk() && engine == old(engine) + {u}
      ensures syncs == old(syncs) + (if Transfers(u.ddir) then 0 else 1)
      ensures Counts() == OneMore(old(Counts()), Transfers(u.ddir), batch, depth)
    {
      engine := engine + {u};
      if Transfers(u.ddir) {
        if queued + 1 == 0x1_0000_0000 {
          laps := laps - 1;
        }
        queued := Wrap(queued + 1);
      } else {
        syncs := syncs + 1;
      }
      if queued >= batch {
        Commit(depth);
      }
    }

    /** IssuesOk while u, in nobody's hands, is counted as well. */
    ghost predicate IssuesBut(u: IoU)
      reads this`engine, this`issues, this`settled, units`ddir, u`ddir
    {
      && engine <= units
      && forall d :: Transfers(d) ==>
          (d in issues && d in settled && issues[d] == settled[d] + |Going(engine, d)| + (if d == u.ddir then 1 else 0))
    }

    /** The engine has looked at u; everything else is in order. */
    ghost predicate InHand(u: IoU)
      reads this, units`flight, units`ddir, u`flight, u`ddir
    {
      && u in units && u.flight && engine <= units && |units| < 0x8000_0000
      && FlightBut(u, GivenUp(answers)) && CountersOk() && IssuesBut(u)
    }

    ghost predicate FlightBut(u: IoU, givenUp: set<IoU>)
      reads this`engine, units`flight
    {
      && u !in engine && u !in givenUp && engine !! givenUp && givenUp <= units
      && forall v :: v in units && v != u ==> (v.flight <==> v in engine || v in givenUp)
    }

    /** `td_io_queue` up to the engine's answer; the unit must meet its assertion on FLIGHT. */
    method Hand(u: IoU)
      requires Valid() && u in units && !u.flight
      modifies u`flight, this`issues
      ensures InHand(u)
    {
      u.flight := true;
      if Transfers(u.ddir) {
        issues := issues[u.ddir := issues[u.ddir] + 1];
      }
    }

    /** The history after one more I/O of unit u is over. */
    ghost function OneSettled(u: IoU): map<Ddir, int>
      requires Transfers(u.ddir) ==> u.ddir in settled
      reads this`settled, u`ddir
    {
      if Transfers(u.ddir) then settled[u.ddir := settled[u.ddir] + 1] else settled
    }

    /** The I/O is over; FLIGHT is cleared. */
    method Finish(u: IoU)
      requires InHand(u)
      modifies this`settled, u`flight
      ensures Valid() && settled == old(OneSettled(u)) && !u.flight
    {
      Settle(u);
      u.flight := false;
    }

    /** The I/O is over, and the unit is put back as it is. */
    method GiveUp(u: IoU, answer: Answer)
      requires InHand(u) && GivesUp(answer)
      modifies this`settled, this`answers
      ensures Valid() && settled == old(OneSettled(u)) && answers == old(answers) + [(u, answer)] && u.flight
    {
      Settle(u);
      Spoil(u, answer);
    }

    ghost method Settle(u: IoU)
      requires IssuesBut(u)
      modifies this`settled
      ensures IssuesOk() && settled == old(OneSettled(u))
    {
      settled := OneSettled(u);
    }

    ghost method Spoil(u: IoU, answer: Answer)
      requires u in units && u.flight && FlightBut(u, GivenUp(answers)) && GivesUp(answer)
      modifies this`answers
      ensures FlightFor(GivenUp(answers)) && answers == old(answers) + [(u, answer)]
    {
      OneMoreAnswer(answers, u, answer);
      answers := answers + [(u, answer)];
    }

    /** Any other answer gives no unit up. */
    ghost method Note(u: IoU, answer: Answer)
      requires InHand(u) && !GivesUp(answer)
      modifies this`answers
      ensures InHand(u) && answers == old(answers) + [(u, answer)]
    {
      OneMoreAnswer(answers, u, answer);
      answers := answers + [(u, answer)];
    }

    /** What `requeue_io_u` does here: another try, for which the I/O will be counted again. */
    method TryAgain(u: IoU)
      requires InHand(u)
      modifies u`flight, this`issues
      ensures Valid() && !u.flight
    {
      if u.flight && Transfers(u.ddir) {
        issues := issues[u.ddir := issues[u.ddir] - 1];
      }
      u.flight := false;
    }

    /** The same when the engine is busy, which calls for a commit. */
    method Bounce(u: IoU, depth: nat)
      requires InHand(u)
      modifies this`queued, this`inFlight, this`laps, u`flight, this`issues
      ensures Valid() && !u.flight
      ensures Counts() == if depth > 0 then Committed(old(Counts())) else old(Counts())
    {
      TryAgain(u);
      Commit(depth);
    }

    /** The engine keeps the unit. */
    method Keep(u: IoU, depth: nat)
      requires InHand(u)
      modifies this`queued, this`inFlight, this`laps, this`engine, this`syncs
      ensures Valid() && engine == old(engine) + {u} && u.flight
      ensures syncs == old(syncs) + (if Transfers(u.ddir) then 0 else 1)
      ensures Counts() == OneMore(old(Counts()), Transfers(u.ddir), batch, depth)
    {
      MoreGoing(engine, u);
      Enqueue(u, depth);
    }

    /** What becomes of the unit and of the counters, according to the answer. */
    method Answered(u: IoU, answer: Answer, depth: nat)
      requires InHand(u)
      modifies this`queued, this`inFlight, this`laps, this`engine, this`syncs, this`issues, this`settled, this`answers
      modifies u`flight
      ensures Valid() && u.flight == (answer.Queued? || GivesUp(answer))
      ensures engine == if answer.Queued? then old(engine) + {u} else old(engine)
      ensures answers == old(answers) + [(u, answer)]
      ensures syncs == old(syncs) + (if answer.Queued? && !Transfers(u.ddir) then 1 else 0)
      ensures settled == if answer.Done? || answer.Faulty? || GivesUp(answer) then old(OneSettled(u)) else old(settled)
      ensures Counts() == if answer.Queued? then OneMore(old(Counts()), Transfers(u.ddir), batch, depth)
        else if answer.Busy? && depth > 0 then Committed(old(Counts())) else old(Counts())
    {
      if GivesUp(answer) {
        GiveUp(u, answer);
      } else {
        Note(u, answer);
        Dispose(u, answer, depth);
      }
    }

    method Dispose(u: IoU, answer: Answer, depth: nat)
      requires InHand(u) && !GivesUp(answer)
      modifies this`queued, this`inFlight, this`laps, this`engine, this`syncs, this`issues, this`settled, u`flight
      ensures Valid() && u.flight == answer.Queued?
      ensures engine == if answer.Queued? then old(engine) + {u} else old(engine)
      ensures syncs == old(syncs) + (if answer.Queued? && !Transfers(u.ddir) then 1 else 0)
      ensures settled == if answer.Done? || answer.Faulty? then old(OneSettled(u)) else old(settled)
      ensures Counts() == if answer.Queued? then OneMore(old(Counts()), Transfers(u.ddir), batch, depth)
        else if answer.Busy? && depth > 0 then Committed(old(Counts())) else old(Counts())
    {
      match answer
      case Done | Faulty => Finish(u);
      case Short => TryAgain(u);
      case Busy => Bounce(u, depth);
      case Queued => Keep(u, depth);
    }

    /** `td_io_queue` on a unit, and what `do_io` does about the answer. */
    method Issue(u: IoU, answer: Answer, depth: nat)
      requires Valid() && u in units && !u.flight
      modifies this`queued, this`inFlight, this`laps, this`engine, this`syncs, this`issues, this`settled, this`answers
      modifies u`flight
      ensures Valid() && u.flight == (answer.Queued? || GivesUp(answer))
      ensures engine == if answer.Queued? then old(engine) + {u} else old(engine)
      ensures answers == old(answers) + [(u, answer)]
      ensures syncs == old(syncs) + (if answer.Queued? && !Transfers(u.ddir) then 1 else 0)
      ensures settled == if answer.Done? || answer.Faulty? || GivesUp(answer) then old(OneSettled(u)) else old(settled)
      ensures Counts() == if answer.Queued? then OneMore(old(Counts()), Transfers(u.ddir), batch, depth)
        else if answer.Busy? && depth > 0 then Committed(old(Counts())) else old(Counts())
    {
      Hand(u);
      Answered(u, answer, depth);
    }

    lemma MoreGoing(s: set<IoU>, u: IoU)
      requires u !in s
      ensures forall d :: |Going(s + {u}, d)| == |Going(s, d)| + (if d == u.ddir then 1 else 0)
    {
      forall d ensures |Going(s + {u}, d)| == |Going(s, d)| + (if d == u.ddir then 1 else 0) {
        assert Going(s + {u}, d) == if d == u.ddir then Going(s, d) + {u} else Going(s, d);
      }
    }

    /** `td_io_getevents` and the completions: the engine hands back some of its units. */
    method GetEvents(events: set<IoU>)
      requires Valid() && events <= engine
      modifies this`inFlight, this`laps, this`engine, this`settled, events`flight
      ensures Valid() && engine == old(engine) - events
      ensures inFlight == if |events| <= old(inFlight) then old(inFlight) - |events|
        else old(inFlight) - |events| + 0x1_0000_0000
    {
      SubsetSize(events, units);
      if |events| > inFlight {
        laps := laps + 1;
        inFlight := inFlight - |events| + 0x1_0000_0000;
      } else {
        inFlight := inFlight - |events|;
      }
      CompleteAll(events);
    }

    /** `ios_completed`. */
    method CompleteAll(events: set<IoU>)
      requires FlightOk() && IssuesOk() && events <= engine
      modifies this`engine, this`settled, events`flight
      ensures FlightOk() && IssuesOk() && engine == old(engine) - events && |engine| == |old(engine)| - |events|
    {
      ghost var before, others := |engine|, engine - events;
      var rest := events;
      while rest != {}
        invariant rest <= events && engine == others + rest && others !! rest
        invariant FlightOk() && IssuesOk() && |engine| == before - |events| + |rest|
        decreases |rest|
      {
        var u :| u in rest;
        IoCompleted(u);
        assert others + rest - {u} == others + (rest - {u});
        rest := rest - {u};
      }
    }

    /** `io_completed`, whose assertion holds. */
    method IoCompleted(u: IoU)
      requires FlightOk() && IssuesOk() && u in engine
      modifies this`engine, this`settled, u`flight
      ensures FlightOk() && IssuesOk() && engine == old(engine) - {u} && |engine| == |old(engine)| - 1
    {
      assert u.flight;
      u.flight := false;
      engine := engine - {u};
      MoreGoing(engine, u);
      assert engine + {u} == old(engine);
      Settle(u);
    }

    /**
      `io_u_quiesce`. Each wait brings back something as long as the engine has something; when it has nothing, the
      wait never ends. The engine is drained and the loop left exactly if nothing waits for a commit and no sync has
      been queued (but for multiples of 2^32); else the loop is left too early, or never.
     */
    method Quiesce() returns (ended: bool)
      requires Valid()
      modifies this`inFlight, this`laps, this`engine, this`settled, units`flight
      ensures Valid() && engine <= old(engine)
      ensures if ended then inFlight == 0 else inFlight != 0 && engine == {}
      ensures ended && engine == {} <==> (queued + syncs) % 0x1_0000_0000 == 0
      ensures old(engine) == {} ==> ended == (old(inFlight) == 0)
    {
      InFlightExactIff();
      while inFlight != 0
        invariant Valid() && engine <= old(engine)
        invariant inFlight == |engine| <==> (queued + syncs) % 0x1_0000_0000 == 0
        invariant old(engine) == {} ==> inFlight == old(inFlight)
        decreases |engine|
      {
        if engine == {} {
          return false;
        }
        var events: set<IoU> := *;
        if !(events <= engine && events != {}) {
          var u :| u in engine;
          events := {u};
        }
        SubsetSize(events, engine);
        GetEvents(events);
        InFlightExactIff();
      }
      return true;
    }
  }

  /**
    With a unit that waits to be committed the engine can hand back more than was counted as in flight. The engine is
    then empty, and from such a state Quiesce does not end.
   */
  method InFlightWraps() returns (job: Submission)
    ensures fresh(job) && job.Valid() && job.engine == {} && job.queued == 1 && job.inFlight == 0xFFFF_FFFF
  {
    var u;
    job, u := OneWaiting();
    job.GetEvents({u});
  }

  method OneWaiting() returns (job: Submission, u: IoU)
    ensures fresh(job) && fresh(u) && job.Valid() && job.engine == {u} && job.Counts() == (1, 0)
  {
    u := new IoU();
    u.ddir := Read;
    job := new Submission(2, {u});
    job.Issue(u, Queued, 1);
  }

  /** A unit with which a read has come out empty, and which fails the assertion when it is handed out again. */
  method EmptyReadSpoils() returns (job: Submission, u: IoU)
    ensures fresh(job) && job.Valid() && u in job.units && u !in job.engine && u.flight
    ensures job.answers == [(u, Empty)]
  {
    u := new IoU();
    u.ddir := Read;
    job := new Submission(1, {u});
    job.Issue(u, Empty, 1);
  }

  lemma WrapsTo(x: nat, n: nat, s: nat, laps: int)
    requires n < 0x1_0000_0000 && x == n - s + 0x1_0000_0000 * laps
    ensures Wrap(x) == n <==> s % 0x1_0000_0000 == 0
  {
  }
}
