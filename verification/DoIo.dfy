/**
  The main loop of a job, `do_io` of `backend.c`: units move between the job's own containers (IoUnits) and the engine
  (IoEngine).
 */
module DoIo {
  import opened IoUQueue
  import opened IoUnits
  import opened IoEngine

  /** The engine has units that somebody holds, and each of them carries a file. */
  ghost predicate Joint(td: ThreadData, job: Submission)
    reads td, td.freelist, td.freelist.ious, td.requeues, td.requeues.ring, td.units, td.files, job, job.units
  {
    && td.Valid() && td.PickerOk() && job.Valid() && Matched(td, job)
  }

  ghost predicate Matched(td: ThreadData, job: Submission)
    reads td`held, job`engine, job.engine`file
  {
    && job.units == td.units && job.engine <= td.held
    && forall u :: u in job.engine ==> u.file != null
  }

  /** A file that a unit in the engine carries is open, and the unit is on neither of the containers. */
  lemma InEngine(td: ThreadData, job: Submission, u: IoU)
    requires Joint(td, job) && u in job.engine
    ensures u.file in td.files && u.file.open
    ensures u !in td.freelist.Contents && u !in td.requeues.Contents
  {
    SplitPlaces(td.units, td.freelist.Contents, td.requeues.Contents, td.held, u);
    assert u in td.Carriers(u.file);
    td.CarriersKeepOpen(u.file);
  }

  /** No unit that was given up is held: it stays where `do_io` put it. */
  ghost predicate GivenUpIdle(td: ThreadData, job: Submission)
    reads td`held, job`answers
  {
    GivenUp(job.answers) !! td.held
  }

  /** `cleanup_pending_aio` puts back units with FLIGHT set; each is then in one place only exactly if it was held. */
  lemma PutSafeIff(td: ThreadData, u: IoU)
    requires td.UnitsOk() && u in td.units
    ensures u in td.held <==> Split(td.units, td.freelist.Contents + [u], td.requeues.Contents, td.held - {u})
  {
    var free, ring, held := td.freelist.Contents, td.requeues.Contents, td.held;
    if u in held {
      SplitGive(td.units, free, ring, held, u);
    } else {
      assert held - {u} == held;
      SplitCounts(td.units, free, ring, held);
      if Split(td.units, free + [u], ring, held) {
        SplitCounts(td.units, free + [u], ring, held);
      }
    }
  }

  /** So the clean-up is safe whatever the engine cancels exactly if no attempt has come out empty or refused. */
  lemma CancelSafeIff(td: ThreadData, job: Submission)
    requires Joint(td, job) && GivenUpIdle(td, job)
    ensures (forall u :: u in td.units && u.flight ==> u in td.held) <==>
      forall e :: e in job.answers ==> !GivesUp(e.1)
  {
    forall e | e in job.answers && GivesUp(e.1) ensures e.0 in td.units && e.0.flight && e.0 !in td.held {
      assert e.0 in GivenUp(job.answers);
    }
  }

  lemma IdleKept(held: set<IoU>, answers: seq<(IoU, Answer)>, u: IoU, answer: Answer)
    requires GivenUp(answers) !! held && u !in held && u !in GivenUp(answers)
    ensures GivenUp(answers + [(u, answer)]) !! if answer.Queued? then held + {u} else held
  {
    OneMoreAnswer(answers, u, answer);
  }

  /** `put_io_u` on a unit that the engine does not have. */
  method Put(td: ThreadData, job: Submission, u: IoU)
    requires Joint(td, job) && u in td.held && u !in job.engine
    modifies td, td.freelist, td.freelist.ious
    modifies u`file, u`free, td.files
    ensures Joint(td, job) && td.held == old(td.held) - {u}
    ensures td.freelist.Contents == old(td.freelist.Contents) + [u] && td.requeues.Contents == old(td.requeues.Contents)
  {
    td.PutIoU(u);
  }

  method Clear(td: ThreadData, job: Submission, u: IoU)
    requires Joint(td, job) && u in td.held && u !in job.engine && !u.flight
    modifies td, td.freelist, td.freelist.ious
    modifies u`file, u`free, u`flight, td.files
    ensures Joint(td, job) && td.held == old(td.held) - {u}
    ensures td.freelist.Contents == old(td.freelist.Contents) + [u] && td.requeues.Contents == old(td.requeues.Contents)
  {
    td.ClearIoU(u);
  }

  method Requeue(td: ThreadData, job: Submission, u: IoU)
    requires Joint(td, job) && u in td.held && u !in job.engine && !u.flight
    modifies td, td.requeues, td.requeues.ring, u`free, u`flight
    ensures Joint(td, job) && td.held == old(td.held) - {u}
    ensures td.requeues.Contents == old(td.requeues.Contents) + [u] && td.freelist.Contents == old(td.freelist.Contents)
  {
    td.RequeueIoU(u);
  }

  /** Where `do_io` puts a unit that the engine did not queue: back in the ring for another try, or on the stack. */
  method PutBack(td: ThreadData, job: Submission, u: IoU, answer: Answer)
    requires Joint(td, job) && u in td.held && u !in job.engine && !answer.Queued? && u.flight == GivesUp(answer)
    modifies td, td.freelist, td.freelist.ious, td.requeues, td.requeues.ring
    modifies u`file, u`free, u`flight, td.files
    ensures Joint(td, job) && td.held == old(td.held) - {u}
    ensures if answer.Short? || answer.Busy?
      then td.requeues.Contents == old(td.requeues.Contents) + [u] && td.freelist.Contents == old(td.freelist.Contents)
      else td.freelist.Contents == old(td.freelist.Contents) + [u] && td.requeues.Contents == old(td.requeues.Contents)
  {
    match answer
    case Short | Busy => Requeue(td, job, u);
    case Faulty => Clear(td, job, u);
    case Done | Empty | Refused => Put(td, job, u);
  }

  /** `get_io_u`. */
  method Take(td: ThreadData, job: Submission) returns (u: IoU?)
    requires Joint(td, job)
    modifies td, td.freelist, td.freelist.ious, td.requeues, td.files
    modifies td.units`free, td.units`inCurDepth, td.units`file
    ensures Joint(td, job)
    ensures u == null ==> td.held == old(td.held)
    ensures u != null ==> u in td.units && u !in old(td.held) && td.held == old(td.held) + {u} && u.file != null
  {
    u := td.NextIoU();
    if u != null {
      SplitPlaces(td.units, td.freelist.Contents, td.requeues.Contents, td.held, u);
    }
  }

  /** `td_io_queue` on a held unit: it is the engine's, or is put back. */
  method Submit(td: ThreadData, job: Submission, u: IoU, answer: Answer)
    requires Joint(td, job) && u in td.held && u in td.units && u.file != null && !u.flight
    modifies td, td.freelist, td.freelist.ious, td.requeues, td.requeues.ring
    modifies u`file, u`free, u`flight, td.files, job
    ensures Joint(td, job) && job.answers == old(job.answers) + [(u, answer)]
    ensures answer.Queued? ==> job.engine == old(job.engine) + {u} && td.held == old(td.held)
    ensures !answer.Queued? ==> job.engine == old(job.engine) && td.held == old(td.held) - {u}
  {
    Hand(td, job, u, answer, if answer.Busy? && td.curDepth > 0 then td.curDepth - 1 else td.curDepth);
    if !answer.Queued? {
      PutBack(td, job, u, answer);
    }
  }

  method Hand(td: ThreadData, job: Submission, u: IoU, answer: Answer, depth: nat)
    requires Joint(td, job) && u in td.held && u in td.units && u.file != null && !u.flight
    modifies u`flight, job
    ensures Joint(td, job) && job.answers == old(job.answers) + [(u, answer)]
    ensures job.engine == if answer.Queued? then old(job.engine) + {u} else old(job.engine)
    ensures u.flight == (answer.Queued? || GivesUp(answer)) && (u in job.engine ==> answer.Queued?)
  {
    Issued(td, job, u, answer, depth);
    assert td.UnitsOk();
    assert td.IdleOk();
    assert td.FilesOk();
  }

  method Issued(td: ThreadData, job: Submission, u: IoU, answer: Answer, depth: nat)
    requires job.Valid() && Matched(td, job) && u in td.held && u in td.units && u.file != null && !u.flight
    modifies u`flight, job
    ensures job.Valid() && Matched(td, job) && job.answers == old(job.answers) + [(u, answer)]
    ensures job.engine == if answer.Queued? then old(job.engine) + {u} else old(job.engine)
    ensures u.flight == (answer.Queued? || GivesUp(answer)) && (u in job.engine ==> answer.Queued?)
  {
    assert u !in job.engine;
    job.Issue(u, answer, depth);
  }

  /**
    One turn of the loop: a unit is taken and handed to the engine. The run is aborted exactly if an attempt with the
    unit has come out empty or refused before, by the assertion of `td_io_queue`.
   */
  method Turn(td: ThreadData, job: Submission, answer: Answer) returns (u: IoU?, aborted: bool)
    requires Joint(td, job)
    modifies td, td.freelist, td.freelist.ious, td.requeues, td.requeues.ring, td.files, job
    modifies td.units`free, td.units`inCurDepth, td.units`file, td.units`flight
    ensures Joint(td, job)
    ensures aborted <==> u != null && u in GivenUp(old(job.answers))
    ensures job.engine == if u != null && !aborted && answer.Queued? then old(job.engine) + {u} else old(job.engine)
    ensures td.held == if u != null && (aborted || answer.Queued?) then old(td.held) + {u} else old(td.held)
    ensures job.answers == if u != null && !aborted then old(job.answers) + [(u, answer)] else old(job.answers)
    ensures old(GivenUpIdle(td, job)) && !aborted ==> GivenUpIdle(td, job)
  {
    ghost var held, answers := td.held, job.answers;
    aborted := false;
    u := Take(td, job);
    if u == null {
      return;
    }
    if u.flight {
      aborted := true;
      return;
    }
    Submit(td, job, u, answer);
    if GivenUp(answers) !! held {
      IdleKept(held, answers, u, answer);
    }
  }

  /** `io_u_queued_complete`: what the engine hands back ends up on the free stack, and nothing else moves. */
  method Reap(td: ThreadData, job: Submission, events: set<IoU>) returns (ghost put: seq<IoU>)
    requires Joint(td, job) && events <= job.engine
    modifies td, td.freelist, td.freelist.ious, job, events`file, events`free, events`flight, td.files
    ensures Joint(td, job)
    ensures job.engine == old(job.engine) - events && td.held == old(td.held) - events
    ensures td.freelist.Contents == old(td.freelist.Contents) + put && multiset(put) == multiset(events)
    ensures unchanged(td.requeues)
    ensures old(GivenUpIdle(td, job)) ==> GivenUpIdle(td, job)
  {
    Collect(td, job, events);
    put := PutAll(td, job, events);
  }

  method Collect(td: ThreadData, job: Submission, events: set<IoU>)
    requires Joint(td, job) && events <= job.engine
    modifies events`flight, job
    ensures Joint(td, job) && job.engine == old(job.engine) - events && job.answers == old(job.answers)
  {
    Retrieve(td, job, events);
    assert td.UnitsOk();
    assert td.IdleOk();
    assert td.FilesOk();
  }

  method Retrieve(td: ThreadData, job: Submission, events: set<IoU>)
    requires job.Valid() && Matched(td, job) && events <= job.engine
    modifies events`flight, job
    ensures job.Valid() && Matched(td, job) && job.engine == old(job.engine) - events && job.answers == old(job.answers)
  {
    job.GetEvents(events);
  }

  method PutAll(td: ThreadData, job: Submission, events: set<IoU>) returns (ghost put: seq<IoU>)
    requires Joint(td, job) && events <= td.held && events !! job.engine
    modifies td, td.freelist, td.freelist.ious, events`file, events`free, td.files
    ensures Joint(td, job) && td.held == old(td.held) - events
    ensures td.freelist.Contents == old(td.freelist.Contents) + put && multiset(put) == multiset(events)
  {
    ghost var others, free := td.held - events, td.freelist.Contents;
    PutEach(td, job, events);
    put := AllMoved(td.units, free, td.freelist.Contents, td.requeues.Contents, others, events);
  }

  method PutEach(td: ThreadData, job: Submission, events: set<IoU>)
    requires Joint(td, job) && events <= td.held && events !! job.engine
    modifies td, td.freelist, td.freelist.ious, events`file, events`free, td.files
    ensures Joint(td, job) && td.held == old(td.held) - events
    ensures old(td.freelist.Contents) <= td.freelist.Contents
  {
    ghost var others, free := td.held - events, td.freelist.Contents;
    var rest := events;
    while rest != {}
      invariant Joint(td, job) && rest <= events && td.held == others + rest && others !! rest && rest !! job.engine
      invariant free <= td.freelist.Contents
      decreases |rest|
    {
      rest := PutOne(td, job, events, others, rest);
    }
  }

  method PutOne(td: ThreadData, job: Submission, ghost events: set<IoU>, ghost others: set<IoU>, rest: set<IoU>)
    returns (rest': set<IoU>)
    requires Joint(td, job) && {} < rest <= events && rest !! job.engine
    requires td.held == others + rest && others !! rest
    modifies td, td.freelist, td.freelist.ious, events`file, events`free, td.files
    ensures Joint(td, job) && td.held == others + rest' && rest' < rest && |rest'| < |rest|
    ensures old(td.freelist.Contents) <= td.freelist.Contents
  {
    var u :| u in rest;
    Put(td, job, u);
    rest' := rest - {u};
    assert others + rest - {u} == others + rest';
  }

  /** The units that left the holders are those that joined the free stack. */
  lemma AllMoved(units: set<IoU>, free: seq<IoU>, after: seq<IoU>, ring: seq<IoU>, others: set<IoU>, events: set<IoU>)
    returns (put: seq<IoU>)
    requires Split(units, free, ring, others + events) && Split(units, after, ring, others)
    requires others !! events && free <= after
    ensures after == free + put && multiset(put) == multiset(events)
  {
    put := after[|free|..];
    assert after == free + put;
    assert multiset(others + events) == multiset(others) + multiset(events);
    assert multiset(free + put) == multiset(free) + multiset(put);
    forall u: IoU ensures multiset(put)[u] == multiset(events)[u] {
      assert multiset(units)[u] == multiset(free)[u] + multiset(ring)[u] + multiset(others)[u] + multiset(events)[u];
      assert multiset(units)[u] == multiset(free)[u] + multiset(put)[u] + multiset(ring)[u] + multiset(others)[u];
    }
  }
}
