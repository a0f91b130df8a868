/**
 * Delayed, rate-limited and retried saving of parameters: a work item, its handler on the work
 * queue, and any number of callers whose requests take several steps.
 */
module Autosave {
  import opened Results
  import opened Sequences

  // hrt_abstime, in microseconds
  const REQUEST_DELAY: nat := 300_000
  const RATE_LIMIT: nat := 2_000_000
  const ARMED_DELAY: nat := 1_000_000
  const MAX_RETRIES: nat := 3

  /** The handler among the callers of request(), for its retries. */
  const HANDLER: nat := 0

  /**
   * Where the handler is: not executing, before its time stamp, about to put the work off, saving,
   * about to request a retry, about to return.
   */
  datatype Run = Idle | Started | Deferring | Saving | Retrying | Ending

  /**
   * The work item: when it is due while it is delayed or queued, and whether it was cancelled
   * while its handler was executing, which lasts until the handler returns.
   */
  datatype Work = Work(pending: Option<nat>, canceling: bool, running: Run) {
    /** The work queue schedules work only if it is idle or merely executing. */
    predicate Accepts() {
      pending.None? && !canceling
    }

    predicate BeforeStamp() {
      running.Started? || running.Deferring?
    }

    /** k_work_schedule_for_queue */
    function Schedule(due: nat): (w: Work)
      ensures w.running == running && w.canceling == canceling
    {
      if Accepts() then this.(pending := Some(due)) else this
    }

    /** k_work_cancel_delayable */
    function Cancel(): Work {
      Work(None, running != Idle, running)
    }
  }

  /**
   * A request that passed its check: the delay it computed, whether it has set the flag, and the
   * epoch of the check; starts, time stamps and cancellations end an epoch.
   */
  datatype Ticket = Ticket(delay: nat, stored: bool, epoch: nat)

  type Tickets = map<nat, Ticket>

  /** The delay that request() computes: at least its own, and no less than the rate limit asks for. */
  function Delay(now: nat, lastTimestamp: nat): (delay: nat)
    requires lastTimestamp <= now
    ensures now + delay == Max(now + REQUEST_DELAY, lastTimestamp + RATE_LIMIT)
  {
    var elapsed := now - lastTimestamp;
    if elapsed < RATE_LIMIT && RATE_LIMIT > elapsed + REQUEST_DELAY then RATE_LIMIT - elapsed else REQUEST_DELAY
  }

  // ----- changes and attempts -----

  /** Consecutive save attempts are at least the rate limit apart. */
  ghost predicate Spaced(attempts: seq<nat>) {
    forall i :: 0 < i < |attempts| ==> attempts[i - 1] + RATE_LIMIT <= attempts[i]
  }

  /** The last n attempts failed. */
  ghost predicate LastFailed(outcomes: seq<bool>, n: nat) {
    n <= |outcomes| && forall i :: |outcomes| - n <= i < |outcomes| ==> !outcomes[i]
  }

  lemma Failed(outcomes: seq<bool>, n: nat, ok: bool)
    requires LastFailed(outcomes, n)
    ensures LastFailed(outcomes + [ok], 0)
    ensures !ok ==> LastFailed(outcomes + [ok], n + 1)
  {
  }

  /** How many changes were made, attempted, saved, and given up by disabling or after failures. */
  datatype Changes = Changes(made: nat, attempted: nat, saved: nat, dropped: nat) {
    predicate Valid() {
      saved <= attempted <= made && dropped <= made
    }

    /** One more change, given up at once while autosave is disabled. */
    function More(disabled: bool): Changes {
      Changes(made + 1, attempted, saved, if disabled then made + 1 else dropped)
    }

    /** The changes of the last attempt are given up. */
    function AttemptDropped(): Changes {
      Changes(made, attempted, saved, Max(dropped, attempted))
    }

    /** Saved, given up, or in the attempt under way. */
    function Settled(running: Run): nat {
      Max(Max(saved, dropped), if running.Saving? || running.Retrying? then attempted else 0)
    }
  }

  // ----- the flag, the work item and the requests in progress -----

  /**
   * The time stamps of the save attempts, how the finished ones ended, and the changes; whether what
   * the flag announces is lost, because the work queue refused it or enable() cancelled it; whether
   * a request was ever scheduled in another epoch than that of its check; how many were early.
   */
  datatype History = History(attempts: seq<nat>, outcomes: seq<bool>, changes: Changes, lost: bool, crossed: bool,
                             earlies: nat)
  {
    /** All changes so far are given up, and what was lost with them. */
    function AllDropped(): (h: History)
      ensures h.attempts == attempts && h.outcomes == outcomes && !h.lost
      ensures h.crossed == crossed && h.earlies == earlies
    {
      this.(changes := changes.(dropped := changes.made), lost := false)
    }

    /** An attempt begins that covers all changes so far. */
    function Attempt(now: nat): (h: History)
      ensures h.attempts == attempts + [now] && h.outcomes == outcomes && !h.lost
      ensures h.crossed == crossed && h.earlies == earlies
    {
      this.(attempts := attempts + [now], changes := changes.(attempted := changes.made), lost := false)
    }

    /** The attempt has ended. */
    function Ended(ok: bool, changes: Changes): (h: History)
      ensures h.attempts == attempts && h.outcomes == outcomes + [ok] && h.changes == changes && h.lost == lost
      ensures h.crossed == crossed && h.earlies == earlies
    {
      this.(outcomes := outcomes + [ok], changes := changes)
    }
  }

  /** Some caller has set the flag and is about to schedule. */
  ghost predicate SomeStored(callers: Tickets) {
    exists c :: c in callers && callers[c].stored
  }

  /** Some caller is about to schedule, and the flag is set or will be by then. */
  ghost predicate SomeLive(callers: Tickets, scheduled: bool) {
    exists c :: c in callers && (!callers[c].stored || scheduled)
  }

  /** What the flag announces is pending or about to be, unless it is lost. */
  ghost predicate FlagExplained(scheduled: bool, w: Work, callers: Tickets, lost: bool) {
    && (scheduled ==> w.pending.Some? || w.BeforeStamp() || lost || SomeStored(callers))
    && (lost ==> scheduled && w.pending.None?)
    && (w.canceling ==> w.running != Idle && w.pending.None?)
  }

  /** An attempt is on its way that will cover every change made so far. */
  ghost predicate OnTheWay(scheduled: bool, w: Work, callers: Tickets) {
    w.pending.Some? || w.running.Started? || (w.running.Deferring? && scheduled) || SomeLive(callers, scheduled)
  }

  /** All changes that are not settled have an attempt on its way, unless it is lost. */
  ghost predicate Coming(n: Changes, scheduled: bool, w: Work, callers: Tickets, lost: bool) {
    n.Settled(w.running) < n.made ==> OnTheWay(scheduled, w, callers) || lost
  }

  /** Whether what the flag announces is lost once the work queue was asked; a success makes up for earlier losses. */
  function Refusal(scheduled: bool, w: Work, lost: bool): bool {
    if w.Accepts() then false else lost || (w.canceling && scheduled)
  }

  /** Scheduling leaves work pending exactly if some was or the work item is not being cancelled. */
  lemma ScheduleOutcome(w: Work, due: nat, lost: bool)
    ensures w.Schedule(due).pending.Some? <==> w.pending.Some? || !w.canceling
    ensures w.pending.None? && !lost ==> (Refusal(true, w, lost) <==> w.canceling)
  {
  }

  lemma TicketAdded(callers: Tickets, c: nat, t: Ticket, scheduled: bool)
    requires c !in callers && !t.stored
    ensures SomeLive(callers[c := t], scheduled)
    ensures SomeStored(callers) ==> SomeStored(callers[c := t])
  {
    var more := callers[c := t];
    assert c in more && !more[c].stored;
    if SomeStored(callers) {
      var d :| d in callers && callers[d].stored;
      assert d in more && more[d].stored;
    }
  }

  lemma TicketStored(callers: Tickets, c: nat)
    requires c in callers
    ensures SomeStored(callers[c := callers[c].(stored := true)])
    ensures SomeLive(callers[c := callers[c].(stored := true)], true)
  {
    var more := callers[c := callers[c].(stored := true)];
    assert c in more && more[c].stored;
  }

  lemma TicketUsed(callers: Tickets, c: nat)
    requires c in callers && callers[c].stored
    ensures SomeLive(callers, false) ==> SomeLive(callers - {c}, false)
  {
    if SomeLive(callers, false) {
      var d :| d in callers && (!callers[d].stored || false);
      assert d in callers - {c} && !(callers - {c})[d].stored;
    }
  }

  lemma TicketGone(callers: Tickets, c: nat, t: Ticket)
    requires c !in callers
    ensures callers[c := t][c := t.(stored := true)] - {c} == callers
  {
  }

  lemma StoredIsLive(callers: Tickets)
    ensures SomeStored(callers) ==> SomeLive(callers, true)
  {
  }

  /** The flag set before the check explains itself, and so does a new request. */
  lemma Checked(scheduled: bool, w: Work, callers: Tickets, lost: bool, c: nat, t: Ticket)
    requires FlagExplained(scheduled, w, callers, lost) && c !in callers && !t.stored
    ensures scheduled ==> OnTheWay(scheduled, w, callers) || lost
    ensures FlagExplained(scheduled, w, callers[c := t], lost) && OnTheWay(scheduled, w, callers[c := t])
  {
    StoredIsLive(callers);
    TicketAdded(callers, c, t, scheduled);
  }

  lemma Stored(scheduled: bool, w: Work, callers: Tickets, lost: bool, c: nat)
    requires FlagExplained(scheduled, w, callers, lost) && c in callers
    ensures FlagExplained(true, w, callers[c := callers[c].(stored := true)], lost)
    ensures OnTheWay(true, w, callers[c := callers[c].(stored := true)])
  {
    TicketStored(callers, c);
  }

  lemma Submitted(n: Changes, scheduled: bool, w: Work, callers: Tickets, lost: bool, c: nat, due: nat)
    requires FlagExplained(scheduled, w, callers, lost) && c in callers && callers[c].stored
    ensures FlagExplained(scheduled, w.Schedule(due), callers - {c}, Refusal(scheduled, w, lost))
    ensures Coming(n, scheduled, w, callers, lost) ==>
      Coming(n, scheduled, w.Schedule(due), callers - {c}, Refusal(scheduled, w, lost))
  {
    hide SomeStored, Changes.Settled;
    TicketUsed(callers, c);
    hide SomeLive;
  }

  /** A time stamp clears the flag, and every change is given up or covered by the attempt that begins. */
  lemma Stamped(h: History, scheduled: bool, w: Work, callers: Tickets, now: nat)
    requires FlagExplained(scheduled, w, callers, h.lost) && w.running == Started && h.changes.Valid()
    ensures h.AllDropped().changes.Valid() && h.Attempt(now).changes.Valid()
    ensures FlagExplained(false, w.(running := Ending), callers, false)
    ensures FlagExplained(false, w.(running := Saving), callers, false)
    ensures Coming(h.AllDropped().changes, false, w.(running := Ending), callers, false)
    ensures Coming(h.Attempt(now).changes, false, w.(running := Saving), callers, false)
  {
  }

  /** A save that has ended lets go of no change: saved, to be retried, or given up. */
  lemma Finished(n: Changes, scheduled: bool, w: Work, callers: Tickets, lost: bool)
    requires FlagExplained(scheduled, w, callers, lost) && Coming(n, scheduled, w, callers, lost)
    requires w.running == Saving && n.Valid()
    ensures FlagExplained(scheduled, w.(running := Ending), callers, lost)
    ensures FlagExplained(scheduled, w.(running := Retrying), callers, lost)
    ensures Coming(n.(saved := n.attempted), scheduled, w.(running := Ending), callers, lost)
    ensures Coming(n, scheduled, w.(running := Retrying), callers, lost)
    ensures Coming(n.AttemptDropped(), scheduled, w.(running := Ending), callers, lost)
    ensures n.(saved := n.attempted).Valid() && n.AttemptDropped().Valid() && n.AttemptDropped().made == n.made
    ensures n.dropped == n.made ==> n.AttemptDropped().dropped == n.made
  {
    hide SomeStored, SomeLive;
  }

  /** After the check of a retry, its changes have an attempt on its way, or autosave is disabled. */
  lemma RetryComing(n: Changes, scheduled: bool, w: Work, callers: Tickets, lost: bool, t: Ticket, disabled: bool)
    requires FlagExplained(scheduled, w, callers, lost) && Coming(n, scheduled, w, callers, lost)
    requires w.running == Retrying && HANDLER !in callers && !t.stored
    ensures var n' := if disabled then n.AttemptDropped() else n;
      var callers' := if scheduled || disabled then callers else callers[HANDLER := t];
      && FlagExplained(scheduled, w.(running := Ending), callers', lost)
      && Coming(n', scheduled, w.(running := Ending), callers', lost)
  {
    hide SomeStored, SomeLive;
    Checked(scheduled, w, callers, lost, HANDLER, t);
  }

  // ----- early schedules -----

  /** An attempt at time t would be far enough from the last one. */
  ghost predicate FarEnough(attempts: seq<nat>, t: nat) {
    attempts != [] ==> attempts[|attempts| - 1] + RATE_LIMIT <= t
  }

  /**
   * Scheduling is early if the work queue accepts work that is due too soon after the last attempt, or
   * accepts it between the start of a run and its time stamp, unless enable() is about to cancel it.
   */
  ghost predicate Early(attempts: seq<nat>, w: Work, due: nat, locked: bool) {
    w.Accepts() && ((w.running.Started? && !locked) || !FarEnough(attempts, due))
  }

  /** Attempts are spaced, and neither the scheduled work nor the run under way comes too soon. */
  ghost predicate Paced(attempts: seq<nat>, clock: nat, w: Work, locked: bool) {
    && Spaced(attempts)
    && (w.pending.Some? ==> FarEnough(attempts, w.pending.value))
    && (w.BeforeStamp() ==> FarEnough(attempts, clock))
    && (w.running.Started? && !locked ==> w.pending.None?)
  }

  /** Scheduling keeps the pace exactly if it is not early. */
  lemma PacedUnlessEarly(attempts: seq<nat>, clock: nat, w: Work, locked: bool, now: nat, due: nat)
    requires clock <= now
    ensures Paced(attempts, clock, w, locked) ==>
      Paced(attempts, now, w.Schedule(due), locked) == !Early(attempts, w, due, locked)
  {
    hide Spaced;
  }

  /** Time that passes keeps the pace, and so do the steps between a time stamp and the next start. */
  lemma LaterPaced(attempts: seq<nat>, clock: nat, w: Work, locked: bool, now: nat, w': Work)
    requires clock <= now && w'.pending == w.pending
    requires w'.running == w.running || (!w'.BeforeStamp() && !w.BeforeStamp())
    ensures Paced(attempts, clock, w, locked) ==> Paced(attempts, now, w', locked)
  {
    hide Spaced;
  }

  lemma CanceledPaced(attempts: seq<nat>, clock: nat, w: Work, locked: bool)
    ensures Paced(attempts, clock, w, locked) ==>
      Paced(attempts, clock, w, true) && Paced(attempts, clock, w.Cancel(), false)
  {
    hide Spaced;
  }

  lemma StartedPaced(attempts: seq<nat>, clock: nat, w: Work, locked: bool, now: nat)
    requires w.pending.Some? && w.pending.value <= now
    ensures Paced(attempts, clock, w, locked) ==> Paced(attempts, now, Work(None, false, Started), locked)
  {
    hide Spaced;
  }

  lemma DeferredPaced(attempts: seq<nat>, clock: nat, w: Work, locked: bool, now: nat)
    requires w.BeforeStamp() && clock <= now
    ensures Paced(attempts, clock, w, locked) ==>
      && Paced(attempts, now, w.(running := Deferring), locked)
      && Paced(attempts, now, w.Schedule(now + ARMED_DELAY).(running := Ending), locked)
  {
    hide Spaced;
  }

  /** A time stamp comes late enough after the last attempt, and nothing is pending then. */
  lemma StampedPaced(attempts: seq<nat>, clock: nat, w: Work, now: nat)
    requires w.running == Started && clock <= now
    ensures Paced(attempts, clock, w, false) ==>
      && Paced(attempts, now, w.(running := Ending), false)
      && Paced(attempts + [now], now, w.(running := Saving), false)
      && w.pending.None? && Spaced(attempts) && Spaced(attempts + [now])
  {
  }

  // ----- requests in their epochs -----

  /**
   * A request that made its check in the current epoch will not schedule too soon: its delay still
   * fits, before a time stamp the work queue refuses it, and the flag that it set is still set.
   */
  ghost predicate TicketInTime(t: Ticket, last: nat, clock: nat, scheduled: bool, w: Work) {
    && last + RATE_LIMIT <= clock + t.delay
    && (w.BeforeStamp() ==> w.canceling)
    && (t.stored ==> scheduled)
  }

  ghost predicate TicketsInTime(callers: Tickets, epoch: nat, last: nat, clock: nat, scheduled: bool, w: Work) {
    forall c :: c in callers ==>
      callers[c].epoch <= epoch && (callers[c].epoch == epoch ==> TicketInTime(callers[c], last, clock, scheduled, w))
  }

  /**
   * The flag is set while work is pending or a time stamp is to come, unless the work is being
   * cancelled or about to be, and the requests of this epoch are in time.
   */
  ghost predicate InTime(last: nat, clock: nat, scheduled: bool, w: Work, callers: Tickets, epoch: nat, locked: bool) {
    && (w.pending.Some? ==> scheduled || locked)
    && (w.BeforeStamp() ==> scheduled || w.canceling || locked)
    && TicketsInTime(callers, epoch, last, clock, scheduled, w)
  }

  lemma CheckedInTime(last: nat, clock: nat, scheduled: bool, w: Work, callers: Tickets, epoch: nat, locked: bool,
                      c: nat, now: nat)
    requires last <= clock <= now
    ensures InTime(last, clock, scheduled, w, callers, epoch, locked) ==>
      InTime(last, now, scheduled, w, callers, epoch, locked)
    ensures InTime(last, clock, scheduled, w, callers, epoch, locked) && !scheduled && !locked ==>
      InTime(last, now, scheduled, w, callers[c := Ticket(Delay(now, last), false, epoch)], epoch, locked)
  {
  }

  lemma StoredInTime(last: nat, clock: nat, scheduled: bool, w: Work, callers: Tickets, epoch: nat, locked: bool,
                     c: nat)
    requires c in callers
    ensures InTime(last, clock, scheduled, w, callers, epoch, locked) ==>
      InTime(last, clock, true, w, callers[c := callers[c].(stored := true)], epoch, locked)
  {
  }

  /** A request that is scheduled in the epoch of its check is not early. */
  lemma SubmittedInTime(last: nat, clock: nat, scheduled: bool, w: Work, callers: Tickets, epoch: nat, locked: bool,
                        c: nat, now: nat, attempts: seq<nat>)
    requires clock <= now && c in callers && callers[c].stored
    requires attempts != [] ==> attempts[|attempts| - 1] <= last
    ensures (
      && InTime(last, clock, scheduled, w, callers, epoch, locked)
      && !(w.Accepts() && callers[c].epoch != epoch)
    ) ==>
      && InTime(last, now, scheduled, w.Schedule(now + callers[c].delay), callers - {c}, epoch, locked)
      && !Early(attempts, w, now + callers[c].delay, locked)
  {
    assert TicketsInTime(callers, epoch, last, clock, scheduled, w) && callers[c].epoch == epoch ==>
        TicketInTime(callers[c], last, clock, scheduled, w);
  }

  /** An epoch has ended: no request in progress made its check in the new one. */
  lemma NextEpoch(callers: Tickets, epoch: nat, last: nat, clock: nat, scheduled: bool, w: Work,
                  last': nat, clock': nat, scheduled': bool, w': Work)
    ensures TicketsInTime(callers, epoch, last, clock, scheduled, w) ==>
      TicketsInTime(callers, epoch + 1, last', clock', scheduled', w')
  {
  }

  lemma LockedInTime(last: nat, clock: nat, scheduled: bool, w: Work, callers: Tickets, epoch: nat)
    ensures InTime(last, clock, scheduled, w, callers, epoch, false) ==>
      InTime(last, clock, false, w, callers, epoch + 1, true)
  {
    NextEpoch(callers, epoch, last, clock, scheduled, w, last, clock, false, w);
  }

  lemma CanceledInTime(last: nat, clock: nat, scheduled: bool, w: Work, callers: Tickets, epoch: nat, locked: bool)
    ensures InTime(last, clock, scheduled, w, callers, epoch, locked) ==>
      InTime(last, clock, scheduled, w.Cancel(), callers, epoch, false)
  {
  }

  lemma StartedInTime(last: nat, clock: nat, scheduled: bool, w: Work, callers: Tickets, epoch: nat, locked: bool,
                      now: nat)
    requires w.pending.Some? && w.pending.value <= now
    ensures InTime(last, clock, scheduled, w, callers, epoch, locked) ==>
      InTime(last, now, scheduled, Work(None, false, Started), callers, epoch + 1, locked)
  {
    NextEpoch(callers, epoch, last, clock, scheduled, w, last, now, scheduled, Work(None, false, Started));
  }

  lemma DeferredInTime(last: nat, clock: nat, scheduled: bool, w: Work, callers: Tickets, epoch: nat, locked: bool,
                       now: nat)
    requires w.running == Deferring && clock <= now
    ensures InTime(last, clock, scheduled, w, callers, epoch, locked) ==>
      InTime(last, now, scheduled, w.Schedule(now + ARMED_DELAY).(running := Ending), callers, epoch, locked)
  {
  }

  lemma StampedInTime(last: nat, clock: nat, scheduled: bool, w: Work, callers: Tickets, epoch: nat, now: nat,
                      running: Run)
    requires running == Saving || running == Ending
    ensures InTime(last, clock, scheduled, w, callers, epoch, false) && w.pending.None? ==>
      InTime(now, now, false, w.(running := running), callers, epoch + 1, false)
  {
    NextEpoch(callers, epoch, last, clock, scheduled, w, now, now, false, w.(running := running));
  }

  lemma LaterInTime(last: nat, clock: nat, scheduled: bool, w: Work, callers: Tickets, epoch: nat, locked: bool,
                    now: nat, running: Run)
    requires clock <= now && !w.BeforeStamp() && running != Started && running != Deferring
    ensures InTime(last, clock, scheduled, w, callers, epoch, locked) ==>
      InTime(last, now, scheduled, w.(running := running), callers, epoch, locked)
  {
  }

  lemma FinishedInTime(attempts: seq<nat>, last: nat, clock: nat, scheduled: bool, w: Work, callers: Tickets,
                       epoch: nat, locked: bool, now: nat)
    requires w.running == Saving && clock <= now
    ensures Paced(attempts, clock, w, locked) ==>
      Paced(attempts, now, w.(running := Ending), locked) && Paced(attempts, now, w.(running := Retrying), locked)
    ensures InTime(last, clock, scheduled, w, callers, epoch, locked) ==>
      && InTime(last, now, scheduled, w.(running := Ending), callers, epoch, locked)
      && InTime(last, now, scheduled, w.(running := Retrying), callers, epoch, locked)
  {
    hide Spaced;
  }

  lemma Beginning()
    ensures Paced([], 0, Work(None, false, Idle), false) && LastFailed([], 0)
    ensures InTime(0, 0, false, Work(None, false, Idle), map[], 0, false)
    ensures FlagExplained(false, Work(None, false, Idle), map[], false)
    ensures Coming(Changes(0, 0, 0, 0), false, Work(None, false, Idle), map[], false)
  {
  }

  class ParamAutosave {
    var lastTimestamp: nat
    var scheduled: bool
    var retryCount: nat
    var disabled: bool
    var dwork: Work
    var callers: Tickets            // requests in progress
    var clock: nat                  // the latest time seen
    var epoch: nat                  // counts starts, time stamps and disablings
    var locked: bool                // enable() has cleared the flag and is about to cancel
    ghost var log: History

    ghost predicate Valid()
      reads this
    {
      && lastTimestamp <= clock && log.changes.Valid()
      && retryCount <= MAX_RETRIES && LastFailed(log.outcomes, retryCount)
      && (log.attempts != [] ==> log.attempts[|log.attempts| - 1] <= lastTimestamp)
      && (HANDLER in callers ==> dwork.running == Ending)
      && FlagExplained(scheduled, dwork, callers, log.lost)
      && Coming(log.changes, scheduled, dwork, callers, log.lost)
      && (locked ==> disabled && log.changes.dropped == log.changes.made)
      && (log.earlies == 0 ==> Paced(log.attempts, clock, dwork, locked))
      && (!log.crossed ==> log.earlies == 0 && InTime(lastTimestamp, clock, scheduled, dwork, callers, epoch, locked))
    }

    /** Nothing is pending and nobody is about to schedule anything, but the flag says otherwise. */
    ghost predicate Stuck()
      reads this
    {
      scheduled && dwork == Work(None, false, Idle) && callers == map[]
    }

    constructor ()
      ensures Valid() && log == History([], [], Changes(0, 0, 0, 0), false, false, 0)
      ensures !scheduled && !disabled && !locked && retryCount == 0
      ensures dwork == Work(None, false, Idle) && callers == map[] && lastTimestamp == clock == epoch == 0
    {
      lastTimestamp, scheduled, retryCount, disabled, locked := 0, false, 0, false, false;
      dwork, callers, clock, epoch := Work(None, false, Idle), map[], 0, 0;
      log := History([], [], Changes(0, 0, 0, 0), false, false, 0);
      new;
      hide InTime, Paced, FlagExplained, Coming, LastFailed;
      Beginning();
    }

    /** The flag tells whether work is pending unless that is lost or a step is still to come. */
    lemma NothingLost()
      requires Valid()
      ensures !log.lost && callers == map[] && !dwork.BeforeStamp() ==>
        (scheduled ==> dwork.pending.Some?) && (dwork.canceling ==> !scheduled)
    {
    }

    /** The handler requests only after its time stamp, and pending work is not being cancelled. */
    lemma HandlerWaits()
      requires Valid()
      ensures HANDLER in callers ==> dwork.running == Ending
      ensures dwork.pending.Some? ==> !dwork.canceling
    {
    }

    // ----- request(), step by step -----

    /** The check of the flags, and the delay; the request follows a change. */
    method RequestCheck(c: nat, now: nat) returns (passed: bool)
      requires Valid() && clock <= now && c !in callers && c != HANDLER
      modifies `callers, `clock, `log
      ensures Valid() && clock == now && passed == (!scheduled && !disabled)
      ensures callers ==
        if passed then old(callers)[c := Ticket(Delay(now, lastTimestamp), false, epoch)] else old(callers)
      ensures passed ==> now + callers[c].delay == Max(now + 300_000, lastTimestamp + 2_000_000)
      ensures log == old(log).(changes := old(log).changes.More(disabled))
      ensures old(Stuck()) ==> Stuck()
    {
      hide InTime, FlagExplained, OnTheWay, LastFailed;
      var t := Ticket(Delay(now, lastTimestamp), false, epoch);
      Checked(scheduled, dwork, callers, log.lost, c, t);
      LaterPaced(log.attempts, clock, dwork, locked, now, dwork);
      CheckedInTime(lastTimestamp, clock, scheduled, dwork, callers, epoch, locked, c, now);
      passed := !scheduled && !disabled;
      clock := now;
      log := log.(changes := log.changes.More(disabled));
      if passed {
        callers := callers[c := t];
      }
    }

    /** The flag is set. */
    method RequestStore(c: nat)
      requires Valid() && c in callers && !callers[c].stored
      modifies `scheduled, `callers
      ensures Valid() && scheduled && callers == old(callers)[c := old(callers)[c].(stored := true)]
    {
      hide InTime, FlagExplained, OnTheWay, LastFailed;
      Stored(scheduled, dwork, callers, log.lost, c);
      StoredInTime(lastTimestamp, clock, scheduled, dwork, callers, epoch, locked, c);
      scheduled := true;
      callers := callers[c := callers[c].(stored := true)];
    }

    /** The work is handed to the work queue. */
    method RequestSubmit(c: nat, now: nat)
      requires Valid() && clock <= now && c in callers && callers[c].stored
      modifies `dwork, `callers, `clock, `log
      ensures Valid() && clock == now && callers == old(callers) - {c}
      ensures dwork == old(dwork).Schedule(now + old(callers)[c].delay)
      ensures log == old(log).(
        lost := Refusal(scheduled, old(dwork), old(log).lost),
        crossed := old(log).crossed || (old(dwork).Accepts() && old(callers)[c].epoch != epoch),
        earlies := log.earlies)
      ensures log.earlies == old(log).earlies
        + if Early(log.attempts, old(dwork), now + old(callers)[c].delay, locked) then 1 else 0
    {
      hide InTime, FlagExplained, Coming, LastFailed, Paced, Early, Work.Schedule, Work.Accepts, Refusal, Changes.Valid;
      var t := callers[c];
      Submitted(log.changes, scheduled, dwork, callers, log.lost, c, now + t.delay);
      SubmittedInTime(lastTimestamp, clock, scheduled, dwork, callers, epoch, locked, c, now, log.attempts);
      PacedUnlessEarly(log.attempts, clock, dwork, locked, now, now + t.delay);
      clock := now;
      callers := callers - {c};
      log := log.(lost := Refusal(scheduled, dwork, log.lost),
                  crossed := log.crossed || (dwork.Accepts() && t.epoch != epoch),
                  earlies := log.earlies + if Early(log.attempts, dwork, now + t.delay, locked) then 1 else 0);
      dwork := dwork.Schedule(now + t.delay);
    }

    /**
     * A request whose steps nothing comes between.  Unless autosave is disabled it leaves work
     * pending exactly if some was pending already, or the flag is clear and the work item is not
     * being cancelled.  As long as nothing is lost, that is exactly unless the work item is being
     * cancelled.  It is early exactly if the work queue accepts it between the start of a run and its
     * time stamp, which it never does unless a request was ever scheduled in another epoch.
     */
    method Request(c: nat, now: nat)
      requires Valid() && clock <= now && c !in callers && c != HANDLER
      modifies `callers, `clock, `scheduled, `dwork, `log
      ensures Valid() && clock == now && callers == old(callers)
      ensures log == old(log).(changes := old(log).changes.More(disabled), lost := log.lost, earlies := log.earlies)
      ensures log.earlies == old(log).earlies
        + if !old(scheduled) && !disabled && old(dwork).Accepts() && dwork.running == Started then 1 else 0
      ensures !log.crossed ==> log.earlies == 0
      ensures old(scheduled) || disabled ==>
        scheduled == old(scheduled) && dwork == old(dwork) && log.lost == old(log).lost
      ensures !old(scheduled) && !disabled ==>
        && scheduled && dwork == old(dwork).Schedule(Max(now + 300_000, lastTimestamp + 2_000_000))
        && log.lost == Refusal(true, old(dwork), old(log).lost)
      ensures !disabled ==>
        (dwork.pending.Some? <==> old(dwork).pending.Some? || (!old(scheduled) && !old(dwork).canceling))
      ensures !disabled && !old(log).lost && callers == map[] && !dwork.BeforeStamp() ==>
        (dwork.pending.Some? <==> !old(dwork).canceling) && (log.lost <==> old(dwork).canceling)
    {
      NothingLost();
      hide Valid, FlagExplained, Delay, Work.BeforeStamp, Work.Schedule, Refusal, Work.Accepts;
      ScheduleOutcome(dwork, now + Delay(now, lastTimestamp), log.lost);
      TicketGone(callers, c, Ticket(Delay(now, lastTimestamp), false, epoch));
      var passed := RequestCheck(c, now);
      if passed {
        RequestStore(c);
        RequestSubmit(c, now);
      }
    }

    // ----- enable(), which holds the lock that a time stamp needs, but no request takes -----

    /** The flags, and with them the changes so far ... */
    method EnableFlags(enable: bool)
      requires Valid() && !locked
      modifies `disabled, `scheduled, `locked, `epoch, `log
      ensures Valid() && disabled == !enable && locked == (!enable && old(scheduled))
      ensures locked ==> !scheduled && epoch == old(epoch) + 1 && log == old(log).AllDropped()
      ensures !locked ==> scheduled == old(scheduled) && epoch == old(epoch) && log == old(log)
      ensures old(Stuck()) && enable ==> Stuck()
    {
      hide InTime, Paced, OnTheWay, LastFailed, SomeStored, SomeLive;
      disabled := !enable;
      if !enable && scheduled {
        CanceledPaced(log.attempts, clock, dwork, locked);
        LockedInTime(lastTimestamp, clock, scheduled, dwork, callers, epoch);
        scheduled, locked, epoch, log := false, true, epoch + 1, log.AllDropped();
      }
    }

    /** ... and the work item.  What a request announced in between is lost. */
    method EnableCancel()
      requires Valid() && locked
      modifies `dwork, `locked, `log
      ensures Valid() && !locked && dwork == old(dwork).Cancel() && log == old(log).(lost := scheduled)
    {
      hide InTime, Paced, OnTheWay, LastFailed, SomeStored, SomeLive;
      CanceledPaced(log.attempts, clock, dwork, locked);
      CanceledInTime(lastTimestamp, clock, scheduled, dwork, callers, epoch, locked);
      dwork, locked, log := dwork.Cancel(), false, log.(lost := scheduled);
    }

    /** Without a request in between, disabling gives up what is scheduled; enabling does not bring it back. */
    method Enable(enable: bool)
      requires Valid() && !locked
      modifies `disabled, `scheduled, `dwork, `locked, `epoch, `log
      ensures Valid() && !locked && disabled == !enable
      ensures !enable && old(scheduled) ==>
        !scheduled && dwork == old(dwork).Cancel() && epoch == old(epoch) + 1 && log == old(log).AllDropped()
      ensures enable || !old(scheduled) ==>
        scheduled == old(scheduled) && dwork == old(dwork) && epoch == old(epoch) && log == old(log)
      ensures old(Stuck()) && enable ==> Stuck()
    {
      hide Valid;
      EnableFlags(enable);
      if locked {
        EnableCancel();
      }
    }

    // ----- run(), on the work queue -----

    /** The work queue takes the work when it is due and the previous run has returned. */
    method Start(now: nat)
      requires Valid() && clock <= now && dwork.running == Idle && dwork.pending.Some? && dwork.pending.value <= now
      modifies `dwork, `clock, `epoch
      ensures Valid() && clock == now && dwork == Work(None, false, Started) && epoch == old(epoch) + 1
    {
      hide InTime, Paced, LastFailed, SomeStored, SomeLive;
      StartedPaced(log.attempts, clock, dwork, locked, now);
      StartedInTime(lastTimestamp, clock, scheduled, dwork, callers, epoch, locked, now);
      dwork, clock, epoch := Work(None, false, Started), now, epoch + 1;
    }

    /** While armed, saving to flash is put off: the flag is set ... */
    method DeferStore()
      requires Valid() && dwork.running == Started
      modifies `dwork, `scheduled
      ensures Valid() && scheduled && dwork == old(dwork).(running := Deferring)
    {
      hide Paced, LastFailed, SomeStored, SomeLive;
      DeferredPaced(log.attempts, clock, dwork, locked, clock);
      scheduled, dwork := true, dwork.(running := Deferring);
    }

    /** ... and the work is handed to the work queue. */
    method DeferSubmit(now: nat)
      requires Valid() && clock <= now && dwork.running == Deferring
      modifies `dwork, `clock, `log
      ensures Valid() && clock == now && dwork == old(dwork).Schedule(now + 1_000_000).(running := Ending)
      ensures log == old(log).(lost := Refusal(scheduled, old(dwork), old(log).lost))
      ensures dwork.pending.Some? <==> old(dwork).pending.Some? || !old(dwork).canceling
    {
      hide InTime, Paced, LastFailed, SomeStored, SomeLive;
      DeferredPaced(log.attempts, clock, dwork, locked, now);
      DeferredInTime(lastTimestamp, clock, scheduled, dwork, callers, epoch, locked, now);
      log := log.(lost := Refusal(scheduled, dwork, log.lost));
      dwork, clock := dwork.Schedule(now + ARMED_DELAY).(running := Ending), now;
    }

    /** The time stamp, under the lock, and the decision whether to save. */
    method Stamp(now: nat)
      requires Valid() && clock <= now && dwork.running == Started && !locked
      modifies `dwork, `lastTimestamp, `scheduled, `clock, `epoch, `log
      ensures Valid() && clock == lastTimestamp == now && !scheduled && epoch == old(epoch) + 1
      ensures disabled ==> dwork == old(dwork).(running := Ending) && log == old(log).AllDropped()
      ensures !disabled ==> dwork == old(dwork).(running := Saving) && log == old(log).Attempt(now)
      ensures log.earlies == 0 ==> dwork.pending.None? && Spaced(log.attempts)
    {
      hide InTime, FlagExplained, Coming, LastFailed, Spaced, Changes.Valid, History.AllDropped, History.Attempt;
      ghost var w, flag := dwork, scheduled;
      StampedPaced(log.attempts, clock, dwork, now);
      hide Paced;
      lastTimestamp, scheduled, clock, epoch := now, false, now, epoch + 1;
      if disabled {
        dwork, log := dwork.(running := Ending), log.AllDropped();
      } else {
        dwork, log := dwork.(running := Saving), log.Attempt(now);
      }
      Stamped(old(log), flag, w, callers, now);
      StampedInTime(old(lastTimestamp), old(clock), flag, w, callers, old(epoch), now, dwork.running);
    }

    /** The save has ended; a failed one is retried three times. */
    method Finish(now: nat, ok: bool) returns (gaveUp: bool)
      requires Valid() && clock <= now && dwork.running == Saving
      modifies `dwork, `clock, `retryCount, `log
      ensures Valid() && clock == now
      ensures gaveUp == (!ok && old(retryCount) == 3)
      ensures retryCount == if ok || gaveUp then 0 else old(retryCount) + 1
      ensures dwork == old(dwork).(running := if ok || gaveUp then Ending else Retrying)
      ensures log == old(log).Ended(ok, log.changes)
      ensures ok ==> log.changes == old(log).changes.(saved := old(log).changes.attempted)
      ensures gaveUp ==> log.changes == old(log).changes.AttemptDropped()
      ensures gaveUp ==>
        |log.outcomes| >= 4 && forall i :: |log.outcomes| - 4 <= i < |log.outcomes| ==> !log.outcomes[i]
      ensures !ok && !gaveUp ==> log.changes == old(log).changes
    {
      hide InTime, Paced, FlagExplained, Coming, LastFailed, Changes.Valid, Changes.AttemptDropped, History.Ended;
      Finished(log.changes, scheduled, dwork, callers, log.lost);
      Failed(log.outcomes, retryCount, ok);
      FinishedInTime(log.attempts, lastTimestamp, clock, scheduled, dwork, callers, epoch, locked, now);
      hide Work.BeforeStamp;
      clock, gaveUp := now, false;
      if ok {
        retryCount, dwork := 0, dwork.(running := Ending);
        log := log.Ended(ok, log.changes.(saved := log.changes.attempted));
      } else if retryCount < MAX_RETRIES {
        retryCount, dwork, log := retryCount + 1, dwork.(running := Retrying), log.Ended(ok, log.changes);
      } else {
        retryCount, dwork, log := 0, dwork.(running := Ending), log.Ended(ok, log.changes.AttemptDropped());
        gaveUp := true;
      }
    }

    /** The handler's own request for a retry: the check; the other steps are those of any request. */
    method RetryCheck(now: nat) returns (passed: bool)
      requires Valid() && clock <= now && dwork.running == Retrying
      modifies `callers, `clock, `dwork, `log
      ensures Valid() && clock == now && passed == (!scheduled && !disabled)
      ensures dwork == old(dwork).(running := Ending)
      ensures callers ==
        if passed then old(callers)[HANDLER := Ticket(Delay(now, lastTimestamp), false, epoch)] else old(callers)
      ensures passed ==> now + callers[HANDLER].delay == Max(now + 300_000, lastTimestamp + 2_000_000)
      ensures log == if disabled then old(log).(changes := old(log).changes.AttemptDropped()) else old(log)
    {
      hide InTime, Paced, FlagExplained, Coming, LastFailed;
      var t := Ticket(Delay(now, lastTimestamp), false, epoch);
      LaterPaced(log.attempts, clock, dwork, locked, now, dwork.(running := Ending));
      CheckedInTime(lastTimestamp, clock, scheduled, dwork, callers, epoch, locked, HANDLER, now);
      LaterInTime(lastTimestamp, now, scheduled, dwork, callers, epoch, locked, now, Ending);
      LaterInTime(lastTimestamp, now, scheduled, dwork, callers[HANDLER := t], epoch, locked, now, Ending);
      RetryComing(log.changes, scheduled, dwork, callers, log.lost, t, disabled);
      passed := !scheduled && !disabled;
      clock, dwork := now, dwork.(running := Ending);
      if disabled {
        log := log.(changes := log.changes.AttemptDropped());
      }
      if passed {
        callers := callers[HANDLER := t];
      }
    }

    /** The handler returns, which ends a cancellation. */
    method Return()
      requires Valid() && dwork.running == Ending && HANDLER !in callers
      modifies `dwork
      ensures Valid() && dwork == Work(old(dwork).pending, false, Idle)
    {
      hide Paced, LastFailed, SomeStored, SomeLive;
      LaterPaced(log.attempts, clock, dwork, locked, clock, Work(dwork.pending, false, Idle));
      dwork := Work(dwork.pending, false, Idle);
    }

    // ----- what holds in all runs -----

    /** Attempts are spaced unless a schedule was early, and none is as long as requests keep to their epochs. */
    lemma SpacedUnlessEarly()
      requires Valid()
      ensures log.earlies == 0 ==>
        forall i :: 0 < i < |log.attempts| ==> log.attempts[i - 1] + 2_000_000 <= log.attempts[i]
      ensures !log.crossed ==> log.earlies == 0
    {
    }

    /** The first early schedule is before a time stamp that can be taken, or too soon after an attempt. */
    lemma EarlyWhere(due: nat)
      requires Valid() && log.earlies == 0 && Early(log.attempts, dwork, due, locked) && clock <= due
      ensures dwork.running != Deferring && (dwork.running == Started ==> !locked)
      ensures dwork.running != Started ==>
        log.attempts != [] && due < log.attempts[|log.attempts| - 1] + RATE_LIMIT
    {
    }

    /**
     * With no run, request or enable() in progress, autosave is stuck exactly if what the flag announces
     * is lost; otherwise every change that is neither saved nor given up has an attempt pending.
     */
    lemma BetweenRuns()
      requires Valid() && dwork.running == Idle && callers == map[] && !locked
      ensures log.lost <==> Stuck()
      ensures !log.lost && Max(log.changes.saved, log.changes.dropped) < log.changes.made ==> dwork.pending.Some?
    {
    }
  }

  // ----- an early schedule breaks the spacing -----

  lemma TooClose(attempts: seq<nat>, i: nat)
    requires i + 1 < |attempts| && attempts[i] + RATE_LIMIT > attempts[i + 1]
    ensures !Spaced(attempts)
  {
    assert attempts[i + 1 - 1] + RATE_LIMIT > attempts[i + 1];
  }

  /** A run that has taken its time stamp comes to its end; work that is pending stays pending. */
  method EndRun(a: ParamAutosave, now: nat)
    requires a.Valid() && a.clock <= now && a.dwork.pending.Some?
    requires a.dwork.running in {Saving, Retrying, Ending}
    modifies a
    ensures a.Valid() && a.clock <= now && a.dwork == Work(old(a.dwork).pending, false, Idle)
    ensures a.log.attempts == old(a.log.attempts) && a.log.earlies == old(a.log.earlies)
  {
    a.HandlerWaits();
    hide ParamAutosave.Valid, LastFailed;
    if a.dwork.running == Saving {
      var gaveUp := a.Finish(now, true);
    } else if a.dwork.running == Retrying {
      var passed := a.RetryCheck(now);
    }
    if HANDLER in a.callers {
      if !a.callers[HANDLER].stored {
        a.RequestStore(HANDLER);
      }
      a.RequestSubmit(HANDLER, now);
    }
    a.Return();
  }

  /** Pending work is run when it is due, with autosave enabled before the time stamp. */
  method RunWhenDue(a: ParamAutosave)
    requires a.Valid() && a.dwork.running == Idle && a.dwork.pending.Some? && a.clock <= a.dwork.pending.value
    modifies a
    ensures a.Valid() && a.log.earlies == old(a.log.earlies)
    ensures a.log.attempts == old(a.log.attempts) + [old(a.dwork).pending.value]
  {
    hide ParamAutosave.Valid;
    var due := a.dwork.pending.value;
    a.Start(due);
    if a.locked {
      a.EnableCancel();
    }
    a.Enable(true);
    a.Stamp(due);
  }

  /** Work that is pending before a time stamp: the time stamp may come as late as the work is due. */
  method PendingAtStamp(a: ParamAutosave)
    requires a.Valid() && a.dwork.running == Started && !a.locked
    requires a.dwork.pending.Some? && a.clock <= a.dwork.pending.value
    modifies a
    ensures a.Valid() && a.log.earlies == old(a.log.earlies)
    ensures old(a.log.attempts) <= a.log.attempts && !Spaced(a.log.attempts)
  {
    hide ParamAutosave.Valid, Spaced;
    var due := a.dwork.pending.value;
    ghost var before := a.log.attempts;
    a.Enable(true);
    a.Stamp(due);
    EndRun(a, due);
    RunWhenDue(a);
    assert a.log.attempts == before + [due] + [due];
    TooClose(a.log.attempts, |before|);
  }

  /** Work that is due too soon after the last attempt. */
  method DueTooSoon(a: ParamAutosave)
    requires a.Valid() && a.dwork.running in {Idle, Saving, Retrying, Ending}
    requires a.dwork.pending.Some? && a.clock <= a.dwork.pending.value
    requires !FarEnough(a.log.attempts, a.dwork.pending.value)
    modifies a
    ensures a.Valid() && a.log.earlies == old(a.log.earlies)
    ensures old(a.log.attempts) <= a.log.attempts && !Spaced(a.log.attempts)
  {
    hide ParamAutosave.Valid, Spaced;
    ghost var before := a.log.attempts;
    if a.dwork.running != Idle {
      EndRun(a, a.clock);
    }
    RunWhenDue(a);
    TooClose(a.log.attempts, |before| - 1);
  }

  /**
   * The first early schedule of any run can be continued, without another one, to attempts that are
   * too close.  Without an early schedule they never are (ParamAutosave.SpacedUnlessEarly).
   */
  method EarlyBreaks(a: ParamAutosave, c: nat, now: nat)
    requires a.Valid() && a.clock <= now && c in a.callers && a.callers[c].stored && a.log.earlies == 0
    requires Early(a.log.attempts, a.dwork, now + a.callers[c].delay, a.locked)
    modifies a
    ensures a.Valid() && a.log.earlies == 1 && old(a.log.attempts) <= a.log.attempts
    ensures exists i :: 0 < i < |a.log.attempts| && a.log.attempts[i - 1] + 2_000_000 > a.log.attempts[i]
  {
    a.EarlyWhere(now + a.callers[c].delay);
    hide ParamAutosave.Valid, Paced;
    a.RequestSubmit(c, now);
    if a.dwork.running == Started {
      PendingAtStamp(a);
    } else {
      DueTooSoon(a);
    }
    assert !Spaced(a.log.attempts);
  }

  /**
   * Disabling and enabling autosave while a save is under way, with changes before and after: the
   * work queue refuses the last request, and afterwards no request schedules anything.
   */
  method StuckRun() returns (a: ParamAutosave)
    ensures a.Valid() && a.Stuck() && !a.disabled
    ensures a.log.changes == Changes(4, 1, 1, 2)
  {
    hide ParamAutosave.Valid, LastFailed;
    a := new ParamAutosave();
    a.Request(1, 10_000_000);
    a.Start(10_300_000);
    a.Stamp(10_300_000);
    a.Request(1, 10_350_000);
    a.Enable(false);
    a.Enable(true);
    a.Request(1, 10_400_000);
    var gaveUp := a.Finish(10_500_000, true);
    a.Return();
    a.Request(1, 11_000_000);
  }

  /** The cancelling half of enable() drops work that a request in between takes to be scheduled. */
  method StuckByCancel() returns (a: ParamAutosave)
    ensures a.Valid() && a.Stuck() && !a.disabled
    ensures a.log.changes == Changes(3, 0, 0, 2) && a.log.lost && a.log.attempts == []
  {
    hide ParamAutosave.Valid, LastFailed, Early, FlagExplained;
    a := new ParamAutosave();
    var passed := a.RequestCheck(1, 10_000_000);
    assert a.callers == map[1 := Ticket(REQUEST_DELAY, false, 0)];
    a.Request(2, 10_000_000);
    a.EnableFlags(false);
    a.RequestStore(1);
    a.RequestSubmit(1, 10_100_000);
    a.EnableCancel();
    a.Enable(true);
    a.Request(2, 10_200_000);
  }

  /** One request has passed its check when another one is made and saved. */
  method SavedInBetween() returns (a: ParamAutosave)
    ensures fresh(a) && a.Valid() && a.clock == 10_400_000 && a.dwork == Work(None, false, Idle)
    ensures !a.disabled && !a.locked && a.log.earlies == 0
    ensures a.callers == map[1 := Ticket(REQUEST_DELAY, false, 0)] && a.epoch == 2 && a.log.attempts == [10_300_000]
  {
    hide ParamAutosave.Valid, LastFailed, FlagExplained;
    a := new ParamAutosave();
    var passed := a.RequestCheck(1, 10_000_000);
    assert a.callers == map[1 := Ticket(REQUEST_DELAY, false, 0)];
    a.Request(2, 10_000_000);
    a.Start(10_300_000);
    a.Stamp(10_300_000);
    var gaveUp := a.Finish(10_400_000, true);
    a.Return();
  }

  /** Then it schedules with the delay it computed before that save: two attempts 400 ms apart. */
  method StaleRequest() returns (a: ParamAutosave)
    ensures a.Valid() && a.log.crossed && a.log.earlies == 1
    ensures a.log.attempts == [10_300_000, 10_700_000] && !Spaced(a.log.attempts)
  {
    hide ParamAutosave.Valid, LastFailed, Spaced, FlagExplained;
    a := SavedInBetween();
    a.RequestStore(1);
    a.RequestSubmit(1, 10_400_000);
    a.Start(10_700_000);
    a.Stamp(10_700_000);
    TooClose(a.log.attempts, 0);
  }

  /** A request whose work runs although autosave was disabled and enabled again since its check. */
  method StartedUnannounced() returns (a: ParamAutosave)
    ensures fresh(a) && a.Valid() && a.clock == 10_300_000 && a.lastTimestamp == 0 && a.callers == map[]
    ensures a.dwork == Work(None, false, Started) && !a.scheduled && !a.disabled && !a.locked
    ensures a.log.attempts == [] && a.log.earlies == 0 && a.log.crossed
  {
    hide ParamAutosave.Valid, LastFailed, FlagExplained;
    a := new ParamAutosave();
    var passed := a.RequestCheck(1, 10_000_000);
    a.RequestStore(1);
    a.Enable(false);
    a.Enable(true);
    a.RequestSubmit(1, 10_000_000);
    a.Start(10_300_000);
  }

  /** Then a request whose steps nothing comes between is early: two attempts 300 ms apart, with delays that fit. */
  method EarlyAtomicRequest() returns (a: ParamAutosave)
    ensures a.Valid() && a.log.earlies == 1
    ensures a.log.attempts == [10_300_000, 10_600_000] && !Spaced(a.log.attempts)
  {
    hide ParamAutosave.Valid, LastFailed, Spaced, FlagExplained;
    a := StartedUnannounced();
    a.Request(2, 10_300_000);
    a.Stamp(10_300_000);
    var gaveUp := a.Finish(10_300_000, true);
    a.Return();
    a.Start(10_600_000);
    a.Stamp(10_600_000);
    TooClose(a.log.attempts, 0);
  }
}
