/** The one-shot timer that programs schedule, and the generations that tell its events apart. */
module Timer {
  import opened Bytes

  type u64 = n: nat | n < 0x1_0000_0000_0000_0000

  const HELPER_ERROR: u64 := 0xffff_ffff_ffff_ffff
  const MAX_DELAY := 0xffff_ffff

  datatype TimerRequest = TimerRequest(generation: u32, deadline: nat, cookie: u64)

  datatype TimerEvent = TimerEvent(generation: u32, cookie: u64)

  /** A generation, a timer not yet due and an event not yet taken. Time counts in milliseconds. */
  datatype Clockwork = Clockwork(generation: u32, pending: Option<TimerRequest>, ready: Option<TimerEvent>)

  const STOPPED := Clockwork(0, None, None)

  /** The next generation, which wraps around but skips zero. */
  function NextGeneration(generation: u32): u32 {
    if generation == 0xffff_ffff then 1 else generation + 1
  }

  function Schedule(t: Clockwork, now: nat, delay: u64, cookie: u64): (Clockwork, u64) {
    if delay > MAX_DELAY then (t, HELPER_ERROR)
    else
      var generation := NextGeneration(t.generation);
      (Clockwork(generation, Some(TimerRequest(generation, now + delay, cookie)), None), 0)
  }

  function Cancel(t: Clockwork): Clockwork { Clockwork(NextGeneration(t.generation), None, None) }

  function Poll(t: Clockwork, now: nat): Clockwork {
    if t.pending.Some? && now >= t.pending.value.deadline
    then t.(pending := None, ready := Some(TimerEvent(t.pending.value.generation, t.pending.value.cookie)))
    else t
  }

  function Restored(t: Clockwork, event: TimerEvent): Clockwork {
    if t.generation == event.generation && t.ready.None? then t.(ready := Some(event)) else t
  }

  class TimerState {
    var generation: u32
    var pending: Option<TimerRequest>
    var ready: Option<TimerEvent>

    ghost function Model(): Clockwork reads this { Clockwork(generation, pending, ready) }

    constructor ()
      ensures Model() == STOPPED
    {
      generation, pending, ready := 0, None, None;
    }

    method NextTimerGeneration() returns (next: u32)
      modifies this`generation
      ensures next == generation == NextGeneration(old(generation)) && next != 0
    {
      generation := if generation == 0xffff_ffff then 0 else generation + 1;
      if generation == 0 {
        generation := 1;
      }
      next := generation;
    }

    method ScheduleTimer(now: nat, delay: u64, cookie: u64) returns (code: u64)
      modifies this
      ensures (Model(), code) == Schedule(old(Model()), now, delay, cookie)
    {
      if delay > MAX_DELAY {
        return HELPER_ERROR;
      }
      var next := NextTimerGeneration();
      ready := None;
      pending := Some(TimerRequest(next, now + delay, cookie));
      return 0;
    }

    method CancelTimer()
      modifies this
      ensures Model() == Cancel(old(Model()))
    {
      var _ := NextTimerGeneration();
      pending := None;
      ready := None;
    }

    method PollTimer(now: nat)
      modifies this
      ensures Model() == Poll(old(Model()), now)
    {
      if pending.Some? && now >= pending.value.deadline {
        ready := Some(TimerEvent(pending.value.generation, pending.value.cookie));
        pending := None;
      }
    }

    method TakeReady() returns (event: Option<TimerEvent>)
      modifies this`ready
      ensures event == old(ready) && Model() == old(Model()).(ready := None)
    {
      event := ready;
      ready := None;
    }

    method RestoreReady(event: TimerEvent)
      modifies this`ready
      ensures Model() == Restored(old(Model()), event)
    {
      if generation == event.generation && ready.None? {
        ready := Some(event);
      }
    }
  }

  /** What the helpers and the main loop do to the timer, in numbers: a delay of up to 2^32 - 1 is taken,
      a longer one answers 2^64 - 1; a timer falls due at its deadline and not before. */
  lemma TimerRaw(t: Clockwork, now: nat, delay: u64, cookie: u64)
    ensures var (t', code) := Schedule(t, now, delay, cookie);
      if delay <= 4294967295 then
        && code == 0 && t'.ready == None
        && t'.pending == Some(TimerRequest(t'.generation, now + delay, cookie))
        && t'.generation == (if t.generation == 4294967295 then 1 else t.generation + 1)
      else code == 18446744073709551615 && t' == t
    ensures t.pending.Some? ==>
              Poll(t, now) == if now < t.pending.value.deadline then t
                              else Clockwork(t.generation, None, Some(TimerEvent(t.pending.value.generation,
                                                                                 t.pending.value.cookie)))
    ensures t.pending.None? ==> Poll(t, now) == t
    ensures Cancel(t).pending == None && Cancel(t).ready == None
    ensures Cancel(t).generation == Schedule(t, 0, 0, 0).0.generation
  {}

  /** An event is put back exactly if it is current and none is ready. */
  lemma RestoreRaw(t: Clockwork, event: TimerEvent)
    ensures Restored(t, event).generation == t.generation && Restored(t, event).pending == t.pending
    ensures Restored(t, event).ready
         == if t.ready == None && event.generation == t.generation then Some(event) else t.ready
  {}

  // ---- Generations and history ----

  /** What programs did to the timer since boot: each entry bumped the generation once. */
  datatype Act = Scheduled(deadline: nat, cookie: u64) | Cancelled

  /** How many bumps bring the same generation back. */
  const CYCLE := 0xffff_ffff

  function GenerationAfter(bumps: nat): u32 {
    if bumps == 0 then 0 else (bumps - 1) % CYCLE + 1
  }

  lemma Counted(k: nat, n: nat)
    requires n > 0
    ensures (k + 1) % n == if k % n == n - 1 then 0 else k % n + 1
  {
    var q, r := k / n, k % n;
    assert k == q * n + r;
    if r == n - 1 {
      assert k + 1 == (q + 1) * n;
      RemainderOf(k + 1, n, q + 1, 0);
    } else {
      RemainderOf(k + 1, n, q, r + 1);
    }
  }

  lemma RemainderOf(k: nat, n: nat, q: nat, r: nat)
    requires r < n && k == q * n + r
    ensures k % n == r
  {
    var p := k / n;
    assert k == p * n + k % n;
    Multiples(p, q, n);
    Multiples(q, p, n);
  }

  lemma NextGenerationCounts(bumps: nat)
    ensures NextGeneration(GenerationAfter(bumps)) == GenerationAfter(bumps + 1) != 0
  {
    if bumps > 0 {
      Counted(bumps - 1, CYCLE);
    }
  }

  /** Two bump counts share a generation exactly if they lie a whole number of cycles apart. */
  lemma SameGeneration(earlier: nat, later: nat)
    requires 1 <= earlier <= later
    ensures GenerationAfter(earlier) == GenerationAfter(later) <==> (later - earlier) % CYCLE == 0
  {
    SameRemainder(earlier - 1, later - earlier, CYCLE);
  }

  lemma SameRemainder(a: nat, d: nat, n: nat)
    requires n > 0
    ensures a % n == (a + d) % n <==> d % n == 0
  {
    var q, r := a / n, a % n;
    var p, s := d / n, d % n;
    assert a + d == (q + p) * n + r + s;
    if r + s < n {
      RemainderOf(a + d, n, q + p, r + s);
    } else {
      assert a + d == (q + p + 1) * n + (r + s - n);
      RemainderOf(a + d, n, q + p + 1, r + s - n);
    }
  }

  /** The timer agrees with its history: only the last entry can still be waiting or due, and only
      if it was a schedule; a due event's deadline has passed. */
  ghost predicate Follows(t: Clockwork, acts: seq<Act>, now: nat) {
    && t.generation == GenerationAfter(|acts|)
    && (t.pending.Some? ==> acts != [] && t.ready.None?
                            && acts[|acts| - 1] == Scheduled(t.pending.value.deadline, t.pending.value.cookie)
                            && t.pending.value.generation == t.generation)
    && (t.ready.Some? ==> acts != [] && acts[|acts| - 1].Scheduled?
                          && acts[|acts| - 1].cookie == t.ready.value.cookie
                          && acts[|acts| - 1].deadline <= now
                          && t.ready.value.generation == t.generation)
  }

  lemma ScheduleFollows(t: Clockwork, acts: seq<Act>, now: nat, delay: u64, cookie: u64)
    requires Follows(t, acts, now)
    ensures delay <= MAX_DELAY ==>
              Follows(Schedule(t, now, delay, cookie).0, acts + [Scheduled(now + delay, cookie)], now)
    ensures delay > MAX_DELAY ==> Schedule(t, now, delay, cookie) == (t, HELPER_ERROR)
  {
    hide GenerationAfter;
    NextGenerationCounts(|acts|);
  }

  lemma CancelFollows(t: Clockwork, acts: seq<Act>, now: nat)
    requires Follows(t, acts, now)
    ensures Follows(Cancel(t), acts + [Cancelled], now)
  {
    hide GenerationAfter;
    NextGenerationCounts(|acts|);
  }

  lemma PollFollows(t: Clockwork, acts: seq<Act>, now: nat)
    requires Follows(t, acts, now)
    ensures Follows(Poll(t, now), acts, now)
    ensures Poll(t, now).pending.Some? || Poll(t, now).ready.Some? ==> t.pending.Some? || t.ready.Some?
  {
    hide GenerationAfter;
  }
}
