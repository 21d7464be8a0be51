/** `trip`, `recover` and `settle`: read, increment, read, with other writers at every point. */
module StopCommands {
  import opened Bytes
  import opened StopCodec
  import opened StopRuns
  import opened StopDevice

  datatype Transition = Changed(from: u64, to: u64) | AlreadyThere(at: u64) {
    function Reached(): u64 {
      if Changed? then to else at
    }
  }

  /** What a failed command still knows of the counter: its value at a later read, or nothing. */
  datatype TransitionError = TransitionError(now: Option<u64>)

  /** Between a read of `from` and a later read of `from + 1` there is room for one increment. */
  lemma SoleIncrement(site: Site, run: Run, p: nat, m: nat, q: nat, from: u64)
    requires ValidRun(site, run) && p <= m < q < |run.states| && run.steps[m].Increment?
    requires from < U64_MAX && run.states[p].counter == Some(from) && run.states[q].counter == Some(from + 1)
    ensures forall k | p <= k < q && run.steps[k].Increment? :: k == m
  {
    assert StepAt(site, run, m);
    CounterNeverFallsBelow(site, run, p, m);
    CounterNeverFallsBelow(site, run, m + 1, q);
    CounterHeldBetween(site, run, p, m, from);
    CounterHeldBetween(site, run, m + 1, q, from + 1);
  }

  /** What a command did to the counter: `mine` is the one increment it caused, if any, p and q the
      states of its first and last read. */
  ghost predicate Moved(run: Run, want: State, r: Result<Transition, TransitionError>, mine: Option<nat>, p: nat,
                        q: nat)
  {
    && |run.states| == |run.steps| + 1 && p <= q < |run.states|
    && (mine.Some? ==>
          && p <= mine.value < |run.steps| && run.steps[mine.value].Increment?
          && run.states[p].counter.Some? && StateOf(run.states[p].counter.value) != want)
    && match r
       case Ok(AlreadyThere(at)) =>
         mine.None? && run.states[p].counter == Some(at) && StateOf(at) == want
       case Ok(Changed(from, to)) =>
         && to == from + 1 && StateOf(from) != want && StateOf(to) == want
         && run.states[p].counter == Some(from) && run.states[q].counter == Some(to)
         && mine.Some? && mine.value < q && forall k | p <= k < q && run.steps[k].Increment? :: k == mine.value
       case Err(TransitionError(now)) =>
         now.Some? ==> run.states[q].counter == now
  }

  ghost function Only(mine: Option<nat>): set<nat> {
    if mine.None? then {} else {mine.value}
  }

  /** Why a command failed: the counter could not be read at first; or a call failed although the state allowed
      it, the counter was undefined or at its end on the way, or the second read shows another writer. And
      what it then says of the counter: after a failure it is read once more. `from` is the first read,
      `faults` the failed calls. */
  ghost predicate FailedFor(run: Run, now: Option<u64>, mine: Option<nat>, p: nat, q: nat, from: Option<u64>,
                            faults: nat)
  {
    && p <= q < |run.states|
    && (from.None? ==> now.None? && mine.None? && (faults > 0 || run.states[p].counter.None?))
    && (from.Some? ==>
          && run.states[p].counter == from
          && (faults > 0 || Stuck(run, p, q) ||
              (mine.Some? && now.Some? && run.states[q].counter == now && now.value as int != from.value as int + 1))
          && (now.None? ==> faults >= 2 || Stuck(run, p, q)))
  }

  /** At most one increment, only when the parity read is the wrong one, and `Changed` only when that
      increment was the only one between the two reads. It fails only for the reasons of `FailedFor`: alone,
      with a counter short of its end and no failing call, it succeeds. */
  method MoveTo(chip: Chip, want: State)
    returns (r: Result<Transition, TransitionError>, ghost mine: Option<nat>, ghost p: nat, ghost q: nat,
             ghost from: Option<u64>)
    requires chip.Valid()
    modifies chip
    ensures chip.Valid() && Continues(old(chip.run), chip.run) && chip.w.asked == old(chip.w.asked)
    ensures chip.own == old(chip.own) + Only(mine) && old(chip.faults) <= chip.faults
    ensures |old(chip.run.steps)| <= p && Moved(chip.run, want, r, mine, p, q)
    ensures r.Err? ==> FailedFor(chip.run, r.error.now, mine, p, q, from, chip.faults - old(chip.faults))
    ensures chip.alone ==> p == |old(chip.run.steps)| && q == |chip.run.steps|
    ensures chip.alone ==> chip.w.record == old(chip.w.record) && chip.w.sig == old(chip.w.sig)
    ensures chip.alone && r.Ok? ==> chip.w.counter == Some(r.value.Reached()) && StateOf(r.value.Reached()) == want
    ensures Calm(chip.alone, old(chip.w), old(chip.faults), chip.faults) ==>
              r == Ok(Alone(old(chip.w).counter.value, want))
  {
    hide After, Enabled, StepAt, SignedAt, World.Valid;
    mine, from := None, None;
    var first := chip.ReadCounter();
    p := |chip.run.steps|;
    q := p;
    if first.None? {
      return Err(TransitionError(None)), mine, p, q, from;
    }
    var n := first.value;
    from := first;
    assert chip.run.states[p].counter == Some(n);
    if StateOf(n) == want {
      return Ok(AlreadyThere(n)), mine, p, q, from;
    }
    r, mine, q := Advance(chip, n, want);
  }

  /** The increment and the read that has to show it alone. */
  method Advance(chip: Chip, n: u64, want: State)
    returns (r: Result<Transition, TransitionError>, ghost mine: Option<nat>, ghost q: nat)
    requires chip.Valid() && chip.w.counter == Some(n) && StateOf(n) != want
    modifies chip
    ensures chip.Valid() && Continues(old(chip.run), chip.run) && chip.w.asked == old(chip.w.asked)
    ensures chip.own == old(chip.own) + Only(mine) && old(chip.faults) <= chip.faults
    ensures Moved(chip.run, want, r, mine, |old(chip.run.steps)|, q)
    ensures r.Err? ==>
              FailedFor(chip.run, r.error.now, mine, |old(chip.run.steps)|, q, Some(n), chip.faults - old(chip.faults))
    ensures r.Ok? ==> r.value.Changed?
    ensures chip.alone ==> q == |chip.run.steps| && chip.w.record == old(chip.w.record) && chip.w.sig == old(chip.w.sig)
    ensures chip.alone && r.Ok? ==> chip.w.counter == Some(r.value.Reached())
    ensures chip.alone && n < U64_MAX && r.Err? ==> chip.faults > old(chip.faults)
  {
    hide After, Enabled, StepAt, SignedAt, World.Valid;
    ghost var p := |chip.run.steps|;
    ghost var before := chip.own;
    assert chip.run.states[p].counter == Some(n);
    var ok := chip.Increment();
    mine := if chip.own == before then None else Some(|chip.run.steps| - 1);
    if !ok {
      var now := chip.ReadCounter();
      q := |chip.run.steps|;
      return Err(TransitionError(now)), mine, q;
    }
    ghost var m := |chip.run.steps| - 1;
    var second := chip.ReadCounter();
    if second.None? {
      var now := chip.ReadCounter();
      q := |chip.run.steps|;
      return Err(TransitionError(now)), mine, q;
    }
    q := |chip.run.steps|;
    var to := second.value;
    if to as int != n as int + 1 {
      return Err(TransitionError(Some(to))), mine, q;
    }
    SoleIncrement(chip.site, chip.run, p, m, q, n);
    return Ok(Changed(n, to)), mine, q;
  }

  lemma MoreFaults(run: Run, now: Option<u64>, mine: Option<nat>, p: nat, q: nat, from: Option<u64>, few: nat,
                   faults: nat)
    requires FailedFor(run, now, mine, p, q, from, few) && few <= faults
    ensures FailedFor(run, now, mine, p, q, from, faults)
  {
  }

  /** Nobody else is about, no call failed, and the counter can be counted on. */
  ghost predicate Calm(alone: bool, w: World, faultsBefore: nat, faults: nat) {
    alone && faults == faultsBefore && w.counter.Some? && w.counter.value < U64_MAX
  }

  /** What moving a counter at `n` does when nobody else is about: nothing, or one step up. */
  function Alone(n: u64, want: State): Transition
    requires n < U64_MAX
  {
    if StateOf(n) == want then AlreadyThere(n) else Changed(n, n + 1)
  }

  /** Nobody is asked for a release here, and a second trip finds the counter odd and leaves it alone.
      Success is reported only on a counter that was odd at the last read. */
  method Trip(chip: Chip)
    returns (r: Result<Transition, TransitionError>, ghost mine: Option<nat>, ghost p: nat, ghost q: nat,
             ghost from: Option<u64>)
    requires chip.Valid()
    modifies chip
    ensures chip.Valid() && Continues(old(chip.run), chip.run)
    ensures chip.own == old(chip.own) + Only(mine) && old(chip.faults) <= chip.faults
    ensures |old(chip.run.steps)| <= p && Moved(chip.run, Stopped, r, mine, p, q)
    ensures r.Ok? ==> exists k | p <= k <= q ::
              chip.run.states[k].counter.Some? && chip.run.states[k].counter.value % 2 == 1
    ensures chip.alone && r.Ok? ==> chip.w.counter.Some? && chip.w.counter.value % 2 == 1
    ensures r.Err? ==> FailedFor(chip.run, r.error.now, mine, p, q, from, chip.faults - old(chip.faults))
    ensures Calm(chip.alone, old(chip.w), old(chip.faults), chip.faults) ==>
              && r == Ok(Alone(old(chip.w).counter.value, Stopped))
              && chip.w.counter == Some(old(chip.w).counter.value + 1 - old(chip.w).counter.value % 2)
  {
    r, mine, p, q, from := MoveTo(chip, Stopped);
    if r.Ok? {
      assert chip.run.states[if r.value.Changed? then q else p].counter.Some?;
    }
  }

  /** For a counter that was just defined: the same rule for either state. */
  method Settle(chip: Chip, want: State)
    returns (r: Result<Transition, TransitionError>, ghost mine: Option<nat>, ghost p: nat, ghost q: nat,
             ghost from: Option<u64>)
    requires chip.Valid()
    modifies chip
    ensures chip.Valid() && Continues(old(chip.run), chip.run)
    ensures chip.own == old(chip.own) + Only(mine) && old(chip.faults) <= chip.faults
    ensures |old(chip.run.steps)| <= p && Moved(chip.run, want, r, mine, p, q)
    ensures chip.alone && r.Ok? ==> chip.w.counter.Some? && StateOf(chip.w.counter.value) == want
    ensures r.Err? ==> FailedFor(chip.run, r.error.now, mine, p, q, from, chip.faults - old(chip.faults))
    ensures Calm(chip.alone, old(chip.w), old(chip.faults), chip.faults) ==>
              r == Ok(Alone(old(chip.w).counter.value, want))
  {
    r, mine, p, q, from := MoveTo(chip, want);
  }

  /** The operator's release for `target` was read after the counter had been read at state s, its record
      at state m and its signature at state g; `target` is the value read if even, the one above it if odd. */
  ghost predicate Licensed(site: Site, run: Run, target: u64, s: nat, m: nat, g: nat) {
    && s <= m <= g < |run.states| && run.states[s].counter.Some?
    && target as int == run.states[s].counter.value + run.states[s].counter.value % 2
    && GateAt(site, ReadPair(run.states[m].record, run.states[g].sig), target) == Some(Open)
  }

  /** Why nothing was tried: the counter could not be read or is at its end, or the gate at the target was
      not open, or could not be looked at. */
  ghost predicate NotLicensed(site: Site, run: Run, now: Option<u64>, target: u64, s: nat, m: nat, g: nat,
                              faults: nat)
  {
    && s < |run.states|
    && if now.None? then faults > 0 || run.states[s].counter.None?
       else
         && run.states[s].counter == now
         && (now.value == U64_MAX ||
             (&& target as int == now.value + now.value % 2 && s <= m <= g < |run.states|
              && (faults > 0 || GateAt(site, ReadPair(run.states[m].record, run.states[g].sig), target) != Some(Open))))
  }

  /** Lift a stop. No increment without a release that verified for the epoch computed from the first
      read, and none when that value is even. What `MoveTo` promises holds of its second phase: at most
      one increment of its own, only when the parity read is odd, and `Changed` only when that increment was
      the only one. Alone on the device, success means the gate is open; with other writers the release
      that was checked opens the value reached exactly when that is the value it was checked for. It fails
      only when the gate at the target is not open, or for the reasons of `FailedFor`; alone, with a counter
      short of its end and no failing call, it succeeds exactly when the release opens the target. */
  method Recover(chip: Chip)
    returns (r: Result<Transition, TransitionError>, ghost mine: Option<nat>, ghost target: u64,
             ghost s: nat, ghost m: nat, ghost g: nat, ghost p: nat, ghost q: nat, ghost from: Option<u64>)
    requires chip.Valid()
    modifies chip
    ensures chip.Valid() && Continues(old(chip.run), chip.run)
    ensures chip.own == old(chip.own) + Only(mine) && old(chip.faults) <= chip.faults
    ensures |old(chip.run.steps)| <= s <= p && Moved(chip.run, Running, r, mine, p, q)
    ensures r.Ok? || mine.Some? ==> Licensed(chip.site, chip.run, target, s, m, g) && (mine.Some? ==> g <= p)
    ensures mine.Some? ==> StateOf(chip.run.states[s].counter.value).Stopped?
    ensures r.Ok? && chip.run.states[s].counter == Some(target) ==> r == Ok(AlreadyThere(target)) && p == s
    ensures r.Ok? && r.value.Changed? ==>
              (GateAt(chip.site, ReadPair(chip.run.states[m].record, chip.run.states[g].sig), r.value.to) == Some(Open)
               <==> r.value.to == target)
    ensures chip.alone && r.Ok? ==>
              && chip.w.counter.Some?
              && GateAt(chip.site, ReadPair(chip.w.record, chip.w.sig), chip.w.counter.value) == Some(Open)
    ensures r.Err? ==>
              || NotLicensed(chip.site, chip.run, r.error.now, target, s, m, g, chip.faults - old(chip.faults))
              || FailedFor(chip.run, r.error.now, mine, p, q, from, chip.faults - old(chip.faults))
    ensures Calm(chip.alone, old(chip.w), old(chip.faults), chip.faults) ==>
              var n := old(chip.w).counter.value;
              var opens := GateAt(chip.site, ReadPair(old(chip.w).record, old(chip.w).sig), n + n % 2) == Some(Open);
              r == if opens then Ok(Alone(n, Running)) else Err(TransitionError(Some(n)))
  {
    hide GateAt, ReadPair, After, Enabled, StepAt, SignedAt, ValidRun, FailedFor, World.Valid;
    mine, target, s, m, g, from := None, 0, 0, 0, 0, None;
    var first := chip.ReadCounter();
    s := |chip.run.steps|;
    p, q := s, s;
    if first.None? {
      return Err(TransitionError(None)), mine, target, s, m, g, p, q, from;
    }
    var n := first.value;
    if n == U64_MAX {
      return Err(TransitionError(Some(n))), mine, target, s, m, g, p, q, from;
    }
    var goal: u64 := if StateOf(n).Running? then n else n + 1;
    target := goal;
    var gate;
    gate, m := chip.GateNow(goal, None);
    g := |chip.run.steps|;
    if gate != Some(Open) {
      return Err(TransitionError(Some(n))), mine, target, s, m, g, p, q, from;
    }
    ghost var file := ReadPair(chip.run.states[m].record, chip.run.states[g].sig);
    if goal == n {
      return Ok(AlreadyThere(n)), mine, target, s, m, g, p, q, from;
    }
    ghost var base := chip.faults;
    r, mine, p, q, from := MoveTo(chip, Running);
    if r.Err? {
      MoreFaults(chip.run, r.error.now, mine, p, q, from, chip.faults - base, chip.faults - old(chip.faults));
    }
    if r.Ok? && r.value.Changed? && GateAt(chip.site, file, r.value.to) == Some(Open) {
      OneReleaseOneValue(chip.site, file, r.value.to, goal);
    }
  }
}
