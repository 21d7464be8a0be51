/** Envelope counters: one TPM increment per epoch, a sequence number beside it, and every counter an
    agent ever hands out above the one before, over all its lives. */
module Counters {
  import opened Bits
  import opened Bytes

  const SEQ_BITS := 24
  const SEQ_LIMIT: u64 := 0x100_0000
  const EPOCH_LIMIT: u64 := 0x100_0000_0000

  datatype CounterError = SeqOutOfRange | EpochTooLarge | TpmFailed

  // ----------------------------------------------------------------- composing

  lemma TwoTo24()
    ensures Pow2(24) == 0x100_0000
  {
    assert Pow2(8) == 16 * Pow2(4) == 256;
    assert Pow2(16) == 16 * Pow2(12) == 256 * Pow2(8) == 0x1_0000;
    assert Pow2(24) == 16 * Pow2(20) == 256 * Pow2(16);
  }

  function Compose(epoch: u64, s: u64): Result<nat, CounterError> {
    if s >= SEQ_LIMIT then Err(SeqOutOfRange)
    else if epoch >= EPOCH_LIMIT then Err(EpochTooLarge)
    else Ok(Or(Shl(epoch, SEQ_BITS), s))
  }

  /** A counter as the pair it is composed of. */
  datatype Counter = Counter(epoch: u64, s: u64) {
    predicate Fits() {
      epoch < EPOCH_LIMIT && s < SEQ_LIMIT
    }

    function Value(): nat {
      epoch * 0x100_0000 + s
    }
  }

  predicate Before(a: Counter, b: Counter) {
    a.epoch < b.epoch || (a.epoch == b.epoch && a.s < b.s)
  }

  /** Shift and or compose exactly epoch * 2^24 + seq, and nothing is lost: the result is below 2^64. */
  lemma ComposeExact(epoch: u64, s: u64)
    ensures Compose(epoch, s).Ok? <==> Counter(epoch, s).Fits()
    ensures Compose(epoch, s).Err? ==>
              Compose(epoch, s).error == if s >= SEQ_LIMIT then SeqOutOfRange else EpochTooLarge
    ensures Compose(epoch, s).Ok? ==>
              Compose(epoch, s).value == Counter(epoch, s).Value() < 0x1_0000_0000_0000_0000
  {
    TwoTo24();
    if Counter(epoch, s).Fits() {
      assert Shl(epoch, SEQ_BITS) == epoch * Pow2(24);
      OrIsSum(epoch, s, 24);
    }
  }

  /** Counters are ordered by epoch, then by sequence number: every counter of an epoch is above every
      counter of an earlier one, and different pairs are different counters. */
  lemma LexicographicOrder(a: Counter, b: Counter)
    requires a.Fits() && b.Fits()
    ensures Before(a, b) <==> a.Value() < b.Value()
    ensures a == b <==> a.Value() == b.Value()
  {
  }

  // ------------------------------------------------------------------- the TPM

  /** The NV counter epochs come from, and every envelope counter any life of the agent handed out. `own`
      counts the agent's own increments, `checks` its successful checks of the index, `faults` its calls that
      failed although the TPM could do them. */
  class Nv {
    var value: u64
    ghost var issued: seq<Counter>
    ghost var own: nat
    ghost var checks: nat
    ghost var faults: nat

    constructor (start: u64)
      ensures value == start && issued == [] && own == 0 && checks == 0 && faults == 0
    {
      value := start;
      issued := [];
      own, checks, faults := 0, 0, 0;
    }

    /** `verify_counter`: the index is there and has the right attributes. */
    method Verify() returns (ok: bool)
      modifies this`checks, this`faults
      ensures faults == old(faults) + (if ok then 0 else 1)
      ensures checks == old(checks) + (if ok then 1 else 0)
    {
      ok := *;
      faults := faults + if ok then 0 else 1;
      checks := checks + if ok then 1 else 0;
    }

    /** The TPM refuses to count past the end; a failure is reported before or after it counted. */
    method Increment() returns (ok: bool)
      modifies this`value, this`own, this`faults
      ensures value in {old(value), old(value) + 1} && (ok ==> value as int == old(value) + 1)
      ensures own == old(own) + (value - old(value))
      ensures faults == old(faults) + (if ok || old(value) == U64_MAX then 0 else 1)
    {
      if value == U64_MAX {
        return false;
      }
      ok := *;
      faults := faults + if ok then 0 else 1;
      var counts: bool := *;
      if ok || counts {
        value, own := value + 1, own + 1;
      }
    }

    method Read() returns (r: Result<u64, CounterError>)
      modifies this`faults
      ensures r == Ok(value) || r == Err(TpmFailed)
      ensures faults == old(faults) + (if r.Ok? then 0 else 1)
    {
      var fails: bool := *;
      r := if fails then Err(TpmFailed) else Ok(value);
      faults := faults + if fails then 1 else 0;
    }

    /** Other processes count on. */
    method Drift(to: u64)
      modifies this`value
      ensures old(value) <= value
    {
      if value <= to {
        value := to;
      }
    }

    /** `nv_increment_and_read`, the increment first. Others may count in between: what is read is the own
        increment and theirs. */
    method IncrementAndRead() returns (r: Result<u64, CounterError>, ghost others: nat)
      modifies this`value, this`own, this`faults
      ensures old(value) <= value && old(own) <= own <= old(own) + 1
      ensures r.Ok? ==> r.value == value && value as int == old(value) + 1 + others && own == old(own) + 1
      ensures r.Ok? || r == Err(TpmFailed)
      ensures old(faults) <= faults && (r.Err? ==> faults > old(faults) || old(value) == U64_MAX)
    {
      others := 0;
      var counted := Increment();
      if !counted {
        return Err(TpmFailed), others;
      }
      ghost var mine := value;
      var to: u64 := *;
      Drift(to);
      others := value - mine;
      r := Read();
    }

    /** What was issued fits, came from epochs taken, and increased. */
    ghost predicate Valid()
      reads this
    {
      && (forall i | 0 <= i < |issued| :: issued[i].Fits() && issued[i].epoch <= value)
      && (forall i, j | 0 <= i < j < |issued| :: Before(issued[i], issued[j]))
    }
  }

  // ------------------------------------------------------------- the allocator

  /** `CounterAlloc`: what one life of the agent remembers. */
  class CounterAlloc {
    var epoch: Option<u64>
    var nextSeq: u64

    constructor ()
      ensures epoch == None && nextSeq == 0
    {
      epoch := None;
      nextSeq := 0;
    }

    /** The epoch in hand was taken from the TPM, and what was issued is before the next counter. */
    ghost predicate Valid(nv: Nv)
      reads this, nv
    {
      && nv.Valid()
      && nextSeq <= SEQ_LIMIT
      && (epoch.Some? ==> epoch.value <= nv.value
                          && forall i | 0 <= i < |nv.issued| :: Before(nv.issued[i], Counter(epoch.value, nextSeq)))
    }

    /** The next counter: above every counter ever handed out by any life. With an epoch that is not used up
        it is the next of that epoch and the TPM is not touched; otherwise it is the first of an epoch newly
        taken, by one increment after a check of the index. An error hands out none, and there is one only
        when a call failed, the TPM's counter is at its end, or the epoch is too large to be composed. */
    method Next(nv: Nv) returns (r: Result<nat, CounterError>)
      requires Valid(nv)
      modifies this, nv
      ensures Valid(nv)
      ensures old(nv.value) <= nv.value
      ensures r.Err? ==> nv.issued == old(nv.issued)
      ensures r.Ok? ==>
                && epoch.Some? && nextSeq > 0
                && nv.issued == old(nv.issued) + [Counter(epoch.value, nextSeq - 1)]
                && r.value == Counter(epoch.value, nextSeq - 1).Value()
      ensures old(epoch).Some? && old(nextSeq) < SEQ_LIMIT ==>
                epoch == old(epoch) && nv.value == old(nv.value) && (r.Ok? ==> nextSeq == old(nextSeq) + 1)
      ensures old(epoch).Some? && old(nextSeq) < SEQ_LIMIT ==>
                nv.own == old(nv.own) && nv.faults == old(nv.faults) && (r.Ok? <==> old(epoch).value < EPOCH_LIMIT)
      ensures r.Ok? && (old(epoch).None? || old(nextSeq) >= SEQ_LIMIT) ==>
                nextSeq == 1 && epoch.value > old(nv.value) && nv.own == old(nv.own) + 1
      ensures old(nv.own) <= nv.own <= old(nv.own) + 1 && old(nv.faults) <= nv.faults
      ensures nv.checks == old(nv.checks) ==> nv.own == old(nv.own) && nv.value == old(nv.value)
      ensures r.Err? ==>
                || (r.error.TpmFailed? && (nv.faults > old(nv.faults) || old(nv.value) == U64_MAX))
                || (r.error.EpochTooLarge? && epoch.Some? && epoch.value >= EPOCH_LIMIT)
    {
      hide Compose;
      if epoch.None? || nextSeq >= SEQ_LIMIT {
        var present := nv.Verify();
        if !present {
          return Err(TpmFailed);
        }
        var taken;
        ghost var others;
        taken, others := nv.IncrementAndRead();
        if taken.Err? {
          return Err(taken.error);
        }
        epoch := Some(taken.value);
        nextSeq := 0;
      }
      ComposeExact(epoch.value, nextSeq);
      var c := Compose(epoch.value, nextSeq);
      if c.Err? {
        return Err(c.error);
      }
      nv.issued := nv.issued + [Counter(epoch.value, nextSeq)];
      nextSeq := nextSeq + 1;
      return c;
    }
  }

  function Total(lives: seq<seq<u64>>): nat {
    if lives == [] then 0 else Total(lives[..|lives| - 1]) + |lives[|lives| - 1]|
  }

  /** Any number of lives on one TPM. A life is a list of calls, each after the counter may have moved
      on; it ends, at a crash, wherever its list does. With no failing call, and epochs that can be composed,
      every call hands out a counter. */
  method Lives(nv: Nv, lives: seq<seq<u64>>)
    requires nv.Valid()
    modifies nv
    ensures nv.Valid() && old(nv.issued) <= nv.issued
    ensures forall i, j | 0 <= i < j < |nv.issued| :: nv.issued[i].Value() < nv.issued[j].Value()
    ensures nv.faults == old(nv.faults) && nv.value < EPOCH_LIMIT ==>
              |nv.issued| == |old(nv.issued)| + Total(lives)
  {
    for life := 0 to |lives|
      invariant nv.Valid() && old(nv.issued) <= nv.issued && old(nv.faults) <= nv.faults
      invariant nv.faults == old(nv.faults) && nv.value < EPOCH_LIMIT ==>
                  |nv.issued| == |old(nv.issued)| + Total(lives[..life])
    {
      var alloc := new CounterAlloc();
      assert lives[..life + 1][..life] == lives[..life];
      for call := 0 to |lives[life]|
        invariant alloc.Valid(nv) && old(nv.issued) <= nv.issued && old(nv.faults) <= nv.faults
        invariant nv.faults == old(nv.faults) && nv.value < EPOCH_LIMIT ==>
                    |nv.issued| == |old(nv.issued)| + Total(lives[..life]) + call
      {
        nv.Drift(lives[life][call]);
        var _ := alloc.Next(nv);
      }
    }
    assert lives[..|lives|] == lives;
    forall i, j | 0 <= i < j < |nv.issued|
      ensures nv.issued[i].Value() < nv.issued[j].Value()
    {
      LexicographicOrder(nv.issued[i], nv.issued[j]);
    }
  }

  // ------------------------------------------------------------- several callers

  /** What callers do to the counter, one event after another. */
  datatype NvEvent = Increments(caller: nat) | Reads(caller: nat)

  function ValueAfter(start: nat, events: seq<NvEvent>): nat {
    if events == [] then start else
      ValueAfter(start, events[..|events| - 1]) + if events[|events| - 1].Increments? then 1 else 0
  }

  lemma {:induction false} OnlyIncrementsCount(start: nat, events: seq<NvEvent>, p: nat, q: nat)
    requires p <= q <= |events|
    ensures ValueAfter(start, events[..p]) <= ValueAfter(start, events[..q])
    ensures ValueAfter(start, events[..p]) == ValueAfter(start, events[..q]) <==>
            forall i | p <= i < q :: !events[i].Increments?
  {
    if p < q {
      OnlyIncrementsCount(start, events, p, q - 1);
      assert events[..q][..q - 1] == events[..q - 1];
    }
  }

  /** Two reads give one value exactly when no increment lies between them. */
  lemma ReadsShareIff(start: nat, events: seq<NvEvent>, p: nat, q: nat)
    requires p < q < |events| && events[p].Reads? && events[q].Reads?
    ensures ValueAfter(start, events[..p]) == ValueAfter(start, events[..q]) <==>
            forall i | p < i < q :: !events[i].Increments?
  {
    OnlyIncrementsCount(start, events, p, q);
  }

  /** So a caller whose increment comes after another's read gets another value ... */
  lemma LaterIncrementLaterValue(start: nat, events: seq<NvEvent>, p: nat, i: nat, q: nat)
    requires p < i < q < |events| && events[p].Reads? && events[i].Increments? && events[q].Reads?
    ensures ValueAfter(start, events[..p]) < ValueAfter(start, events[..q])
  {
    ReadsShareIff(start, events, p, q);
    OnlyIncrementsCount(start, events, p, q);
  }

  /** ... and two that race, both incrementing before either reads, share one. */
  lemma RacingCallersShareAValue(start: nat)
    ensures var events := [Increments(0), Increments(1), Reads(0), Reads(1)];
            ValueAfter(start, events[..2]) == ValueAfter(start, events[..3]) == start + 2
  {
    var events := [Increments(0), Increments(1), Reads(0), Reads(1)];
    assert events[..2][..1] == [Increments(0)] && [Increments(0)][..0] == [];
    assert ValueAfter(start, [Increments(0)]) == start + 1;
    ReadsShareIff(start, events, 2, 3);
  }
}
