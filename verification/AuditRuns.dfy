/** The audit directory over any number of cycles, lives of the agent and power cuts. */
module AuditRuns {
  import opened Bytes
  import opened AuditNames
  import opened Counters
  import opened Disk
  import opened Prune
  import opened Publish
  import Release

  /** The name of an envelope, at least 12 digits. */
  function StemFor(counter: u64): Bytes {
    Release.Padded(counter, 12)
  }

  datatype Pruning = Pruning(seen: set<Bytes>, removed: seq<Stem>)

  /** What was done so far: the envelope tried under each counter, the counters whose publishing succeeded,
      and every pruning with the listing it was made on. */
  datatype Ledger = Ledger(envs: map<u64, Envelope>, done: set<u64>, prunings: seq<Pruning>)

  /** The stems pruned. */
  ghost function Pruned(prunings: seq<Pruning>): set<Bytes> {
    set i, j | 0 <= i < |prunings| && 0 <= j < |prunings[i].removed| :: prunings[i].removed[j].1
  }

  // ------------------------------------------------------------------- claims

  /** Every file there is complete, and unless its envelope was pruned, a tag has all four. */
  ghost predicate InGoodOrder(after: map<Bytes, Bytes>, c: u64, env: Envelope, pruned: set<Bytes>) {
    && (forall ext: Ext | Final(StemFor(c), ext) in after :: after[Final(StemFor(c), ext)] == env.Of(ext))
    && (StemFor(c) !in pruned && Final(StemFor(c), Tag) in after ==> forall ext: Ext :: Final(StemFor(c), ext) in after)
  }

  /** Whatever a power cut leaves of this state, all envelopes are in good order. */
  ghost predicate Orderly(fs: Fs, l: Ledger) {
    forall c: u64, after: map<Bytes, Bytes> | c in l.envs && MayBecome(fs, after) ::
      InGoodOrder(after, c, l.envs[c], Pruned(l.prunings))
  }

  /** No file has the name of a counter from here on. */
  ghost predicate NewFrom(fs: Fs, next: nat) {
    forall c: u64, ext: Ext, got: Option<Bytes> | c >= next && Fate(fs, Final(StemFor(c), ext), got) :: got.None?
  }

  /** Published envelopes that were not pruned survive any power cut. */
  ghost predicate Lasting(fs: Fs, l: Ledger) {
    forall c: u64 | c in l.done :: c in l.envs &&
      (StemFor(c) !in Pruned(l.prunings) ==> Published(fs, StemFor(c), l.envs[c]))
  }

  /** Every pruning removed exactly the smallest stems of its listing beyond `keep`. */
  ghost predicate Bounded(keep: nat, l: Ledger) {
    forall i | 0 <= i < |l.prunings| :: IsPruning(l.prunings[i].seen, keep, l.prunings[i].removed)
  }

  // -------------------------------------------------------------------- names

  lemma StemForIsStem(c: u64)
    ensures IsStem(StemFor(c))
  {
    Release.PaddedValue(c, 12);
  }

  /** The names of an envelope are no names of another one, and no half-written names. */
  lemma NamesApart(a: u64, x: Ext, b: u64)
    ensures !IsPartial(Final(StemFor(a), x))
    ensures a != b ==> Final(StemFor(a), x) !in PartNames(StemFor(b)) + FinalNames(StemFor(b))
  {
    StemForIsStem(a);
    StemForIsStem(b);
    hide IsPartial, Final, Part, EnvelopeName, StemOf, Release.Padded, Release.AllDigits;
    var n := Final(StemFor(a), x);
    EnvelopeNameExact(n, StemFor(a), x);
    if IsPartial(n) {
      PartialIsNoEnvelope(n);
    }
    forall y: Ext
      ensures n != Part(StemFor(b), y) && (a != b ==> n != Final(StemFor(b), y))
    {
      PartialExact(Part(StemFor(b), y));
      CounterStem(a, x);
      CounterStem(b, y);
    }
  }

  // ----------------------------------------------------------------- one state

  /** Fates a state allows can be put together into one outcome of it. */
  lemma Graft(base: Fs, after: map<Bytes, Bytes>, names: set<Bytes>) returns (grafted: map<Bytes, Bytes>)
    requires base.Valid() && forall n | n in names :: Fate(base, n, Lookup(after, n))
    ensures MayBecome(base, grafted) && forall n | n in names :: Lookup(grafted, n) == Lookup(after, n)
  {
    hide Fate, Contents;
    var seen := Contents(base);
    ContentsMaySurvive(base);
    grafted := map n | n in seen.Keys + after.Keys && (if n in names then n in after else n in seen) ::
      if n in names then after[n] else seen[n];
    forall n: Bytes
      ensures Fate(base, n, Lookup(grafted, n))
      ensures Lookup(grafted, n) == if n in names then Lookup(after, n) else Lookup(seen, n)
    {
      assert Fate(base, n, Lookup(seen, n));
    }
  }

  /** Where nothing happened to envelope names that could not have happened before, all stays in order. */
  lemma OrderKept(base: Fs, fs: Fs, l: Ledger, c: u64, after: map<Bytes, Bytes>)
    requires base.Valid() && Orderly(base, l) && c in l.envs && MayBecome(fs, after)
    requires forall ext: Ext :: FatesKept(base, fs, Final(StemFor(c), ext))
    ensures InGoodOrder(after, c, l.envs[c], Pruned(l.prunings))
  {
    hide Final, Fate, StemFor;
    var names := FinalNames(StemFor(c));
    var was := Graft(base, after, names);
    assert InGoodOrder(was, c, l.envs[c], Pruned(l.prunings));
    forall ext: Ext
      ensures Lookup(was, Final(StemFor(c), ext)) == Lookup(after, Final(StemFor(c), ext))
    {
      InNames(StemFor(c), ext);
    }
  }

  lemma PublishedKept(base: Fs, fs: Fs, stem: Bytes, env: Envelope)
    requires base.Valid() && Published(base, stem, env)
    requires forall ext: Ext :: FatesKept(base, fs, Final(stem, ext))
    ensures Published(fs, stem, env)
  {
    hide Final, Fate;
    forall after: map<Bytes, Bytes>, ext: Ext | MayBecome(fs, after)
      ensures Lookup(after, Final(stem, ext)) == Some(env.Of(ext))
    {
      var was := Graft(base, after, {Final(stem, ext)});
      assert Final(stem, ext) in {Final(stem, ext)};
    }
  }

  /** The whole state, where no fate of a whole name is new. */
  lemma AllKept(base: Fs, fs: Fs, l: Ledger, next: nat)
    requires base.Valid() && Orderly(base, l) && NewFrom(base, next) && OnlyPartials(base, fs)
    ensures Orderly(fs, l) && NewFrom(fs, next) && (Lasting(base, l) ==> Lasting(fs, l))
  {
    hide Final, Fate, StemFor, InGoodOrder, Published, IsPartial;
    forall c: u64, ext: Ext
      ensures FatesKept(base, fs, Final(StemFor(c), ext))
    {
      NamesApart(c, ext, c);
    }
    forall c: u64, after: map<Bytes, Bytes> | c in l.envs && MayBecome(fs, after)
      ensures InGoodOrder(after, c, l.envs[c], Pruned(l.prunings))
    {
      OrderKept(base, fs, l, c, after);
    }
    if Lasting(base, l) {
      forall c: u64 | c in l.done && StemFor(c) !in Pruned(l.prunings)
        ensures Published(fs, StemFor(c), l.envs[c])
      {
        PublishedKept(base, fs, StemFor(c), l.envs[c]);
      }
    }
  }

  lemma CutKeepsOrder(was: Fs, fs: Fs, l: Ledger, next: nat)
    requires was.Valid() && Orderly(was, l) && NewFrom(was, next)
    requires MayBecome(was, Contents(fs)) && Settled(fs)
    ensures Orderly(fs, l) && NewFrom(fs, next) && (Lasting(was, l) ==> Lasting(fs, l))
  {
    hide Final, Fate, Orderly, NewFrom, Lasting, Settled, Contents;
    forall n: Bytes
      ensures FatesKept(was, fs, n)
    {
      CutKeepsFates(was, fs, n);
    }
    AllKept(was, fs, l, next);
  }

  // -------------------------------------------------------------- the ledger grows

  /** New envelopes are of new counters, and prunings are added. */
  ghost predicate Grew(l: Ledger, l2: Ledger, next: nat) {
    && (forall c | c in l.envs :: c in l2.envs && l2.envs[c] == l.envs[c])
    && (forall c | c in l2.envs && c !in l.envs :: c >= next)
    && l.prunings <= l2.prunings
  }

  lemma PrunedGrows(a: seq<Pruning>, b: seq<Pruning>)
    requires a <= b
    ensures Pruned(a) <= Pruned(b)
  {
    forall x | x in Pruned(a)
      ensures x in Pruned(b)
    {
      var i, j :| 0 <= i < |a| && 0 <= j < |a[i].removed| && x == a[i].removed[j].1;
      assert b[i] == a[i];
    }
  }

  lemma OrderGrows(fs: Fs, l: Ledger, l2: Ledger, next: nat)
    requires Orderly(fs, l) && NewFrom(fs, next) && Grew(l, l2, next)
    ensures Orderly(fs, l2)
  {
    hide Final, Fate, StemFor, Pruned;
    PrunedGrows(l.prunings, l2.prunings);
    forall c: u64, after: map<Bytes, Bytes> | c in l2.envs && MayBecome(fs, after)
      ensures InGoodOrder(after, c, l2.envs[c], Pruned(l2.prunings))
    {
      if c in l.envs {
        assert InGoodOrder(after, c, l.envs[c], Pruned(l.prunings));
      } else {
        forall ext: Ext
          ensures Final(StemFor(c), ext) !in after
        {
          var got := Lookup(after, Final(StemFor(c), ext));
          NewHasNoFile(fs, next, c, ext, got);
        }
      }
    }
  }

  // -------------------------------------------------------------------- publishing

  lemma FileIsFate(fs: Fs, n: Bytes) returns (got: Option<Bytes>)
    requires fs.Valid() && fs.Entries(n) != {None}
    ensures got.Some? && Fate(fs, n, got)
  {
    HasFile(fs, n);
    var id: nat :| Some(id) in fs.Entries(n);
    got := Some(fs.files[id].data);
    assert MayHold(fs.files[id], got.value);
  }

  lemma NewIsUnused(fs: Fs, c: u64, next: nat)
    requires fs.Valid() && NewFrom(fs, next) && c >= next
    ensures Unused(fs, StemFor(c))
  {
    hide Final, StemFor, Fate, Fs.Entries, Fs.Valid;
    forall ext: Ext
      ensures fs.Entries(Final(StemFor(c), ext)) == {None}
    {
      if fs.Entries(Final(StemFor(c), ext)) != {None} {
        var got := FileIsFate(fs, Final(StemFor(c), ext));
        NewHasNoFile(fs, next, c, ext, got);
      }
    }
  }

  lemma NewHasNoFile(fs: Fs, next: nat, c: u64, ext: Ext, got: Option<Bytes>)
    requires NewFrom(fs, next) && c >= next && Fate(fs, Final(StemFor(c), ext), got)
    ensures got.None?
  {
    hide Final, StemFor, Fate;
  }

  /** On the way of publishing a new envelope, with the others as they were. */
  lemma PublishingKeepsOrder(base: Fs, fs: Fs, l: Ledger, next: nat, c: u64, env: Envelope)
    requires base.Valid() && Orderly(base, l) && NewFrom(base, next) && c >= next && c !in l.envs
    requires Safe(base, fs, StemFor(c), env)
    requires OthersKept(base, fs, PartNames(StemFor(c)) + FinalNames(StemFor(c)))
    ensures Orderly(fs, l.(envs := l.envs[c := env])) && NewFrom(fs, c as nat + 1)
    ensures Lasting(base, l) ==> Lasting(fs, l.(envs := l.envs[c := env]))
  {
    NewIsUnused(base, c, next);
    hide Final, Fate, StemFor, Published, Safe, Unused, PartNames, FinalNames, Pruned;
    var l2 := l.(envs := l.envs[c := env]);
    forall a: u64, ext: Ext | a != c
      ensures FatesKept(base, fs, Final(StemFor(a), ext))
    {
      NamesApart(a, ext, c);
    }
    forall a: u64, after: map<Bytes, Bytes> | a in l2.envs && MayBecome(fs, after)
      ensures InGoodOrder(after, a, l2.envs[a], Pruned(l2.prunings))
    {
      if a == c {
        SafeForANewStem(base, fs, StemFor(c), env, after);
      } else {
        OrderKept(base, fs, l, a, after);
      }
    }
    if Lasting(base, l) {
      forall a: u64 | a in l2.done && StemFor(a) !in Pruned(l2.prunings)
        ensures Published(fs, StemFor(a), l2.envs[a])
      {
        PublishedKept(base, fs, StemFor(a), l.envs[a]);
      }
    }
  }

  // ---------------------------------------------------------------------- pruning

  lemma PrunedOnce(prunings: seq<Pruning>, p: Pruning)
    ensures Pruned(prunings + [p]) == Pruned(prunings) + set x | x in p.removed :: x.1
  {
    var all := prunings + [p];
    forall s | s in Pruned(all)
      ensures s in Pruned(prunings) || exists x :: x in p.removed && x.1 == s
    {
      var i, j :| 0 <= i < |all| && 0 <= j < |all[i].removed| && s == all[i].removed[j].1;
      assert i < |prunings| ==> all[i] == prunings[i];
    }
    PrunedGrows(prunings, all);
    forall x | x in p.removed
      ensures x.1 in Pruned(all)
    {
      assert all[|prunings|] == p;
    }
  }

  /** The files removed are those of the stems pruned. */
  lemma FilesOfPruned(c: u64, ext: Ext, keep: nat, p: Pruning)
    requires IsPruning(p.seen, keep, p.removed) && Final(StemFor(c), ext) in FilesOf(p.removed)
    ensures exists x :: x in p.removed && x.1 == StemFor(c)
  {
    hide Final, StemOf, Release.Padded;
    var y: Stem, e: Ext :| y in p.removed && Final(StemFor(c), ext) == Final(y.1, e);
    FinalHasStem(p.seen, y, e);
    CounterStem(c, ext);
  }

  lemma PruningKeepsOrder(base: Fs, fs: Fs, l: Ledger, next: nat, keep: nat, p: Pruning)
    requires base.Valid() && Orderly(base, l) && NewFrom(base, next)
    requires OnlyLost(base, fs, FilesOf(p.removed)) && IsPruning(p.seen, keep, p.removed)
    ensures Orderly(fs, l.(prunings := l.prunings + [p])) && NewFrom(fs, next)
    ensures Lasting(base, l) ==> Lasting(fs, l.(prunings := l.prunings + [p]))
  {
    hide Final, Fate, StemFor, Published, Pruned, IsPruning, FilesOf, InGoodOrder;
    var l2 := l.(prunings := l.prunings + [p]);
    PrunedOnce(l.prunings, p);
    forall c: u64, ext: Ext | StemFor(c) !in Pruned(l2.prunings)
      ensures FatesKept(base, fs, Final(StemFor(c), ext))
    {
      if Final(StemFor(c), ext) in FilesOf(p.removed) {
        FilesOfPruned(c, ext, keep, p);
      }
    }
    forall c: u64, after: map<Bytes, Bytes> | c in l2.envs && MayBecome(fs, after)
      ensures InGoodOrder(after, c, l2.envs[c], Pruned(l2.prunings))
    {
      if StemFor(c) in Pruned(l2.prunings) {
        LeftFilesAreComplete(base, fs, l, c, after, FilesOf(p.removed), Pruned(l2.prunings));
      } else {
        OrderKept(base, fs, l, c, after);
        assert InGoodOrder(after, c, l.envs[c], Pruned(l.prunings));
        FewerArePruned(after, c, l.envs[c], Pruned(l.prunings), Pruned(l2.prunings));
      }
    }
    if Lasting(base, l) {
      forall c: u64 | c in l2.done && StemFor(c) !in Pruned(l2.prunings)
        ensures Published(fs, StemFor(c), l2.envs[c])
      {
        PublishedKept(base, fs, StemFor(c), l.envs[c]);
      }
    }
  }

  lemma FewerArePruned(after: map<Bytes, Bytes>, c: u64, env: Envelope, some: set<Bytes>, pruned: set<Bytes>)
    requires InGoodOrder(after, c, env, some) && some <= pruned
    ensures InGoodOrder(after, c, env, pruned)
  {
    hide Final, StemFor;
  }

  lemma LeftFilesAreComplete(base: Fs, fs: Fs, l: Ledger, c: u64, after: map<Bytes, Bytes>, lost: set<Bytes>,
                             pruned: set<Bytes>)
    requires base.Valid() && Orderly(base, l) && c in l.envs && MayBecome(fs, after) && StemFor(c) in pruned
    requires OnlyLost(base, fs, lost)
    ensures InGoodOrder(after, c, l.envs[c], pruned)
  {
    hide Final, Fate, StemFor;
    forall ext: Ext | Final(StemFor(c), ext) in after
      ensures after[Final(StemFor(c), ext)] == l.envs[c].Of(ext)
    {
      var n := Final(StemFor(c), ext);
      assert Fate(fs, n, Lookup(after, n));
      var was := Graft(base, after, {n});
      assert n in {n} && InGoodOrder(was, c, l.envs[c], Pruned(l.prunings));
      assert Lookup(was, n) == Some(after[n]);
    }
  }

  // ------------------------------------------------- a tag without its envelope

  /** A tag is never left without the other three. */
  ghost predicate WholeIfTagged(fs: Fs, stem: Bytes) {
    forall after: map<Bytes, Bytes> | MayBecome(fs, after) && Final(stem, Tag) in after ::
      forall ext: Ext :: Final(stem, ext) in after
  }

  /** Exactly when: the tag may not be left at all, or none of the others may be lost. */
  lemma WholeIfTaggedIff(fs: Fs, stem: Bytes)
    requires fs.Valid()
    ensures WholeIfTagged(fs, stem) <==>
            || fs.Entries(Final(stem, Tag)) == {None}
            || forall ext: Ext | !ext.Tag? :: None !in fs.Entries(Final(stem, ext))
  {
    hide Final;
    if ext: Ext :| !ext.Tag? && None in fs.Entries(Final(stem, ext)) {
      if fs.Entries(Final(stem, Tag)) != {None} {
        HasFile(fs, Final(stem, Tag));
        NamesAreDistinct(stem, ext, Tag);
        var after := CutBetween(fs, Final(stem, Tag), Final(stem, ext));
      }
    }
    forall after: map<Bytes, Bytes>, ext: Ext | MayBecome(fs, after)
      ensures Final(stem, ext) in after ==> fs.Entries(Final(stem, ext)) != {None}
      ensures Final(stem, ext) !in after ==> None in fs.Entries(Final(stem, ext))
    {
      var e := LeftEntry(fs, Final(stem, ext), Lookup(after, Final(stem, ext)));
    }
  }

  lemma PublishedIsThere(fs: Fs, stem: Bytes, env: Envelope, ext: Ext)
    requires fs.Valid() && Published(fs, stem, env)
    ensures None !in fs.Entries(Final(stem, ext)) && fs.Entries(Final(stem, ext)) != {}
  {
    hide Final;
    var n := Final(stem, ext);
    assert fs.Entry(n) in fs.Entries(n);
    if None in fs.Entries(n) {
      var after := Graft(fs, map[], {n});
      assert false;
    }
  }

  function AllRemoved(fs: Fs, stem: Bytes): Fs {
    Removed(Removed(Removed(Removed(fs, Final(stem, Msg)), Final(stem, Attest)), Final(stem, Sig)), Final(stem, Tag))
  }

  lemma RemovedEntries(fs: Fs, stem: Bytes)
    requires fs.Valid()
    ensures var one := Removed(fs, Final(stem, Msg));
            && one.Valid() && None in one.Entries(Final(stem, Msg))
            && one.Entries(Final(stem, Tag)) == fs.Entries(Final(stem, Tag))
    ensures var all := AllRemoved(fs, stem);
            && all.Valid() && None in all.Entries(Final(stem, Msg)) && all.Entry(Final(stem, Tag)) == None
            && fs.Entries(Final(stem, Tag)) <= all.Entries(Final(stem, Tag))
  {
    hide Final;
    var m, a, s, t := Final(stem, Msg), Final(stem, Attest), Final(stem, Sig), Final(stem, Tag);
    NamesAreDistinct(stem, Msg, Tag);
    WithEntryIsValid(fs, m, None);
    WithEntryIsValid(Removed(fs, m), a, None);
    WithEntryIsValid(Removed(Removed(fs, m), a), s, None);
    WithEntryIsValid(Removed(Removed(Removed(fs, m), a), s), t, None);
  }

  /** Pruning takes the message first: a cut right after that can leave the tag without it. So it stays when
      all four are removed, until the directory is next synced. */
  lemma PruningLeavesATag(fs: Fs, stem: Bytes, env: Envelope)
    requires fs.Valid() && Published(fs, stem, env)
    ensures WholeIfTagged(fs, stem)
    ensures !WholeIfTagged(Removed(fs, Final(stem, Msg)), stem)
    ensures !WholeIfTagged(AllRemoved(fs, stem), stem) && WholeIfTagged(DirSynced(AllRemoved(fs, stem)), stem)
  {
    hide Final, Published;
    forall ext: Ext
      ensures None !in fs.Entries(Final(stem, ext)) && fs.Entries(Final(stem, ext)) != {}
    {
      PublishedIsThere(fs, stem, env, ext);
    }
    WholeIfTaggedIff(fs, stem);
    RemovedEntries(fs, stem);
    WholeIfTaggedIff(Removed(fs, Final(stem, Msg)), stem);
    WholeIfTaggedIff(AllRemoved(fs, stem), stem);
    DirSyncedIsValid(AllRemoved(fs, stem));
    WholeIfTaggedIff(DirSynced(AllRemoved(fs, stem)), stem);
  }
  // ------------------------------------------------------------------------- runs

  /** Above every counter handed out so far. */
  ghost function NextOf(issued: seq<Counter>): nat {
    if issued == [] then 0 else issued[|issued| - 1].Value() + 1
  }

  ghost predicate InOrder(fs: Fs, l: Ledger, keep: nat, next: nat) {
    && Orderly(fs, l) && NewFrom(fs, next) && Lasting(fs, l) && Bounded(keep, l)
    && forall c | c in l.envs :: c < next
  }

  /** The trace grew by states that are all in order. */
  ghost predicate OrderlySince(was: seq<Fs>, trace: seq<Fs>, l: Ledger, next: nat) {
    && was <= trace
    && forall i | |was| <= i < |trace| :: Orderly(trace[i], l) && NewFrom(trace[i], next)
  }

  lemma SinceGrows(t0: seq<Fs>, t1: seq<Fs>, t2: seq<Fs>, l: Ledger, next: nat, l2: Ledger, next2: nat)
    requires OrderlySince(t0, t1, l, next) && OrderlySince(t1, t2, l2, next2) && Grew(l, l2, next) && next <= next2
    ensures OrderlySince(t0, t2, l2, next2)
  {
    hide Orderly;
    forall i | |t0| <= i < |t2|
      ensures Orderly(t2[i], l2) && NewFrom(t2[i], next2)
    {
      if i < |t1| {
        assert t2[i] == t1[i];
        OrderGrows(t1[i], l, l2, next);
      }
    }
  }

  lemma NoPartsLeft(fs: Fs, was: Fs, stem: Bytes)
    requires fs.Valid() && Contents(fs) == WithoutPartials(Contents(was)) && IsStem(stem)
    ensures Private(fs, PartNames(stem))
  {
    hide IsPartial, Part, Release.AllDigits;
    forall n | n in PartNames(stem)
      ensures n !in fs.dir
    {
      var ext :| n == Part(stem, ext);
      PartialExact(n);
      assert n !in Contents(fs);
      if n in fs.dir {
        EntryNamesAFile(fs, n);
      }
    }
  }

  /** Clearing what a cut left. */
  method Clear(d: Directory, keep: nat, ghost l: Ledger, ghost next: nat) returns (ok: bool)
    requires d.Valid() && InOrder(d.fs, l, keep, next)
    modifies d
    ensures d.Valid() && InOrder(d.fs, l, keep, next) && OrderlySince(old(d.trace), d.trace, l, next)
    ensures ok ==> forall c: u64 :: Private(d.fs, PartNames(StemFor(c)))
    ensures old(d.faults) <= d.faults && (!ok ==> d.faults > old(d.faults))
  {
    hide Fs.Valid, Orderly, NewFrom, Lasting, OnlyPartials, Contents, WithoutPartials, Private, PartNames, IsPartial;
    ghost var was := d.fs;
    var removed := RemovePartials(d);
    forall i | |old(d.trace)| <= i < |d.trace|
      ensures Orderly(d.trace[i], l) && NewFrom(d.trace[i], next)
      ensures Lasting(d.trace[i], l)
    {
      AllKept(was, d.trace[i], l, next);
    }
    ok := removed.Some?;
    if ok {
      forall c: u64
        ensures Private(d.fs, PartNames(StemFor(c)))
      {
        StemForIsStem(c);
        NoPartsLeft(d.fs, was, StemFor(c));
      }
    }
  }

  /** Publishing under a new counter. */
  method PublishNew(d: Directory, c: u64, env: Envelope, keep: nat, ghost l: Ledger, ghost next: nat)
    returns (ok: bool, ghost l2: Ledger)
    requires d.Valid() && InOrder(d.fs, l, keep, next) && next <= c as nat && Private(d.fs, PartNames(StemFor(c)))
    modifies d
    ensures d.Valid() && InOrder(d.fs, l2, keep, c as nat + 1)
    ensures Grew(l, l2, next) && OrderlySince(old(d.trace), d.trace, l2, c as nat + 1)
    ensures l2.envs == l.envs[c := env] && l2.prunings == l.prunings && l2.done == if ok then l.done + {c} else l.done
    ensures old(d.faults) <= d.faults && (!ok ==> d.faults > old(d.faults))
    ensures ok ==> |l2.done| == |l.done| + 1
  {
    hide Fs.Valid, Orderly, NewFrom, Published, Safe, OthersKept, PartNames, FinalNames, WholeOrNothing, Unused;
    hide Private, Staged, NothingLeft, Part, Final, StemFor, Pruned;
    ghost var was := d.fs;
    ghost var tried := l.(envs := l.envs[c := env]);
    ok := PublishEnvelope(d, StemFor(c), env);
    OldNamesAreSafeHere(was, StemFor(c), env);
    forall i | |old(d.trace)| - 1 <= i < |d.trace|
      ensures Orderly(d.trace[i], tried) && NewFrom(d.trace[i], c as nat + 1) && Lasting(d.trace[i], tried)
    {
      assert d.trace[|old(d.trace)| - 1] == was;
      PublishingKeepsOrder(was, d.trace[i], l, next, c, env);
    }
    assert c !in l.done;
    l2 := tried.(done := if ok then l.done + {c} else l.done);
    OnlyTheEnvelopesCount(d.trace, tried, l2);
  }

  lemma OldNamesAreSafeHere(fs: Fs, stem: Bytes, env: Envelope)
    ensures Safe(fs, fs, stem, env) && OthersKept(fs, fs, PartNames(stem) + FinalNames(stem))
  {
    hide Final, Fate;
    OldFatesAreSafe(fs, fs, stem, env);
  }

  lemma OnlyTheEnvelopesCount(trace: seq<Fs>, a: Ledger, b: Ledger)
    requires a.envs == b.envs && a.prunings == b.prunings
    ensures forall i | 0 <= i < |trace| :: Orderly(trace[i], a) ==> Orderly(trace[i], b)
  {
    hide InGoodOrder, Pruned;
  }

  /** The last pruning began with this envelope. */
  ghost predicate FirstPruned(l: Ledger, c: u64) {
    && l.prunings != [] && l.prunings[|l.prunings| - 1].removed != []
    && l.prunings[|l.prunings| - 1].removed[0].1 == StemFor(c)
  }

  lemma FirstIsSplit(fs: Fs, l: Ledger, c: u64)
    requires fs.Valid() && Lasting(fs, l) && c in l.done && StemFor(c) !in Pruned(l.prunings)
    ensures Final(StemFor(c), Msg) in fs.dir && !WholeIfTagged(Removed(fs, Final(StemFor(c), Msg)), StemFor(c))
  {
    hide Final, StemFor, Published, WholeIfTagged;
    PublishedIsThere(fs, StemFor(c), l.envs[c], Msg);
    assert fs.Entry(Final(StemFor(c), Msg)) in fs.Entries(Final(StemFor(c), Msg));
    PruningLeavesATag(fs, StemFor(c), l.envs[c]);
  }

  /** Pruning the listing. If it begins with a published envelope, it passes a state in which a cut leaves the
      tag of that one without its message. */
  method PruneNow(d: Directory, keep: nat, ghost l: Ledger, ghost next: nat) returns (ok: bool, ghost l2: Ledger)
    requires d.Valid() && InOrder(d.fs, l, keep, next)
    modifies d
    ensures d.Valid() && InOrder(d.fs, l2, keep, next)
    ensures Grew(l, l2, next) && OrderlySince(old(d.trace), d.trace, l2, next)
    ensures l2.envs == l.envs && l2.done == l.done && |l2.prunings| == |l.prunings| + 1
    ensures forall c | ok && c in l.done && StemFor(c) !in Pruned(l.prunings) && FirstPruned(l2, c) ::
              |old(d.trace)| < |d.trace| && !WholeIfTagged(d.trace[|old(d.trace)|], StemFor(c))
    ensures old(d.faults) <= d.faults && (!ok ==> d.faults > old(d.faults))
    ensures d.faults == old(d.faults) ==> |Stems(d.fs.dir.Keys)| <= keep
  {
    hide Fs.Valid, Orderly, NewFrom, Lasting, OnlyLost, IsPruning, FilesOf, Stems, WholeIfTagged, Final, StemFor;
    hide Pruned;
    ghost var was := d.fs;
    var r;
    ghost var seen, removed;
    r, seen, removed := PruneAudit(d, keep);
    ghost var p := Pruning(seen, removed);
    l2 := l.(prunings := l.prunings + [p]);
    forall i | |old(d.trace)| <= i < |d.trace|
      ensures Orderly(d.trace[i], l2) && NewFrom(d.trace[i], next)
    {
      PruningKeepsOrder(was, d.trace[i], l, next, keep, p);
    }
    PruningKeepsOrder(was, d.fs, l, next, keep, p);
    ok := r.Some?;
    forall c | ok && c in l.done && StemFor(c) !in Pruned(l.prunings) && FirstPruned(l2, c)
      ensures |old(d.trace)| < |d.trace| && !WholeIfTagged(d.trace[|old(d.trace)|], StemFor(c))
    {
      FirstIsSplit(was, l, c);
    }
  }

  /** No call failed, and the TPM's counter is low enough to be an epoch. */
  ghost predicate Quiet(diskBefore: nat, disk: nat, tpmBefore: nat, nv: Nv)
    reads nv
  {
    disk == diskBefore && nv.faults == tpmBefore && nv.value < EPOCH_LIMIT
  }

  function Sum(lives: seq<nat>): nat {
    if lives == [] then 0 else Sum(lives[..|lives| - 1]) + lives[|lives| - 1]
  }

  /** One cycle: clear, take a counter, publish, prune. It stops at the first failure; a process that is
      killed does the same, its later calls all failing. When none fails it publishes one envelope more, and
      leaves at most `keep` stems. */
  method Cycle(d: Directory, nv: Nv, alloc: CounterAlloc, keep: nat, ghost l: Ledger)
    returns (ok: bool, ghost l2: Ledger)
    requires d.Valid() && alloc.Valid(nv) && InOrder(d.fs, l, keep, NextOf(nv.issued))
    modifies d, nv, alloc
    ensures d.Valid() && alloc.Valid(nv) && InOrder(d.fs, l2, keep, NextOf(nv.issued))
    ensures Grew(l, l2, NextOf(old(nv.issued))) && NextOf(old(nv.issued)) <= NextOf(nv.issued)
    ensures OrderlySince(old(d.trace), d.trace, l2, NextOf(nv.issued))
    ensures l.done <= l2.done && (ok ==> exists c :: c in l2.done && c !in l.envs)
    ensures old(d.faults) <= d.faults && old(nv.faults) <= nv.faults && old(nv.value) <= nv.value
    ensures Quiet(old(d.faults), d.faults, old(nv.faults), nv) ==>
              ok && |l2.done| == |l.done| + 1 && |Stems(d.fs.dir.Keys)| <= keep
    ensures |nv.issued| <= |old(nv.issued)| + 1 && |l.done| <= |l2.done| && (ok ==> |l2.done| == |l.done| + 1)
  {
    hide InOrder, Grew, OrderlySince, NextOf, Private, Nv.Valid, Fs.Valid, PartNames, Counters.Counter.Value;
    ghost var next := NextOf(nv.issued);
    l2 := l;
    NothingGrew(l, next);
    ok := Clear(d, keep, l, next);
    if !ok {
      return;
    }
    ghost var issued := nv.issued;
    var taken := alloc.Next(nv);
    if taken.Err? {
      return false, l2;
    }
    NextIsNew(nv, issued);
    var c: u64 := taken.value;
    var env: Envelope := *;
    label Cleared:
    NewIsNoEnvelope(d.fs, l, keep, next, c);
    ok, l2 := PublishNew(d, c, env, keep, l, next);
    SinceGrows(old(d.trace), old@Cleared(d.trace), d.trace, l, next, l2, NextOf(nv.issued));
    if !ok {
      return;
    }
    label Written:
    ghost var l1 := l2;
    ok, l2 := PruneNow(d, keep, l1, NextOf(nv.issued));
    SinceGrows(old(d.trace), old@Written(d.trace), d.trace, l1, NextOf(nv.issued), l2, NextOf(nv.issued));
    GrewTwice(l, l1, l2, next, NextOf(nv.issued));
    assert c in l2.done;
  }

  lemma NothingGrew(l: Ledger, next: nat)
    ensures Grew(l, l, next)
  {
  }

  lemma GrewTwice(a: Ledger, b: Ledger, c: Ledger, next: nat, next2: nat)
    requires Grew(a, b, next) && Grew(b, c, next2) && next <= next2
    ensures Grew(a, c, next)
  {
  }

  lemma NewIsNoEnvelope(fs: Fs, l: Ledger, keep: nat, next: nat, c: u64)
    requires InOrder(fs, l, keep, next) && c >= next
    ensures c !in l.envs
  {
  }

  /** The counter just handed out is above all before it. */
  lemma NextIsNew(nv: Nv, before: seq<Counter>)
    requires nv.Valid() && nv.issued != [] && nv.issued[..|nv.issued| - 1] == before
    ensures var v := nv.issued[|nv.issued| - 1].Value();
            NextOf(before) <= v < 0x1_0000_0000_0000_0000 && NextOf(nv.issued) == v + 1
  {
    var last := nv.issued[|nv.issued| - 1];
    ComposeExact(last.epoch, last.s);
    if before != [] {
      assert before[|before| - 1] == nv.issued[|before| - 1];
      LexicographicOrder(before[|before| - 1], last);
    }
  }

  /** Any number of lives on one directory and one TPM: a life is some cycles, up to the first failure, and
      power may be cut after it. In every state passed through, whatever a further cut leaves, every file
      under the name of an envelope is complete, and a tag has all four, unless its envelope was pruned; what
      was published and not pruned is there for good; and only the smallest stems beyond `keep` were ever
      pruned. When no call fails, every cycle publishes. */
  method Agent(d: Directory, nv: Nv, keep: nat, lives: seq<nat>) returns (ghost l: Ledger)
    requires d.Valid() && nv.Valid() && NewFrom(d.fs, NextOf(nv.issued))
    modifies d, nv
    ensures d.Valid() && nv.Valid()
    ensures OrderlySince(old(d.trace), d.trace, l, NextOf(nv.issued))
    ensures Lasting(d.fs, l) && Bounded(keep, l)
    ensures Quiet(old(d.faults), d.faults, old(nv.faults), nv) ==> |l.done| == Sum(lives)
  {
    hide OrderlySince, NextOf, Grew, InOrder;
    l := Ledger(map[], {}, []);
    EmptyIsInOrder(d.fs, keep, NextOf(nv.issued), d.trace);
    for life := 0 to |lives|
      invariant d.Valid() && nv.Valid() && InOrder(d.fs, l, keep, NextOf(nv.issued))
      invariant OrderlySince(old(d.trace), d.trace, l, NextOf(nv.issued))
      invariant old(d.faults) <= d.faults && old(nv.faults) <= nv.faults
      invariant Quiet(old(d.faults), d.faults, old(nv.faults), nv) ==> |l.done| == Sum(lives[..life])
    {
      assert lives[..life + 1][..life] == lives[..life];
      ghost var was, l1, next := d.trace, l, NextOf(nv.issued);
      l := Life(d, nv, keep, lives[life], l1);
      SinceGrows(old(d.trace), was, d.trace, l1, next, l, NextOf(nv.issued));
      var cut: bool := *;
      if cut {
        ghost var before, trace := d.fs, d.trace;
        d.PowerCut();
        CutIsInOrder(before, d.fs, trace, d.trace, l, keep, NextOf(nv.issued));
        NothingGrew(l, NextOf(nv.issued));
        SinceGrows(old(d.trace), trace, d.trace, l, NextOf(nv.issued), l, NextOf(nv.issued));
      }
    }
    assert lives[..|lives|] == lives;
    OrderMeans(d.fs, l, keep, NextOf(nv.issued));
  }

  /** One life, with other increments of the counter between its cycles. It ends at the first failure: all
      counters it took but the last are those of envelopes it published. */
  method Life(d: Directory, nv: Nv, keep: nat, cycles: nat, ghost l: Ledger) returns (ghost l2: Ledger)
    requires d.Valid() && nv.Valid() && InOrder(d.fs, l, keep, NextOf(nv.issued))
    modifies d, nv
    ensures d.Valid() && nv.Valid() && InOrder(d.fs, l2, keep, NextOf(nv.issued))
    ensures Grew(l, l2, NextOf(old(nv.issued))) && NextOf(old(nv.issued)) <= NextOf(nv.issued)
    ensures OrderlySince(old(d.trace), d.trace, l2, NextOf(nv.issued))
    ensures old(d.faults) <= d.faults && old(nv.faults) <= nv.faults && old(nv.value) <= nv.value
    ensures Quiet(old(d.faults), d.faults, old(nv.faults), nv) ==> |l2.done| == |l.done| + cycles
    ensures |l.done| <= |l2.done| && |nv.issued| <= |old(nv.issued)| + (|l2.done| - |l.done|) + 1
  {
    hide InOrder, Grew, OrderlySince, NextOf;
    l2 := l;
    NothingGrew(l, NextOf(nv.issued));
    NothingSince(d.trace, l, NextOf(nv.issued));
    var alloc := new CounterAlloc();
    for cycle := 0 to cycles
      invariant d.Valid() && alloc.Valid(nv) && InOrder(d.fs, l2, keep, NextOf(nv.issued))
      invariant Grew(l, l2, NextOf(old(nv.issued))) && NextOf(old(nv.issued)) <= NextOf(nv.issued)
      invariant OrderlySince(old(d.trace), d.trace, l2, NextOf(nv.issued))
      invariant old(d.faults) <= d.faults && old(nv.faults) <= nv.faults && old(nv.value) <= nv.value
      invariant |l.done| <= |l2.done| && |nv.issued| <= |old(nv.issued)| + (|l2.done| - |l.done|)
      invariant Quiet(old(d.faults), d.faults, old(nv.faults), nv) ==> |l2.done| == |l.done| + cycle
    {
      var to: u64 := *;
      nv.Drift(to);
      ghost var was, l1, next := d.trace, l2, NextOf(nv.issued);
      var ok;
      ok, l2 := Cycle(d, nv, alloc, keep, l1);
      SinceGrows(old(d.trace), was, d.trace, l1, next, l2, NextOf(nv.issued));
      GrewTwice(l, l1, l2, NextOf(old(nv.issued)), next);
      if !ok {
        return;
      }
    }
  }

  lemma OrderMeans(fs: Fs, l: Ledger, keep: nat, next: nat)
    requires InOrder(fs, l, keep, next)
    ensures Lasting(fs, l) && Bounded(keep, l)
  {
  }

  lemma NothingSince(trace: seq<Fs>, l: Ledger, next: nat)
    ensures OrderlySince(trace, trace, l, next)
  {
  }

  lemma EmptyIsInOrder(fs: Fs, keep: nat, next: nat, trace: seq<Fs>)
    requires NewFrom(fs, next)
    ensures InOrder(fs, Ledger(map[], {}, []), keep, next)
    ensures OrderlySince(trace, trace, Ledger(map[], {}, []), next)
  {
  }

  lemma CutIsInOrder(was: Fs, fs: Fs, t0: seq<Fs>, t1: seq<Fs>, l: Ledger, keep: nat, next: nat)
    requires was.Valid() && InOrder(was, l, keep, next) && MayBecome(was, Contents(fs)) && Settled(fs)
    requires t1 == t0 + [fs]
    ensures InOrder(fs, l, keep, next) && OrderlySince(t0, t1, l, next)
  {
    hide Orderly, NewFrom, Lasting, Settled, Contents;
    CutKeepsOrder(was, fs, l, next);
  }
}