/** Bounding the audit directory: which envelopes are removed, and what is left. */
module Prune {
  import opened Bytes
  import opened Release
  import opened Sorting
  import opened AuditNames
  import opened Disk

  type Stem = (u64, Bytes)

  /** By value, then by text. */
  predicate StemLess(a: Stem, b: Stem) {
    a.0 < b.0 || (a.0 == b.0 && Less(a.1, b.1))
  }

  lemma StemLessIsStrictTotal()
    ensures StrictTotal(StemLess)
  {
    LessIsStrictTotal();
    forall a: Stem ensures !StemLess(a, a) {
      LessIrreflexive(a.1);
    }
    forall a: Stem, b: Stem ensures StemLess(a, b) || a == b || StemLess(b, a) {
      LessConnected(a.1, b.1);
    }
    forall a: Stem, b: Stem, c: Stem | StemLess(a, b) && StemLess(b, c) ensures StemLess(a, c) {
      if a.0 == b.0 == c.0 {
        LessTransitive(a.1, b.1, c.1);
      }
    }
  }

  /** The stem a directory entry counts under: an envelope name whose number fits 64 bits. */
  function StemOf(name: Bytes): Option<Stem> {
    var (stem, _) :- EnvelopeName(name);
    var value :- ParseU64(stem);
    Some((value, stem))
  }

  /** The agent's own stems, a counter in at least 12 digits, count under that counter: oldest first is
      smallest counter first, and different counters have different names. */
  lemma CounterStem(counter: u64, ext: Ext)
    ensures StemOf(Final(Padded(counter, 12), ext)) == Some((counter, Padded(counter, 12)))
  {
    var stem := Padded(counter, 12);
    PaddedValue(counter, 12);
    EnvelopeNameExact(Final(stem, ext), stem, ext);
    assert IsDigit(stem[0]);
  }

  /** An entry counts under a number exactly when it is an envelope name whose digits have that value and it
      fits 64 bits. */
  lemma StemOfIff(name: Bytes, value: u64, stem: Bytes)
    ensures StemOf(name) == Some((value, stem)) <==>
            IsStem(stem) && DigitsValue(stem) == value && exists ext: Ext :: name == Final(stem, ext)
  {
    hide EnvelopeName, Final, DigitsValue;
    if EnvelopeName(name).Some? {
      var (s, ext) := EnvelopeName(name).value;
      EnvelopeNameExact(name, s, ext);
      assert IsStem(s) ==> IsDigit(s[0]);
    }
    if IsStem(stem) {
      assert IsDigit(stem[0]);
      if ext: Ext :| name == Final(stem, ext) {
        EnvelopeNameExact(name, stem, ext);
      }
    }
  }

  /** The distinct stems of a listing. */
  ghost function Stems(names: set<Bytes>): set<Stem> {
    set name | name in names && StemOf(name).Some? :: StemOf(name).value
  }

  lemma {:induction false} DistinctCount<T>(s: seq<T>, members: set<T>)
    requires forall i, j | 0 <= i < j < |s| :: s[i] != s[j]
    requires forall x :: x in s <==> x in members
    ensures |members| == |s|
  {
    if s == [] {
      assert members == {};
    } else {
      var init, last := s[..|s| - 1], s[|s| - 1];
      assert s == init + [last];
      assert last in members;
      forall x ensures x in init <==> x in members - {last} {
      }
      DistinctCount(init, members - {last});
    }
  }

  /** How many stems go when `keep` stay. */
  function Excess(n: nat, keep: nat): nat {
    if n > keep then n - keep else 0
  }

  /** `removed` are the `Excess` smallest stems of the listing: each of them below each that stays. */
  ghost predicate IsPruning(names: set<Bytes>, keep: nat, removed: seq<Stem>) {
    && Ascending(removed, StemLess)
    && |removed| == Excess(|Stems(names)|, keep)
    && (forall x | x in removed :: x in Stems(names))
    && forall x, y | x in removed && y in Stems(names) && y !in removed :: StemLess(x, y)
  }

  /** The smallest stems, as many as there are too many, in ascending order. */
  method StemsToPrune(names: seq<Bytes>, keep: nat) returns (removed: seq<Stem>)
    ensures IsPruning((set n | n in names), keep, removed)
  {
    hide StemOf, StemLess;
    ghost var listing := set n | n in names;
    var found: seq<Stem> := [];
    for i := 0 to |names|
      invariant forall x :: x in found <==> exists n :: n in names[..i] && StemOf(n) == Some(x)
    {
      assert names[..i + 1] == names[..i] + [names[i]];
      assert names[i] in names[..i + 1];
      var stem := StemOf(names[i]);
      if stem.Some? {
        found := found + [stem.value];
      }
    }
    assert names[..|names|] == names;
    forall x ensures x in found <==> x in Stems(listing) {
      if x in Stems(listing) {
        var n :| n in listing && StemOf(n).Some? && StemOf(n).value == x;
        assert n in names;
      }
    }
    StemLessIsStrictTotal();
    var stems := SortDedup(found, StemLess);
    Irreflexive(stems);
    DistinctCount(stems, Stems(listing));
    var excess := Excess(|stems|, keep);
    removed := stems[..excess];
    assert forall j | 0 <= j < excess :: stems[j] == removed[j] && removed[j] in removed;
    forall x, y | x in removed && y in Stems(listing) && y !in removed
      ensures StemLess(x, y)
    {
      var i :| 0 <= i < excess && stems[i] == x;
      assert y in stems;
      var j :| 0 <= j < |stems| && stems[j] == y;
    }
    assert forall x | x in removed :: x in stems;
  }

  lemma Irreflexive(stems: seq<Stem>)
    requires Ascending(stems, StemLess) && StrictTotal(StemLess)
    ensures forall i, j | 0 <= i < j < |stems| :: stems[i] != stems[j]
  {
  }

  /** What stays: at most `keep` stems, the largest ones. */
  lemma PruningKeepsTheNewest(names: set<Bytes>, keep: nat, removed: seq<Stem>)
    requires IsPruning(names, keep, removed)
    ensures |Stems(names) - (set x | x in removed)| == if |Stems(names)| < keep then |Stems(names)| else keep
  {
    var gone := set x | x in removed;
    StemLessIsStrictTotal();
    Irreflexive(removed);
    DistinctCount(removed, gone);
    assert gone <= Stems(names);
  }

  /** Two prunings cannot each remove a stem the other keeps. */
  lemma NoExchange(names: set<Bytes>, keep: nat, r: seq<Stem>, s: seq<Stem>, x: Stem, y: Stem)
    requires IsPruning(names, keep, r) && IsPruning(names, keep, s)
    ensures x in r && x !in s && y in s ==> y in r
  {
    hide StemLess, StemOf, Ascending;
    StemLessIsStrictTotal();
    assert !(StemLess(x, y) && StemLess(y, x));
    assert x in r && x !in s && y in s ==> StemLess(y, x);
    assert x in r && y in s && y !in r ==> StemLess(x, y);
  }

  lemma SamePruned(names: set<Bytes>, keep: nat, r: seq<Stem>, s: seq<Stem>, x: Stem)
    requires IsPruning(names, keep, r) && IsPruning(names, keep, s) && x in r
    ensures x in s
  {
    hide StemLess, StemOf, Ascending;
    StemLessIsStrictTotal();
    Irreflexive(r);
    Irreflexive(s);
    var a, b := set x | x in r, set x | x in s;
    DistinctCount(r, a);
    DistinctCount(s, b);
    forall y: Stem
      ensures x !in s && y in b ==> y in a
    {
      NoExchange(names, keep, r, s, x, y);
    }
    SameIfAsMany(a, b, x);
  }

  /** A listing has only one pruning. */
  lemma PruningIsUnique(names: set<Bytes>, keep: nat, r: seq<Stem>, s: seq<Stem>)
    requires IsPruning(names, keep, r) && IsPruning(names, keep, s)
    ensures r == s
  {
    hide StemLess, StemOf;
    forall x: Stem
      ensures x in r <==> x in s
    {
      if x in r {
        SamePruned(names, keep, r, s, x);
      }
      if x in s {
        SamePruned(names, keep, s, r, x);
      }
    }
    StemLessIsStrictTotal();
    AscendingIsUnique(r, s, StemLess);
  }

  lemma SameIfAsMany<T>(a: set<T>, b: set<T>, x: T)
    requires |a| == |b| && x in a && (x !in b ==> b <= a)
    ensures x in b
  {
    if x !in b {
      Subset(b, a - {x});
    }
  }

  lemma {:induction false} Subset<T>(a: set<T>, b: set<T>)
    requires a <= b
    ensures |a| <= |b|
    decreases a
  {
    if x :| x in a {
      Subset(a - {x}, b - {x});
    }
  }

  // --------------------------------------------------------------- the directory

  /** The files of the removed stems. */
  ghost function FilesOf(removed: seq<Stem>): set<Bytes> {
    set x, ext: Ext | x in removed :: Final(x.1, ext)
  }

  lemma StemIsItsText(name: Bytes, x: Stem)
    requires StemOf(name) == Some(x)
    ensures exists ext: Ext :: name == Final(x.1, ext)
  {
    hide EnvelopeName, Final;
    var (stem, ext) := EnvelopeName(name).value;
    EnvelopeNameExact(name, stem, ext);
  }

  lemma FinalHasStem(names: set<Bytes>, x: Stem, ext: Ext)
    requires x in Stems(names)
    ensures StemOf(Final(x.1, ext)) == Some(x)
  {
    hide EnvelopeName, Final, ParseU64;
    var name :| name in names && StemOf(name) == Some(x);
    var (stem, e) := EnvelopeName(name).value;
    EnvelopeNameExact(name, stem, e);
    EnvelopeNameExact(Final(stem, ext), stem, ext);
  }

  /** Removing the files of some stems removes those stems and no other. */
  lemma StemsAfter(names: set<Bytes>, removed: seq<Stem>)
    requires forall x | x in removed :: x in Stems(names)
    ensures Stems(names - FilesOf(removed)) == Stems(names) - (set x | x in removed)
  {
    hide StemOf, Final;
    var left := names - FilesOf(removed);
    forall x: Stem
      ensures x in Stems(left) <==> x in Stems(names) && x !in removed
    {
      if x in Stems(left) {
        var name :| name in left && StemOf(name).Some? && StemOf(name).value == x;
        StemIsItsText(name, x);
        assert name in names;
      }
      if x in Stems(names) && x !in removed {
        var name :| name in names && StemOf(name).Some? && StemOf(name).value == x;
        if name in FilesOf(removed) {
          var y: Stem, ext: Ext :| y in removed && name == Final(y.1, ext);
          FinalHasStem(names, y, ext);
        }
      }
    }
  }

  /** Nothing but files of envelope names goes. */
  lemma OnlyEnvelopesGo(names: set<Bytes>, removed: seq<Stem>, n: Bytes)
    requires (forall x | x in removed :: x in Stems(names)) && n in FilesOf(removed)
    ensures EnvelopeName(n).Some?
  {
    hide EnvelopeName, Final, ParseU64;
    var y: Stem, ext: Ext :| y in removed && n == Final(y.1, ext);
    FinalHasStem(names, y, ext);
  }

  /** All that can have happened at any time since: files of these names are gone. */
  ghost predicate LostSince(was: seq<Fs>, trace: seq<Fs>, base: Fs, names: set<Bytes>) {
    && was <= trace && trace != [] && OnlyLost(base, trace[|trace| - 1], names)
    && forall i | |was| <= i < |trace| :: OnlyLost(base, trace[i], names)
  }

  /** The message went first, and for a moment alone. */
  ghost predicate MessageFirst(was: seq<Fs>, trace: seq<Fs>, base: Fs, x: Stem) {
    |was| < |trace| && trace[|was|] == Removed(base, Final(x.1, Msg))
  }

  lemma LostSelf(trace: seq<Fs>, names: set<Bytes>)
    requires trace != []
    ensures LostSince(trace, trace, trace[|trace| - 1], names)
  {
  }

  lemma FirstStays(t0: seq<Fs>, t1: seq<Fs>, t2: seq<Fs>, base: Fs, x: Stem)
    requires t1 <= t2
    ensures MessageFirst(t0, t1, base, x) ==> MessageFirst(t0, t2, base, x)
  {
  }

  lemma LostStep(t0: seq<Fs>, t1: seq<Fs>, t2: seq<Fs>, a: Fs, b: Fs, some: set<Bytes>, names: set<Bytes>)
    requires LostSince(t0, t1, a, names) && b == t1[|t1| - 1] && LostSince(t1, t2, b, some) && some <= names
    ensures LostSince(t0, t2, a, names) && t1 <= t2
  {
    hide OnlyLost;
    OnlyLostTrans(a, b, t2[|t2| - 1], some, names);
    forall i | |t0| <= i < |t2|
      ensures OnlyLost(a, t2[i], names)
    {
      if i < |t1| {
        assert t2[i] == t1[i];
      } else {
        OnlyLostTrans(a, b, t2[i], some, names);
      }
    }
  }

  /** Remove the files of one stem; a file that is not there is no failure. */
  method RemoveStem(d: Directory, x: Stem) returns (ok: bool)
    requires d.Valid()
    modifies d
    ensures d.Valid() && d.fs.files == old(d.fs).files
    ensures LostSince(old(d.trace), d.trace, old(d.fs), FilesOf([x]))
    ensures forall n: Bytes | n !in FilesOf([x]) :: d.fs.Entry(n) == old(d.fs).Entry(n)
    ensures forall n: Bytes | n in FilesOf([x]) :: d.fs.Entry(n) in {None, old(d.fs).Entry(n)}
    ensures ok ==> forall n: Bytes | n in FilesOf([x]) :: d.fs.Entry(n) == None
    ensures ok && Final(x.1, Msg) in old(d.fs).dir ==> MessageFirst(old(d.trace), d.trace, old(d.fs), x)
    ensures d.faults == old(d.faults) + (if ok then 0 else 1)
  {
    hide Final, OnlyLost;
    var exts := [Msg, Attest, Sig, Tag];
    LostSelf(d.trace, FilesOf([x]));
    for k := 0 to 4
      invariant d.faults == old(d.faults)
      invariant d.Valid() && d.fs.files == old(d.fs).files
      invariant LostSince(old(d.trace), d.trace, old(d.fs), FilesOf([x]))
      invariant forall n: Bytes | n !in FilesOf([x]) :: d.fs.Entry(n) == old(d.fs).Entry(n)
      invariant forall n: Bytes | n in FilesOf([x]) :: d.fs.Entry(n) in {None, old(d.fs).Entry(n)}
      invariant forall j | 0 <= j < k :: d.fs.Entry(Final(x.1, exts[j])) == None
      invariant k == 0 ==> d.fs == old(d.fs) && d.trace == old(d.trace)
      invariant k > 0 && Final(x.1, Msg) in old(d.fs).dir ==> MessageFirst(old(d.trace), d.trace, old(d.fs), x)
    {
      var name := Final(x.1, exts[k]);
      assert x in [x] && name in FilesOf([x]);
      if name in d.fs.dir {
        ghost var was := d.fs;
        RemovedIsLost(old(d.fs), d.fs, name, FilesOf([x]));
        ok := d.Remove(name);
        WithEntryIsValid(was, name, None);
        if !ok {
          return;
        }
      }
    }
    forall n: Bytes | n in FilesOf([x])
      ensures d.fs.Entry(n) == None
    {
      var y: Stem, ext: Ext :| y in [x] && n == Final(y.1, ext);
      var j := match ext case Msg => 0 case Attest => 1 case Sig => 2 case Tag => 3;
      assert y == x && exts[j] == ext;
    }
    ok := true;
  }

  /** Remove the oldest envelopes beyond `keep`. Entries of the directory that cannot be read are passed over:
      `seen` is what the listing showed. The files of the excess stems seen go and no others, at most `keep`
      stems seen stay, and so at most `keep` in all when nothing was passed over. A failure stops it with
      some of them left. */
  method PruneAudit(d: Directory, keep: nat) returns (r: Option<nat>, ghost seen: set<Bytes>, ghost removed: seq<Stem>)
    requires d.Valid()
    modifies d
    ensures d.Valid() && d.fs.files == old(d.fs).files
    ensures LostSince(old(d.trace), d.trace, old(d.fs), FilesOf(removed))
    ensures seen <= old(d.fs).dir.Keys && IsPruning(seen, keep, removed)
    ensures forall n: Bytes | n !in FilesOf(removed) :: d.fs.Entry(n) == old(d.fs).Entry(n)
    ensures r.Some? ==> r.value == |removed| && d.fs.dir.Keys == old(d.fs).dir.Keys - FilesOf(removed)
    ensures r.Some? ==> |Stems(seen - FilesOf(removed))| <= keep
    ensures r.Some? && removed != [] && Final(removed[0].1, Msg) in old(d.fs).dir ==>
              MessageFirst(old(d.trace), d.trace, old(d.fs), removed[0])
    ensures r.Some? && seen == old(d.fs).dir.Keys ==> |Stems(d.fs.dir.Keys)| <= keep
    ensures old(d.faults) <= d.faults && (r.None? ==> d.faults > old(d.faults))
    ensures r.Some? ==> d.faults == old(d.faults) + |old(d.fs).dir.Keys - seen|
    ensures d.faults == old(d.faults) ==> seen == old(d.fs).dir.Keys
  {
    hide IsPruning, LostSince, MessageFirst, Final, Stems, Fs.Valid;
    removed := [];
    seen := {};
    var listed := d.Readable();
    if !listed {
      NothingToPrune(keep);
      LostSelf(d.trace, {});
      return None, seen, removed;
    }
    var readable := d.ReadableNames();
    seen := readable;
    ghost var passed := d.faults;
    EveryNameSeen(d.fs.dir.Keys, seen);
    var names := List(readable);
    var stems := StemsToPrune(names, keep);
    removed := stems;
    assert (set n | n in names) == seen;
    LostSelf(d.trace, FilesOf(stems));
    for k := 0 to |stems|
      invariant d.faults == passed
      invariant d.Valid() && d.fs.files == old(d.fs).files
      invariant LostSince(old(d.trace), d.trace, old(d.fs), FilesOf(stems))
      invariant k == 0 ==> d.fs == old(d.fs) && d.trace == old(d.trace)
      invariant k > 0 && Final(stems[0].1, Msg) in old(d.fs).dir ==>
                  MessageFirst(old(d.trace), d.trace, old(d.fs), stems[0])
      invariant forall n: Bytes | n !in FilesOf(stems[..k]) :: d.fs.Entry(n) == old(d.fs).Entry(n)
      invariant forall n: Bytes | n in FilesOf(stems[..k]) :: d.fs.Entry(n) == None
    {
      FilesAppend(stems, k);
      FilesPrefix(stems, k + 1);
      ghost var was := d.trace;
      var ok := RemoveStem(d, stems[k]);
      LostStep(old(d.trace), was, d.trace, old(d.fs), was[|was| - 1], FilesOf([stems[k]]), FilesOf(stems));
      FirstStays(old(d.trace), was, d.trace, old(d.fs), stems[0]);
      if !ok {
        return None, seen, removed;
      }
    }
    assert stems[..|stems|] == stems;
    forall n: Bytes
      ensures n in d.fs.dir.Keys <==> n in old(d.fs).dir.Keys - FilesOf(removed)
    {
      assert n in d.fs.dir <==> d.fs.Entry(n).Some?;
      assert n in old(d.fs).dir <==> old(d.fs).Entry(n).Some?;
    }
    AtMostKeep(seen, keep, removed);
    return Some(|stems|), seen, removed;
  }

  lemma NothingToPrune(keep: nat)
    ensures IsPruning({}, keep, []) && FilesOf([]) == {}
  {
    assert Stems({}) == {};
  }

  lemma EveryNameSeen(names: set<Bytes>, seen: set<Bytes>)
    requires seen <= names
    ensures |names - seen| == 0 ==> seen == names
  {
    if |names - seen| == 0 {
      assert names - seen == {};
    }
  }

  lemma AtMostKeep(names: set<Bytes>, keep: nat, removed: seq<Stem>)
    requires IsPruning(names, keep, removed)
    ensures |Stems(names - FilesOf(removed))| <= keep
  {
    StemsAfter(names, removed);
    PruningKeepsTheNewest(names, keep, removed);
  }

  lemma FilesAppend(stems: seq<Stem>, k: nat)
    requires k < |stems|
    ensures FilesOf(stems[..k + 1]) == FilesOf(stems[..k]) + FilesOf([stems[k]])
  {
    assert stems[..k + 1] == stems[..k] + [stems[k]];
    assert forall x :: x in stems[..k + 1] <==> x in stems[..k] || x in [stems[k]];
  }

  lemma FilesPrefix(stems: seq<Stem>, k: nat)
    requires k <= |stems|
    ensures FilesOf(stems[..k]) <= FilesOf(stems)
  {
    assert forall x | x in stems[..k] :: x in stems;
  }
}
