/** Publishing an envelope so that a power cut at any step leaves only complete files under envelope
    names and a tag only beside its whole envelope; and removing what a cut left half written. */
module Publish {
  import opened Bytes
  import opened AuditNames
  import opened Disk
  import opened Release

  datatype Envelope = Envelope(msg: Bytes, attest: Bytes, sig: Bytes, tag: Bytes) {
    function Of(ext: Ext): Bytes {
      match ext
      case Msg => msg
      case Attest => attest
      case Sig => sig
      case Tag => tag
    }
  }

  function PartNames(stem: Bytes): set<Bytes> {
    {Part(stem, Msg), Part(stem, Attest), Part(stem, Sig), Part(stem, Tag)}
  }

  function FinalNames(stem: Bytes): set<Bytes> {
    {Final(stem, Msg), Final(stem, Attest), Final(stem, Sig), Final(stem, Tag)}
  }

  lemma InNames(stem: Bytes, ext: Ext)
    ensures Part(stem, ext) in PartNames(stem) && Final(stem, ext) in FinalNames(stem)
    ensures Final(stem, ext) !in PartNames(stem) && Part(stem, ext) !in FinalNames(stem)
  {
    hide Final, Part;
    NamesAreDistinct(stem, ext, Msg);
    NamesAreDistinct(stem, ext, Attest);
    NamesAreDistinct(stem, ext, Sig);
    NamesAreDistinct(stem, ext, Tag);
    NamesAreDistinct(stem, Msg, ext);
    NamesAreDistinct(stem, Attest, ext);
    NamesAreDistinct(stem, Sig, ext);
    NamesAreDistinct(stem, Tag, ext);
  }

  // ------------------------------------------------------------------- claims

  /** Whatever a power cut makes of this state, a name of the envelope is as it might have been before
      publishing, or the complete new file; and with the new tag the whole new envelope is there. */
  ghost predicate Safe(base: Fs, fs: Fs, stem: Bytes, env: Envelope) {
    forall after: map<Bytes, Bytes> | MayBecome(fs, after) ::
      && (forall ext: Ext ::
            || Fate(base, Final(stem, ext), Lookup(after, Final(stem, ext)))
            || Lookup(after, Final(stem, ext)) == Some(env.Of(ext)))
      && (Fate(base, Final(stem, Tag), Lookup(after, Final(stem, Tag))) ||
          forall ext: Ext :: Lookup(after, Final(stem, ext)) == Some(env.Of(ext)))
  }

  /** Nothing can happen to other names that could not have happened to them before. */
  ghost predicate OthersKept(base: Fs, fs: Fs, names: set<Bytes>) {
    forall n: Bytes, got: Option<Bytes> | n !in names && Fate(fs, n, got) :: Fate(base, n, got)
  }

  /** The whole envelope survives any power cut. */
  ghost predicate Published(fs: Fs, stem: Bytes, env: Envelope) {
    forall after: map<Bytes, Bytes>, ext: Ext | MayBecome(fs, after) ::
      Lookup(after, Final(stem, ext)) == Some(env.Of(ext))
  }

  /** The envelope's own names were never used: its counter is new. */
  ghost predicate Unused(fs: Fs, stem: Bytes) {
    forall ext: Ext :: fs.Entries(Final(stem, ext)) == {None}
  }

  /** The file of such a name is the file of no other name, whatever a cut leaves. */
  ghost predicate Private(fs: Fs, names: set<Bytes>) {
    forall n: Bytes, m: Bytes | n in names && n in fs.dir && m != n :: Some(fs.dir[n]) !in fs.Entries(m)
  }

  /** For a stem not used before, safety is what a reader wants: every file there is complete, and with
      the tag the whole envelope is there. */
  ghost predicate CompleteFiles(after: map<Bytes, Bytes>, stem: Bytes, env: Envelope) {
    && (forall ext: Ext | Final(stem, ext) in after :: after[Final(stem, ext)] == env.Of(ext))
    && (Final(stem, Tag) in after ==> forall ext: Ext :: Final(stem, ext) in after)
  }

  lemma SafeForANewStem(base: Fs, fs: Fs, stem: Bytes, env: Envelope, after: map<Bytes, Bytes>)
    requires Safe(base, fs, stem, env) && Unused(base, stem) && MayBecome(fs, after)
    ensures CompleteFiles(after, stem, env)
  {
    hide Final;
  }

  // ------------------------------------------------ what keeps a state safe

  /** The name is a complete, synced file. */
  ghost predicate Holds(fs: Fs, n: Bytes, data: Bytes) {
    n in fs.dir && fs.dir[n] < |fs.files| && fs.files[fs.dir[n]] == File(data, true)
  }

  /** The entry is the complete new file. */
  predicate IsNew(fs: Fs, e: Option<nat>, data: Bytes) {
    e.Some? && e.value < |fs.files| && fs.files[e.value] == File(data, true)
  }

  /** Every entry an envelope name may be left with is one it had or complete, and the tag has a new one
      only when the others are there for good. */
  ghost predicate Sound(staged: Fs, fs: Fs, stem: Bytes, env: Envelope) {
    && fs.files == staged.files
    && (forall ext: Ext, e | e in fs.Entries(Final(stem, ext)) ::
          e in staged.Entries(Final(stem, ext)) || IsNew(fs, e, env.Of(ext)))
    && (fs.Entries(Final(stem, Tag)) <= staged.Entries(Final(stem, Tag)) ||
        forall ext: Ext, e | !ext.Tag? && e in fs.Entries(Final(stem, ext)) :: IsNew(fs, e, env.Of(ext)))
  }

  lemma SoundIsSafe(staged: Fs, fs: Fs, stem: Bytes, env: Envelope)
    requires Sound(staged, fs, stem, env)
    ensures Safe(staged, fs, stem, env)
  {
    hide Final;
    forall after: map<Bytes, Bytes> | MayBecome(fs, after)
      ensures forall ext: Ext ::
                || Fate(staged, Final(stem, ext), Lookup(after, Final(stem, ext)))
                || Lookup(after, Final(stem, ext)) == Some(env.Of(ext))
      ensures Fate(staged, Final(stem, Tag), Lookup(after, Final(stem, Tag))) ||
              forall ext: Ext :: Lookup(after, Final(stem, ext)) == Some(env.Of(ext))
    {
      forall ext: Ext
        ensures || Fate(staged, Final(stem, ext), Lookup(after, Final(stem, ext)))
                || Lookup(after, Final(stem, ext)) == Some(env.Of(ext))
        ensures (forall e | e in fs.Entries(Final(stem, ext)) :: IsNew(fs, e, env.Of(ext))) ==>
                  Lookup(after, Final(stem, ext)) == Some(env.Of(ext))
        ensures fs.Entries(Final(stem, ext)) <= staged.Entries(Final(stem, ext)) ==>
                  Fate(staged, Final(stem, ext), Lookup(after, Final(stem, ext)))
      {
        var e := LeftEntry(fs, Final(stem, ext), Lookup(after, Final(stem, ext)));
      }
    }
  }

  /** A fate is the fate of one entry. */
  lemma LeftEntry(fs: Fs, n: Bytes, got: Option<Bytes>) returns (e: Option<nat>)
    requires Fate(fs, n, got)
    ensures e in fs.Entries(n) && (e.Some? <==> got.Some?)
    ensures e.Some? ==> e.value < |fs.files| && MayHold(fs.files[e.value], got.value)
    ensures forall data | IsNew(fs, e, data) :: got == Some(data)
  {
    if got.Some? {
      var id: nat :| Some(id) in fs.Entries(n) && id < |fs.files| && MayHold(fs.files[id], got.value);
      e := Some(id);
    } else {
      e := None;
    }
  }

  /** Fates that already were possible are safe. */
  lemma OldFatesAreSafe(base: Fs, fs: Fs, stem: Bytes, env: Envelope)
    requires forall ext: Ext, got: Option<Bytes> | Fate(fs, Final(stem, ext), got) :: Fate(base, Final(stem, ext), got)
    ensures Safe(base, fs, stem, env)
  {
    hide Final;
  }

  lemma SafeFromBefore(base: Fs, staged: Fs, fs: Fs, stem: Bytes, env: Envelope)
    requires Safe(staged, fs, stem, env) && OthersKept(base, staged, PartNames(stem))
    ensures Safe(base, fs, stem, env)
  {
    hide Final, PartNames, Fate;
    forall ext: Ext, got: Option<Bytes> | Fate(staged, Final(stem, ext), got)
      ensures Fate(base, Final(stem, ext), got)
    {
      InNames(stem, ext);
    }
  }

  lemma OthersKeptTrans(a: Fs, b: Fs, c: Fs, some: set<Bytes>, names: set<Bytes>)
    requires OthersKept(a, b, some) && OthersKept(b, c, names) && some <= names
    ensures OthersKept(a, c, names)
  {
    hide Fate;
  }

  /** Only the given names changed, and the files of no other name. */
  ghost predicate Only(base: Fs, fs: Fs, names: set<Bytes>) {
    && |base.files| <= |fs.files|
    && (forall n: Bytes | n !in names :: fs.Entry(n) == base.Entry(n) && fs.Entries(n) == base.Entries(n))
    && (forall n: Bytes, id: nat | n !in names && Some(id) in base.Entries(n) && id < |base.files| ::
          fs.files[id] == base.files[id])
    && (forall n: Bytes, id: nat | n in names && Some(id) in fs.Entries(n) ::
          Some(id) in base.Entries(n) || id >= |base.files|)
    && Private(fs, names)
  }

  lemma OnlySelf(fs: Fs, names: set<Bytes>)
    requires Private(fs, names)
    ensures Only(fs, fs, names)
  {
  }

  lemma OnlyTrans(a: Fs, b: Fs, c: Fs, some: set<Bytes>, names: set<Bytes>)
    requires a.Valid() && b.Valid() && Only(a, b, names) && Only(b, c, some) && some <= names
    ensures Only(a, c, names)
  {
    forall n: Bytes, m: Bytes | n in names && n in c.dir && m != n
      ensures Some(c.dir[n]) !in c.Entries(m)
    {
      if n !in some {
        assert c.Entry(n) == b.Entry(n) && b.Entry(n) in b.Entries(n);
      }
    }
  }

  lemma OnlyKeeps(base: Fs, fs: Fs, names: set<Bytes>, n: Bytes, data: Bytes)
    requires base.Valid() && Only(base, fs, names) && n !in names && Holds(base, n, data)
    ensures Holds(fs, n, data)
  {
    assert fs.Entry(n) == base.Entry(n) && base.Entry(n) in base.Entries(n);
  }

  lemma OnlyKeepsOthers(base: Fs, fs: Fs, names: set<Bytes>)
    requires Only(base, fs, names) && base.Valid()
    ensures OthersKept(base, fs, names)
  {
    forall n: Bytes, got: Option<Bytes> | n !in names && Fate(fs, n, got)
      ensures Fate(base, n, got)
    {
      assert fs.Entries(n) == base.Entries(n);
      if got.Some? {
        var id: nat :| Some(id) in fs.Entries(n) && id < |fs.files| && MayHold(fs.files[id], got.value);
        assert id < |base.files| && fs.files[id] == base.files[id];
      }
    }
  }

  // ------------------------------------------------------------------ staging

  /** The trace grew by states that all satisfy `Only`. */
  ghost predicate Since(was: seq<Fs>, trace: seq<Fs>, base: Fs, names: set<Bytes>) {
    && was <= trace
    && forall i | |was| <= i < |trace| :: Only(base, trace[i], names)
  }

  /** The name is a file with this content, synced or not. */
  ghost predicate Contains(fs: Fs, n: Bytes, data: Bytes) {
    n in fs.dir && fs.dir[n] < |fs.files| && fs.files[fs.dir[n]].data == data
  }

  method Write(d: Directory, n: Bytes, data: Bytes) returns (ok: bool)
    requires d.Valid() && Private(d.fs, {n})
    modifies d
    ensures d.Valid() && Since(old(d.trace), d.trace, old(d.fs), {n}) && Only(old(d.fs), d.fs, {n})
    ensures ok ==> Contains(d.fs, n, data)
    ensures d.faults == old(d.faults) + (if ok then 0 else 1)
  {
    CreateOnly(d.fs, n);
    OnlySelf(d.fs, {n});
    ok := d.Create(n);
    if ok {
      EntryNamesAFile(d.fs, n);
      AppendOnly(old(d.fs), d.fs, n);
      ok := d.Append(n, data);
    }
  }

  lemma CreateOnly(fs: Fs, n: Bytes)
    requires fs.Valid() && Private(fs, {n})
    ensures Only(fs, Created(fs, n), {n})
    ensures n in Created(fs, n).dir && Created(fs, n).dir[n] < |Created(fs, n).files|
    ensures Created(fs, n).files[Created(fs, n).dir[n]].data == []
  {
    CreatedIsValid(fs, n);
    var g := Created(fs, n);
    if n in fs.dir {
      EntryNamesAFile(fs, n);
      assert forall m: Bytes :: g.Entry(m) == fs.Entry(m) && g.Entries(m) == fs.Entries(m);
    } else {
      FilesKeepValid(fs, fs.files + [File([], false)]);
      var h := fs.(files := fs.files + [File([], false)]);
      WithEntryIsValid(h, n, Some(|fs.files|));
      assert forall m: Bytes :: h.Entry(m) == fs.Entry(m) && h.Entries(m) == fs.Entries(m);
    }
  }

  lemma AppendOnly(base: Fs, fs: Fs, n: Bytes)
    requires base.Valid() && fs.Valid() && Only(base, fs, {n}) && n in fs.dir && fs.dir[n] < |fs.files|
    ensures forall data: Bytes :: Only(base, Appended(fs, n, data), {n})
  {
    forall data: Bytes
      ensures Only(base, Appended(fs, n, data), {n})
    {
      var g := Appended(fs, n, data);
      assert forall m: Bytes :: g.Entry(m) == fs.Entry(m) && g.Entries(m) == fs.Entries(m);
    }
  }

  /** Write a file and sync it. */
  method WriteSynced(d: Directory, n: Bytes, data: Bytes) returns (ok: bool)
    requires d.Valid() && Private(d.fs, {n})
    modifies d
    ensures d.Valid() && Since(old(d.trace), d.trace, old(d.fs), {n}) && Only(old(d.fs), d.fs, {n})
    ensures ok ==> Holds(d.fs, n, data)
    ensures d.faults == old(d.faults) + (if ok then 0 else 1)
  {
    ok := Write(d, n, data);
    if ok {
      ok := SyncWritten(d, n, old(d.fs), {n}, data);
    }
  }

  /** Sync a file written since `base`. */
  method SyncWritten(d: Directory, n: Bytes, ghost base: Fs, ghost names: set<Bytes>, ghost data: Bytes)
    returns (ok: bool)
    requires d.Valid() && base.Valid() && n in names && Only(base, d.fs, names) && Contains(d.fs, n, data)
    modifies d
    ensures d.Valid() && d.trace == old(d.trace) + [d.fs] && Only(base, d.fs, names) && d.fs.dir == old(d.fs).dir
    ensures ok ==> Holds(d.fs, n, data)
    ensures forall m: Bytes, x: Bytes | Contains(old(d.fs), m, x) :: Contains(d.fs, m, x)
    ensures forall m: Bytes, x: Bytes | Holds(old(d.fs), m, x) :: Holds(d.fs, m, x)
    ensures d.faults == old(d.faults) + (if ok then 0 else 1)
  {
    SyncOnly(base, d.fs, n, names);
    ok := d.SyncFile(n);
  }

  lemma SyncOnly(base: Fs, fs: Fs, n: Bytes, names: set<Bytes>)
    requires base.Valid() && fs.Valid() && Only(base, fs, names) && n in names && n in fs.dir && fs.dir[n] < |fs.files|
    ensures Only(base, FileSynced(fs, n), names)
  {
    var g := FileSynced(fs, n);
    assert forall m: Bytes :: g.Entry(m) == fs.Entry(m) && g.Entries(m) == fs.Entries(m);
  }

  /** Two files that another program fills under the names it is given; nothing syncs them yet, and on
      failure they hold anything. */
  method Quote(d: Directory, attestName: Bytes, sigName: Bytes, attest: Bytes, sig: Bytes) returns (ok: bool)
    requires d.Valid() && Private(d.fs, {attestName, sigName}) && attestName != sigName
    modifies d
    ensures d.Valid() && Since(old(d.trace), d.trace, old(d.fs), {attestName, sigName})
    ensures Only(old(d.fs), d.fs, {attestName, sigName})
    ensures ok ==> Contains(d.fs, attestName, attest) && Contains(d.fs, sigName, sig)
    ensures d.faults == old(d.faults) + (if ok then 0 else 1)
  {
    ghost var names := {attestName, sigName};
    OnlySelf(d.fs, names);
    ok := Write(d, attestName, attest);
    Step(old(d.trace), old(d.trace), d.trace, old(d.fs), old(d.fs), d.fs, {attestName}, names);
    if ok {
      label Between:
      ok := Write(d, sigName, sig);
      Step(old(d.trace), old@Between(d.trace), d.trace, old(d.fs), old@Between(d.fs), d.fs, {sigName}, names);
      OnlyContains(old@Between(d.fs), d.fs, {sigName}, attestName, attest);
    }
  }

  lemma OnlyContains(base: Fs, fs: Fs, names: set<Bytes>, n: Bytes, data: Bytes)
    requires base.Valid() && Only(base, fs, names) && n !in names && Contains(base, n, data)
    ensures Contains(fs, n, data)
  {
    assert fs.Entry(n) == base.Entry(n) && base.Entry(n) in base.Entries(n);
  }

  /** Staging goes on: what a further call did, added to what was done since `a`. */
  lemma Step(t0: seq<Fs>, t1: seq<Fs>, t2: seq<Fs>, a: Fs, b: Fs, c: Fs, some: set<Bytes>, names: set<Bytes>)
    requires a.Valid() && b.Valid() && some <= names
    requires Since(t0, t1, a, names) && Since(t1, t2, b, some) && Only(a, b, names) && Only(b, c, some)
    ensures Since(t0, t2, a, names) && Only(a, c, names)
  {
    hide Only, Fs.Valid;
    OnlyTrans(a, b, c, some, names);
    forall i | |t0| <= i < |t2|
      ensures Only(a, t2[i], names)
    {
      if i < |t1| {
        assert t2[i] == t1[i];
      } else {
        OnlyTrans(a, b, t2[i], some, names);
      }
    }
  }

  /** The four files under their `.part` names, each complete and synced. */
  ghost predicate Staged(fs: Fs, stem: Bytes, env: Envelope) {
    forall ext: Ext :: Holds(fs, Part(stem, ext), env.Of(ext))
  }

  lemma PartsAreDistinct(stem: Bytes)
    ensures Part(stem, Msg) !in {Part(stem, Attest), Part(stem, Sig), Part(stem, Tag)}
    ensures Part(stem, Attest) !in {Part(stem, Sig), Part(stem, Tag)}
    ensures Part(stem, Sig) != Part(stem, Tag)
  {
    hide Part, Final;
    NamesAreDistinct(stem, Msg, Attest);
    NamesAreDistinct(stem, Msg, Sig);
    NamesAreDistinct(stem, Msg, Tag);
    NamesAreDistinct(stem, Attest, Sig);
    NamesAreDistinct(stem, Attest, Tag);
    NamesAreDistinct(stem, Sig, Tag);
  }

  lemma OnlyPrivate(base: Fs, fs: Fs, names: set<Bytes>, some: set<Bytes>)
    requires Only(base, fs, names) && some <= names
    ensures Private(fs, some)
  {
  }

  /** The first file, then the quote. */
  method StageQuote(d: Directory, stem: Bytes, env: Envelope) returns (ok: bool)
    requires d.Valid() && Private(d.fs, PartNames(stem))
    modifies d
    ensures d.Valid() && Since(old(d.trace), d.trace, old(d.fs), PartNames(stem))
    ensures Only(old(d.fs), d.fs, PartNames(stem))
    ensures ok ==> Holds(d.fs, Part(stem, Msg), env.msg)
    ensures ok ==> Contains(d.fs, Part(stem, Attest), env.attest) && Contains(d.fs, Part(stem, Sig), env.sig)
    ensures d.faults == old(d.faults) + (if ok then 0 else 1)
  {
    hide Final, Part, Holds, Only, Contains;
    PartsAreDistinct(stem);
    ghost var names := PartNames(stem);
    var m, a, s := Part(stem, Msg), Part(stem, Attest), Part(stem, Sig);
    OnlySelf(d.fs, names);
    ok := WriteSynced(d, m, env.msg);
    Step(old(d.trace), old(d.trace), d.trace, old(d.fs), old(d.fs), d.fs, {m}, names);
    if ok {
      label Written:
      OnlyPrivate(old(d.fs), d.fs, names, {a, s});
      ok := Quote(d, a, s, env.attest, env.sig);
      Step(old(d.trace), old@Written(d.trace), d.trace, old(d.fs), old@Written(d.fs), d.fs, {a, s}, names);
      OnlyKeeps(old@Written(d.fs), d.fs, {a, s}, m, env.msg);
    }
  }

  /** `staged`: every file under its `.part` name, synced; stops at the first failure. */
  method StageFiles(d: Directory, stem: Bytes, env: Envelope) returns (ok: bool)
    requires d.Valid() && Private(d.fs, PartNames(stem))
    modifies d
    ensures d.Valid() && Since(old(d.trace), d.trace, old(d.fs), PartNames(stem))
    ensures Only(old(d.fs), d.fs, PartNames(stem))
    ensures ok ==> Staged(d.fs, stem, env)
    ensures d.faults == old(d.faults) + (if ok then 0 else 1)
  {
    hide Final, Part, Holds, Only, Contains;
    PartsAreDistinct(stem);
    ghost var names := PartNames(stem);
    var m, a, s, t := Part(stem, Msg), Part(stem, Attest), Part(stem, Sig), Part(stem, Tag);
    ok := StageQuote(d, stem, env);
    if ok {
      ok := SyncWritten(d, a, old(d.fs), names, env.attest);
    }
    if ok {
      ok := SyncWritten(d, s, old(d.fs), names, env.sig);
    }
    if ok {
      label Synced:
      OnlyPrivate(old(d.fs), d.fs, names, {t});
      ok := WriteSynced(d, t, env.tag);
      Step(old(d.trace), old@Synced(d.trace), d.trace, old(d.fs), old@Synced(d.fs), d.fs, {t}, names);
      OnlyKeeps(old@Synced(d.fs), d.fs, {t}, m, env.msg);
      OnlyKeeps(old@Synced(d.fs), d.fs, {t}, a, env.attest);
      OnlyKeeps(old@Synced(d.fs), d.fs, {t}, s, env.sig);
      if ok {
        forall ext: Ext
          ensures Holds(d.fs, Part(stem, ext), env.Of(ext))
        {
          match ext
          case Msg =>
          case Attest =>
          case Sig =>
          case Tag =>
        }
      }
    }
  }

  /** `cleanup`: the `.part` names are removed, as far as that succeeds. */
  method Cleanup(d: Directory, stem: Bytes)
    requires d.Valid()
    modifies d
    ensures d.Valid() && old(d.trace) <= d.trace && Kept(old(d.fs), d.fs, PartNames(stem))
    ensures forall i | |old(d.trace)| <= i < |d.trace| :: Kept(old(d.fs), d.trace[i], PartNames(stem))
    ensures old(d.faults) <= d.faults
    ensures d.faults == old(d.faults) ==> forall ext: Ext :: Part(stem, ext) !in d.fs.dir
  {
    hide Part, Final;
    var parts := [Part(stem, Msg), Part(stem, Attest), Part(stem, Sig), Part(stem, Tag)];
    KeptSelf(d.fs, PartNames(stem));
    for k := 0 to 4
      invariant d.Valid() && old(d.trace) <= d.trace && Kept(old(d.fs), d.fs, PartNames(stem))
      invariant old(d.faults) <= d.faults
      invariant d.faults == old(d.faults) ==> forall j | 0 <= j < k :: d.fs.Entry(parts[j]) == None
      invariant forall i | |old(d.trace)| <= i < |d.trace| :: Kept(old(d.fs), d.trace[i], PartNames(stem))
    {
      ghost var was := d.fs;
      var _ := d.Remove(parts[k]);
      WithEntryIsValid(was, parts[k], None);
      KeptOn(old(d.fs), was, d.fs, parts[k], PartNames(stem));
    }
    if d.faults == old(d.faults) {
      forall ext: Ext
        ensures Part(stem, ext) !in d.fs.dir
      {
        assert d.fs.Entry(parts[Rank(ext)]) == None;
      }
    }
  }

  // ---------------------------------------------------------- moving into place

  /** Files made before are as they were; names outside `names` have no new possible entries. */
  ghost predicate Kept(base: Fs, fs: Fs, names: set<Bytes>) {
    && |base.files| <= |fs.files| && (forall id | 0 <= id < |base.files| :: fs.files[id] == base.files[id])
    && forall n: Bytes | n !in names :: fs.Entry(n) == base.Entry(n) && fs.Entries(n) <= base.Entries(n)
  }

  lemma KeptOn(base: Fs, a: Fs, b: Fs, n: Bytes, names: set<Bytes>)
    requires Kept(base, a, names) && n in names && b.files == a.files
    requires forall m: Bytes | m != n :: b.Entry(m) == a.Entry(m) && b.Entries(m) <= a.Entries(m)
    ensures Kept(base, b, names)
  {
  }

  lemma KeptTrans(a: Fs, b: Fs, c: Fs, some: set<Bytes>, names: set<Bytes>)
    requires Kept(a, b, some) && Kept(b, c, names) && some <= names
    ensures Kept(a, c, names)
  {
  }

  lemma KeptKeepsOthers(base: Fs, fs: Fs, names: set<Bytes>)
    requires Kept(base, fs, names) && base.Valid()
    ensures OthersKept(base, fs, names)
  {
    forall n: Bytes, got: Option<Bytes> | n !in names && Fate(fs, n, got)
      ensures Fate(base, n, got)
    {
      if got.Some? {
        var id: nat :| Some(id) in fs.Entries(n) && id < |fs.files| && MayHold(fs.files[id], got.value);
        assert Some(id) in base.Entries(n);
      }
    }
  }

  /** The file staged as `.part` is under its envelope name, and a cut leaves it or what was there. */
  ghost predicate Placed(staged: Fs, fs: Fs, stem: Bytes, ext: Ext) {
    && fs.Entry(Final(stem, ext)) == staged.Entry(Part(stem, ext)) && fs.Entry(Part(stem, ext)) == None
    && fs.Entries(Final(stem, ext)) <= staged.Entries(Final(stem, ext)) + {staged.Entry(Part(stem, ext))}
  }

  /** And for good. */
  ghost predicate Fixed(staged: Fs, fs: Fs, stem: Bytes, ext: Ext) {
    Placed(staged, fs, stem, ext) && fs.Entries(Final(stem, ext)) == {staged.Entry(Part(stem, ext))}
  }

  /** It still waits under its `.part` name. */
  ghost predicate Waiting(staged: Fs, fs: Fs, stem: Bytes, ext: Ext) {
    && fs.Entry(Part(stem, ext)) == staged.Entry(Part(stem, ext))
    && fs.Entry(Final(stem, ext)) == staged.Entry(Final(stem, ext))
    && fs.Entries(Final(stem, ext)) <= staged.Entries(Final(stem, ext))
  }

  function Rank(ext: Ext): nat {
    match ext
    case Msg => 0
    case Attest => 1
    case Sig => 2
    case Tag => 3
  }

  /** The first `k` files are in place, the others wait. */
  ghost predicate Moved(staged: Fs, fs: Fs, stem: Bytes, k: nat) {
    && fs.files == staged.files
    && forall ext: Ext :: if Rank(ext) < k then Placed(staged, fs, stem, ext) else Waiting(staged, fs, stem, ext)
  }

  ghost predicate FixedBefore(staged: Fs, fs: Fs, stem: Bytes, k: nat) {
    forall ext: Ext | Rank(ext) < k :: Fixed(staged, fs, stem, ext)
  }

  lemma MovedIsSound(staged: Fs, fs: Fs, stem: Bytes, env: Envelope, k: nat)
    requires Staged(staged, stem, env) && Moved(staged, fs, stem, k)
    requires k <= 3 || FixedBefore(staged, fs, stem, 3)
    ensures Sound(staged, fs, stem, env)
  {
    hide Final, Part;
    forall ext: Ext, e | e in fs.Entries(Final(stem, ext))
      ensures e in staged.Entries(Final(stem, ext)) || IsNew(fs, e, env.Of(ext))
      ensures k > 3 && !ext.Tag? ==> IsNew(fs, e, env.Of(ext))
    {
      assert Rank(ext) < k ==> Placed(staged, fs, stem, ext);
      assert Rank(ext) >= k ==> Waiting(staged, fs, stem, ext);
      assert Holds(staged, Part(stem, ext), env.Of(ext));
      assert k > 3 && Rank(ext) < 3 ==> Fixed(staged, fs, stem, ext);
    }
    assert k <= 3 ==> Waiting(staged, fs, stem, Tag);
  }

  /** One rename more. */
  lemma RenameMoves(staged: Fs, fs: Fs, stem: Bytes, ext: Ext)
    requires fs.Valid() && Moved(staged, fs, stem, Rank(ext)) && Part(stem, ext) in fs.dir
    ensures Moved(staged, Renamed(fs, Part(stem, ext), Final(stem, ext)), stem, Rank(ext) + 1)
    ensures FixedBefore(staged, fs, stem, Rank(ext)) ==>
              FixedBefore(staged, Renamed(fs, Part(stem, ext), Final(stem, ext)), stem, Rank(ext))
    ensures Kept(fs, Renamed(fs, Part(stem, ext), Final(stem, ext)), PartNames(stem) + FinalNames(stem))
  {
    hide Final, Part, PartNames, FinalNames;
    var from, to := Part(stem, ext), Final(stem, ext);
    var mid := fs.WithEntry(from, None);
    var g := Renamed(fs, from, to);
    EntryNamesAFile(fs, from);
    WithEntryIsValid(fs, from, None);
    WithEntryIsValid(mid, to, Some(fs.dir[from]));
    InNames(stem, ext);
    assert Waiting(staged, fs, stem, ext);
    forall e: Ext
      ensures if Rank(e) < Rank(ext) + 1 then Placed(staged, g, stem, e) else Waiting(staged, g, stem, e)
      ensures FixedBefore(staged, fs, stem, Rank(ext)) && Rank(e) < Rank(ext) ==> Fixed(staged, g, stem, e)
    {
      NamesAreDistinct(stem, e, ext);
      NamesAreDistinct(stem, ext, e);
      InNames(stem, e);
      assert Rank(e) < Rank(ext) ==> Placed(staged, fs, stem, e);
      assert Rank(e) > Rank(ext) ==> Waiting(staged, fs, stem, e);
    }
  }

  /** Syncing the directory fixes what is in place. */
  lemma SyncFixes(staged: Fs, fs: Fs, stem: Bytes, env: Envelope, k: nat, names: set<Bytes>)
    requires fs.Valid() && Staged(staged, stem, env) && Moved(staged, fs, stem, k)
    ensures Moved(staged, DirSynced(fs), stem, k) && FixedBefore(staged, DirSynced(fs), stem, k)
    ensures Kept(fs, DirSynced(fs), names)
  {
    hide Final, Part;
    var g := DirSynced(fs);
    forall n: Bytes
      ensures g.Entry(n) == fs.Entry(n) && g.Entries(n) == {fs.Entry(n)} <= fs.Entries(n)
    {
      assert fs.Entry(n) in fs.Entries(n);
    }
    forall ext: Ext
      ensures if Rank(ext) < k then Placed(staged, g, stem, ext) && Fixed(staged, g, stem, ext)
              else Waiting(staged, g, stem, ext)
    {
      assert Holds(staged, Part(stem, ext), env.Of(ext));
      assert Rank(ext) < k ==> Placed(staged, fs, stem, ext);
      assert Rank(ext) >= k ==> Waiting(staged, fs, stem, ext);
    }
  }

  /** A state on the way: sound, and nothing else touched. */
  ghost predicate OnTheWay(base: Fs, fs: Fs, stem: Bytes, env: Envelope) {
    Sound(base, fs, stem, env) && Kept(base, fs, PartNames(stem) + FinalNames(stem))
  }

  ghost predicate AllOnTheWay(was: seq<Fs>, trace: seq<Fs>, base: Fs, stem: Bytes, env: Envelope) {
    && was <= trace
    && forall i | |was| <= i < |trace| :: OnTheWay(base, trace[i], stem, env)
  }

  lemma KeptSelf(fs: Fs, names: set<Bytes>)
    ensures Kept(fs, fs, names)
  {
  }

  /** One rename of one file. */
  method MoveOne(d: Directory, stem: Bytes, ext: Ext, ghost env: Envelope, ghost staged: Fs) returns (ok: bool)
    requires d.Valid() && Staged(staged, stem, env) && Moved(staged, d.fs, stem, Rank(ext))
    requires Kept(staged, d.fs, PartNames(stem) + FinalNames(stem))
    requires ext.Tag? ==> FixedBefore(staged, d.fs, stem, 3)
    modifies d
    ensures d.Valid() && d.trace == old(d.trace) + [d.fs] && OnTheWay(staged, d.fs, stem, env)
    ensures ok ==> Moved(staged, d.fs, stem, Rank(ext) + 1)
    ensures d.faults == old(d.faults) + (if ok then 0 else 1)
  {
    hide Final, Part, PartNames, FinalNames, Moved, FixedBefore, Sound, Kept, Staged;
    var from, to := Part(stem, ext), Final(stem, ext);
    StillThere(staged, d.fs, stem, env, ext);
    NamesAreDistinct(stem, ext, ext);
    RenameMoves(staged, d.fs, stem, ext);
    KeptTrans(staged, d.fs, Renamed(d.fs, from, to), PartNames(stem) + FinalNames(stem),
              PartNames(stem) + FinalNames(stem));
    MovedIsSound(staged, d.fs, stem, env, Rank(ext));
    MovedIsSound(staged, Renamed(d.fs, from, to), stem, env, Rank(ext) + 1);
    ok := d.Rename(from, to);
  }

  lemma StillThere(staged: Fs, fs: Fs, stem: Bytes, env: Envelope, ext: Ext)
    requires Staged(staged, stem, env) && Moved(staged, fs, stem, Rank(ext))
    ensures Part(stem, ext) in fs.dir
  {
    hide Final, Part;
    assert Waiting(staged, fs, stem, ext) && Holds(staged, Part(stem, ext), env.Of(ext));
  }

  /** Syncing the directory between and after the renames. */
  method SyncMoved(d: Directory, stem: Bytes, k: nat, ghost env: Envelope, ghost staged: Fs) returns (ok: bool)
    requires d.Valid() && Staged(staged, stem, env) && Moved(staged, d.fs, stem, k) && Sound(staged, d.fs, stem, env)
    requires Kept(staged, d.fs, PartNames(stem) + FinalNames(stem)) && k <= 4
    modifies d
    ensures d.Valid() && d.trace == old(d.trace) + [d.fs] && OnTheWay(staged, d.fs, stem, env)
    ensures Moved(staged, d.fs, stem, k) && (ok ==> FixedBefore(staged, d.fs, stem, k))
    ensures d.faults == old(d.faults) + (if ok then 0 else 1)
  {
    hide Final, Part, PartNames, FinalNames, Moved, Sound, Kept, Staged;
    ghost var names := PartNames(stem) + FinalNames(stem);
    SyncFixes(staged, d.fs, stem, env, k, names);
    KeptTrans(staged, d.fs, DirSynced(d.fs), names, names);
    assert FixedBefore(staged, DirSynced(d.fs), stem, k) && k > 3 ==> FixedBefore(staged, DirSynced(d.fs), stem, 3);
    MovedIsSound(staged, DirSynced(d.fs), stem, env, k);
    ok := d.SyncDir();
  }

  /** Three renames, a sync, the tag, a sync. The first rename is a state of its own. */
  method MoveIntoPlace(d: Directory, stem: Bytes, ghost env: Envelope) returns (ok: bool, ghost first: nat)
    requires d.Valid() && Staged(d.fs, stem, env) && Moved(d.fs, d.fs, stem, 0)
    modifies d
    ensures d.Valid() && AllOnTheWay(old(d.trace), d.trace, old(d.fs), stem, env)
    ensures ok ==> Moved(old(d.fs), d.fs, stem, 4) && FixedBefore(old(d.fs), d.fs, stem, 4)
    ensures ok ==> |old(d.trace)| <= first < |d.trace| && d.trace[first].Valid()
    ensures ok ==> Moved(old(d.fs), d.trace[first], stem, 1)
    ensures d.faults == old(d.faults) + (if ok then 0 else 1)
  {
    hide Final, Part, PartNames, FinalNames, Moved, FixedBefore, Sound, Kept, Staged, Fs.Valid;
    ghost var staged := d.fs;
    first := |d.trace|;
    KeptSelf(d.fs, PartNames(stem) + FinalNames(stem));
    var exts := [Msg, Attest, Sig];
    for k := 0 to 3
      invariant d.Valid() && Moved(staged, d.fs, stem, k) && AllOnTheWay(old(d.trace), d.trace, staged, stem, env)
      invariant Kept(staged, d.fs, PartNames(stem) + FinalNames(stem))
      invariant d.faults == old(d.faults) && first == |old(d.trace)| && (k == 0 ==> |d.trace| == first)
      invariant k > 0 ==> first < |d.trace| && d.trace[first].Valid() && Moved(staged, d.trace[first], stem, 1)
    {
      ok := MoveOne(d, stem, exts[k], env, staged);
      if !ok {
        return;
      }
    }
    MovedIsSound(staged, d.fs, stem, env, 3);
    ok := SyncMoved(d, stem, 3, env, staged);
    if !ok {
      return;
    }
    ok := MoveOne(d, stem, Tag, env, staged);
    if !ok {
      return;
    }
    ok := SyncMoved(d, stem, 4, env, staged);
  }

  lemma FixedIsPublished(staged: Fs, fs: Fs, stem: Bytes, env: Envelope)
    requires Staged(staged, stem, env) && Moved(staged, fs, stem, 4) && FixedBefore(staged, fs, stem, 4)
    ensures Published(fs, stem, env)
  {
    hide Final, Part;
    forall after: map<Bytes, Bytes>, ext: Ext | MayBecome(fs, after)
      ensures Lookup(after, Final(stem, ext)) == Some(env.Of(ext))
    {
      assert Fixed(staged, fs, stem, ext) && Holds(staged, Part(stem, ext), env.Of(ext));
      var e := LeftEntry(fs, Final(stem, ext), Lookup(after, Final(stem, ext)));
      assert IsNew(fs, e, env.Of(ext));
    }
  }

  // -------------------------------------------------------- all or nothing, when

  /** A power cut leaves all four files of the envelope or none. */
  ghost predicate WholeOrNothing(fs: Fs, stem: Bytes) {
    forall after: map<Bytes, Bytes> | MayBecome(fs, after) ::
      (forall ext: Ext :: Final(stem, ext) in after) || (forall ext: Ext :: Final(stem, ext) !in after)
  }

  /** Exactly when: none of the four names may be left with a file, or none may be left without one. */
  lemma WholeOrNothingIff(fs: Fs, stem: Bytes)
    requires fs.Valid()
    ensures WholeOrNothing(fs, stem) <==>
            || (forall ext: Ext :: fs.Entries(Final(stem, ext)) == {None})
            || (forall ext: Ext :: None !in fs.Entries(Final(stem, ext)))
  {
    hide Final;
    if || (forall ext: Ext :: fs.Entries(Final(stem, ext)) == {None})
       || (forall ext: Ext :: None !in fs.Entries(Final(stem, ext)))
    {
      forall after: map<Bytes, Bytes> | MayBecome(fs, after)
        ensures (forall ext: Ext :: Final(stem, ext) in after) || (forall ext: Ext :: Final(stem, ext) !in after)
      {
        forall ext: Ext
          ensures fs.Entries(Final(stem, ext)) == {None} ==> Final(stem, ext) !in after
          ensures None !in fs.Entries(Final(stem, ext)) ==> Final(stem, ext) in after
        {
          var e := LeftEntry(fs, Final(stem, ext), Lookup(after, Final(stem, ext)));
        }
      }
    } else {
      var a, b := OneWithOneWithout(fs, stem);
      NamesAreDistinct(stem, a, b);
      var after := CutBetween(fs, Final(stem, a), Final(stem, b));
    }
  }

  /** Otherwise one name may be left with a file while another is left without. */
  lemma OneWithOneWithout(fs: Fs, stem: Bytes) returns (a: Ext, b: Ext)
    requires fs.Valid()
    requires exists ext: Ext :: fs.Entries(Final(stem, ext)) != {None}
    requires exists ext: Ext :: None in fs.Entries(Final(stem, ext))
    ensures a != b && None in fs.Entries(Final(stem, b))
    ensures exists id: nat :: Some(id) in fs.Entries(Final(stem, a))
  {
    hide Final;
    a :| fs.Entries(Final(stem, a)) != {None};
    b :| None in fs.Entries(Final(stem, b));
    HasFile(fs, Final(stem, a));
    if a == b {
      var c := if a.Msg? then Tag else Msg;
      if None in fs.Entries(Final(stem, c)) {
        b := c;
      } else {
        HasFile(fs, Final(stem, c));
        a := c;
      }
    }
  }

  lemma HasFile(fs: Fs, n: Bytes)
    requires fs.Valid() && fs.Entries(n) != {None}
    ensures exists id: nat :: Some(id) in fs.Entries(n)
  {
    assert fs.Entry(n) in fs.Entries(n);
    assert (forall e | e in fs.Entries(n) :: e == None) ==> fs.Entries(n) == {None};
    var e :| e in fs.Entries(n) && e != None;
    assert Some(e.value) in fs.Entries(n);
  }

  /** Names meet their fates independently: a cut may leave one with a file and another without. */
  lemma CutBetween(fs: Fs, with: Bytes, without: Bytes) returns (after: map<Bytes, Bytes>)
    requires fs.Valid() && with != without && None in fs.Entries(without)
    requires exists id: nat :: Some(id) in fs.Entries(with)
    ensures MayBecome(fs, after) && with in after && without !in after
  {
    var id: nat :| Some(id) in fs.Entries(with);
    var seen := Contents(fs);
    after := seen[with := fs.files[id].data] - {without};
    ContentsMaySurvive(fs);
    forall n: Bytes
      ensures Fate(fs, n, Lookup(after, n))
    {
      assert Fate(fs, n, Lookup(seen, n));
      assert n != with && n != without ==> Lookup(after, n) == Lookup(seen, n);
    }
  }

  /** While an envelope of a new stem is moved into place, a cut leaves all or nothing only before the first
      rename, and once no name can be lost again, which is after the second directory sync. */
  lemma WholeOrNothingAt(staged: Fs, fs: Fs, stem: Bytes, env: Envelope, k: nat)
    requires fs.Valid() && Staged(staged, stem, env) && Moved(staged, fs, stem, k) && k <= 4 && Unused(staged, stem)
    ensures WholeOrNothing(fs, stem) <==> k == 0 || (k == 4 && FixedBefore(staged, fs, stem, 4))
  {
    hide Final, Part, WholeOrNothing;
    WholeOrNothingIff(fs, stem);
    forall ext: Ext
      ensures Rank(ext) < k ==> fs.Entries(Final(stem, ext)) != {None}
      ensures Rank(ext) < k ==> (None !in fs.Entries(Final(stem, ext)) <==> Fixed(staged, fs, stem, ext))
      ensures Rank(ext) >= k ==> fs.Entries(Final(stem, ext)) == {None}
    {
      assert Holds(staged, Part(stem, ext), env.Of(ext));
      assert fs.Entry(Final(stem, ext)) in fs.Entries(Final(stem, ext));
      assert Rank(ext) < k ==> Placed(staged, fs, stem, ext);
      assert Rank(ext) >= k ==> Waiting(staged, fs, stem, ext);
    }
    if 0 < k < 4 {
      assert Rank(Msg) < k && Rank(Tag) >= k;
      assert None in fs.Entries(Final(stem, Tag));
    }
    assert k == 0 ==> forall ext: Ext :: Rank(ext) >= k;
    if k == 4 {
      assert fs.Entries(Final(stem, Msg)) != {None};
      assert (forall ext: Ext :: None !in fs.Entries(Final(stem, ext)))
          <==> (forall ext: Ext :: Fixed(staged, fs, stem, ext));
      assert forall ext: Ext :: Rank(ext) < 4;
    }
  }

  // ------------------------------------------------------------------ the whole

  /** In every state since `was`, a power cut leaves the envelope safe and other names to fates they
      already had. */
  ghost predicate SafeThroughout(was: seq<Fs>, trace: seq<Fs>, base: Fs, stem: Bytes, env: Envelope) {
    && was <= trace
    && forall i | |was| <= i < |trace| ::
         Safe(base, trace[i], stem, env) && OthersKept(base, trace[i], PartNames(stem) + FinalNames(stem))
  }

  lemma OldNamesAreSafe(base: Fs, fs: Fs, stem: Bytes, env: Envelope)
    requires OthersKept(base, fs, PartNames(stem))
    ensures Safe(base, fs, stem, env) && OthersKept(base, fs, PartNames(stem) + FinalNames(stem))
  {
    hide Final, Part, PartNames, FinalNames, Fate;
    forall ext: Ext, got: Option<Bytes> | Fate(fs, Final(stem, ext), got)
      ensures Fate(base, Final(stem, ext), got)
    {
      InNames(stem, ext);
    }
    OldFatesAreSafe(base, fs, stem, env);
  }

  lemma StagingIsSafe(was: seq<Fs>, trace: seq<Fs>, base: Fs, stem: Bytes, env: Envelope)
    requires base.Valid() && Since(was, trace, base, PartNames(stem))
    ensures SafeThroughout(was, trace, base, stem, env)
  {
    hide Final, Part, PartNames, FinalNames, Only, OthersKept, Safe, Fs.Valid;
    forall i | |was| <= i < |trace|
      ensures Safe(base, trace[i], stem, env) && OthersKept(base, trace[i], PartNames(stem) + FinalNames(stem))
    {
      OnlyKeepsOthers(base, trace[i], PartNames(stem));
      OldNamesAreSafe(base, trace[i], stem, env);
    }
  }

  lemma CleanupIsSafe(base: Fs, failed: Fs, fs: Fs, stem: Bytes, env: Envelope)
    requires base.Valid() && failed.Valid() && Only(base, failed, PartNames(stem)) && Kept(failed, fs, PartNames(stem))
    ensures Safe(base, fs, stem, env) && OthersKept(base, fs, PartNames(stem) + FinalNames(stem))
  {
    hide Final, Part, PartNames, FinalNames, Only, OthersKept, Safe, Kept, Fs.Valid;
    OnlyKeepsOthers(base, failed, PartNames(stem));
    KeptKeepsOthers(failed, fs, PartNames(stem));
    OthersKeptTrans(base, failed, fs, PartNames(stem), PartNames(stem));
    OldNamesAreSafe(base, fs, stem, env);
  }

  lemma MovingIsSafe(base: Fs, staged: Fs, fs: Fs, stem: Bytes, env: Envelope)
    requires base.Valid() && staged.Valid() && Only(base, staged, PartNames(stem)) && OnTheWay(staged, fs, stem, env)
    ensures Safe(base, fs, stem, env) && OthersKept(base, fs, PartNames(stem) + FinalNames(stem))
  {
    hide Final, Part, PartNames, FinalNames, Only, OthersKept, Safe, Kept, Sound, Fs.Valid;
    var names := PartNames(stem) + FinalNames(stem);
    SoundIsSafe(staged, fs, stem, env);
    OnlyKeepsOthers(base, staged, PartNames(stem));
    SafeFromBefore(base, staged, fs, stem, env);
    KeptKeepsOthers(staged, fs, names);
    OthersKeptTrans(base, staged, fs, PartNames(stem), names);
  }

  lemma StagedIsMoved0(fs: Fs, stem: Bytes)
    ensures Moved(fs, fs, stem, 0)
  {
    hide Final, Part;
    forall ext: Ext
      ensures Waiting(fs, fs, stem, ext)
    {
    }
  }

  lemma StillUnused(base: Fs, fs: Fs, stem: Bytes)
    requires Unused(base, stem) && Only(base, fs, PartNames(stem))
    ensures Unused(fs, stem)
  {
    hide Final, PartNames;
    forall ext: Ext
      ensures fs.Entries(Final(stem, ext)) == {None}
    {
      InNames(stem, ext);
    }
  }

  /** No half-written file is left, and the envelope's own names are as they were. */
  ghost predicate NothingLeft(base: Fs, fs: Fs, stem: Bytes) {
    forall ext: Ext :: Part(stem, ext) !in fs.dir && fs.Entry(Final(stem, ext)) == base.Entry(Final(stem, ext))
  }

  lemma CleanedUp(base: Fs, failed: Fs, fs: Fs, stem: Bytes)
    requires Only(base, failed, PartNames(stem)) && Kept(failed, fs, PartNames(stem))
    requires forall ext: Ext :: Part(stem, ext) !in fs.dir
    ensures NothingLeft(base, fs, stem)
  {
    hide Final, Part, PartNames;
    forall ext: Ext
      ensures fs.Entry(Final(stem, ext)) == base.Entry(Final(stem, ext))
    {
      InNames(stem, ext);
    }
  }

  lemma AllPlacedNoParts(staged: Fs, fs: Fs, stem: Bytes)
    requires Moved(staged, fs, stem, 4)
    ensures forall ext: Ext :: Part(stem, ext) !in fs.dir
  {
    hide Final, Part;
    forall ext: Ext
      ensures Part(stem, ext) !in fs.dir
    {
      assert Placed(staged, fs, stem, ext);
    }
  }

  /** Write one envelope; a `.part` file of its stem may be left from before, as long as no other name
      shares it. In every state passed through, a power cut leaves each name of the envelope as it might
      have been before or with the complete new file, the new tag only beside the whole new envelope, and
      no other name worse off. Success means the whole envelope survives any cut from now on; but on the
      way there is always a state in which a cut leaves an envelope of a new stem neither whole nor absent. It
      fails only when a call failed; when that is the only one, and before all was staged, no file is left of
      the envelope. Success leaves no half-written file either. */
  method PublishEnvelope(d: Directory, stem: Bytes, env: Envelope) returns (ok: bool)
    requires d.Valid() && Private(d.fs, PartNames(stem))
    modifies d
    ensures d.Valid() && SafeThroughout(old(d.trace), d.trace, old(d.fs), stem, env)
    ensures ok ==> Published(d.fs, stem, env)
    ensures ok ==> forall ext: Ext :: Part(stem, ext) !in d.fs.dir
    ensures old(d.faults) <= d.faults && (ok <==> d.faults == old(d.faults))
    ensures !ok && d.faults == old(d.faults) + 1 ==>
              || NothingLeft(old(d.fs), d.fs, stem)
              || exists i | |old(d.trace)| <= i + 1 <= |d.trace| :: Staged(d.trace[i], stem, env)
    ensures ok && Unused(old(d.fs), stem) ==>
              exists i | |old(d.trace)| <= i < |d.trace| :: !WholeOrNothing(d.trace[i], stem)
  {
    hide Final, Part, PartNames, FinalNames, Moved, FixedBefore, Sound, Kept, Staged, Only, Safe, OthersKept, Published;
    hide WholeOrNothing, Fs.Valid, Unused, Private;
    ghost var base, was := d.fs, d.trace;
    ok := StageFiles(d, stem, env);
    StagingIsSafe(was, d.trace, base, stem, env);
    label Staging:
    if !ok {
      Cleanup(d, stem);
      forall i | |old@Staging(d.trace)| <= i < |d.trace|
        ensures Safe(base, d.trace[i], stem, env) && OthersKept(base, d.trace[i], PartNames(stem) + FinalNames(stem))
      {
        CleanupIsSafe(base, old@Staging(d.fs), d.trace[i], stem, env);
      }
      assert forall i | |was| <= i < |old@Staging(d.trace)| :: d.trace[i] == old@Staging(d.trace)[i];
      if d.faults == old(d.faults) + 1 {
        CleanedUp(base, old@Staging(d.fs), d.fs, stem);
      }
      return;
    }
    ghost var all := |d.trace| - 1;
    assert d.trace[all] == d.fs;
    StagedIsMoved0(d.fs, stem);
    ghost var first;
    ok, first := MoveIntoPlace(d, stem, env);
    forall i | |old@Staging(d.trace)| <= i < |d.trace|
      ensures Safe(base, d.trace[i], stem, env) && OthersKept(base, d.trace[i], PartNames(stem) + FinalNames(stem))
    {
      MovingIsSafe(base, old@Staging(d.fs), d.trace[i], stem, env);
    }
    assert forall i | |was| <= i < |old@Staging(d.trace)| :: d.trace[i] == old@Staging(d.trace)[i];
    assert d.trace[all] == old@Staging(d.trace)[all] && Staged(d.trace[all], stem, env);
    if ok {
      AllPlacedNoParts(old@Staging(d.fs), d.fs, stem);
      FixedIsPublished(old@Staging(d.fs), d.fs, stem, env);
      if Unused(base, stem) {
        StillUnused(base, old@Staging(d.fs), stem);
        WholeOrNothingAt(old@Staging(d.fs), d.trace[first], stem, env, 1);
      }
    }
  }

  // ------------------------------------------------------------- the next cycle

  function WithoutPartials(contents: map<Bytes, Bytes>): map<Bytes, Bytes> {
    map n | n in contents && !IsPartial(n) :: contents[n]
  }

  ghost function Partials(names: set<Bytes>): set<Bytes> {
    set n | n in names && IsPartial(n)
  }

  lemma LeavesTheRest(was: Fs, fs: Fs, gone: set<Bytes>)
    requires fs.files == was.files && gone == Partials(was.dir.Keys)
    requires forall m: Bytes :: fs.Entry(m) == if m in gone then None else was.Entry(m)
    ensures Contents(fs) == WithoutPartials(Contents(was))
  {
    hide IsPartial;
    forall m: Bytes
      ensures m in Contents(fs) <==> m in WithoutPartials(Contents(was))
      ensures m in Contents(fs) ==> Contents(fs)[m] == WithoutPartials(Contents(was))[m]
    {
      assert fs.Entry(m) == if m in gone then None else was.Entry(m);
      assert m in fs.dir <==> fs.Entry(m).Some?;
      assert m in was.dir <==> was.Entry(m).Some?;
    }
  }

  /** The names in `gone` were removed, and nothing else happened. */
  ghost predicate Gone(was: Fs, fs: Fs, gone: set<Bytes>) {
    && fs.files == was.files
    && (forall m: Bytes :: fs.Entry(m) == if m in gone then None else was.Entry(m))
    && forall m: Bytes | m !in gone :: fs.Entries(m) == was.Entries(m)
  }

  lemma OneMoreGone(was: Fs, fs: Fs, gone: set<Bytes>, n: Bytes)
    requires fs.Valid() && Gone(was, fs, gone)
    ensures Gone(was, Removed(fs, n), gone + {n})
  {
    WithEntryIsValid(fs, n, None);
  }

  lemma GoneLeavesTheRest(was: Fs, fs: Fs, gone: set<Bytes>)
    requires Gone(was, fs, gone)
    ensures gone == Partials(was.dir.Keys) ==> Contents(fs) == WithoutPartials(Contents(was))
  {
    hide IsPartial;
    if gone == Partials(was.dir.Keys) {
      LeavesTheRest(was, fs, gone);
    }
  }

  lemma GoneKeeps(was: Fs, fs: Fs, gone: set<Bytes>)
    requires Gone(was, fs, gone) && forall n | n in gone :: IsPartial(n)
    ensures fs.files == was.files
    ensures forall n: Bytes | !IsPartial(n) :: fs.Entry(n) == was.Entry(n) && fs.Entries(n) == was.Entries(n)
  {
    hide IsPartial;
  }

  lemma NextName(names: seq<Bytes>, k: nat)
    requires k < |names| && forall i, j | 0 <= i < j < |names| :: names[i] != names[j]
    ensures names[k] !in names[..k] && forall m :: m in names[..k + 1] <==> m in names[..k] || m == names[k]
  {
    assert names[..k + 1] == names[..k] + [names[k]];
  }

  /** Nothing can have happened but to half-written names. */
  ghost predicate OnlyPartials(base: Fs, fs: Fs) {
    forall n: Bytes | !IsPartial(n) :: FatesKept(base, fs, n)
  }

  ghost predicate PartialsSince(was: seq<Fs>, trace: seq<Fs>, base: Fs) {
    was <= trace && forall i | |was| <= i < |trace| :: OnlyPartials(base, trace[i])
  }

  lemma GoneIsPartial(was: Fs, fs: Fs, gone: set<Bytes>)
    requires Gone(was, fs, gone) && forall n | n in gone :: IsPartial(n)
    ensures OnlyPartials(was, fs)
  {
    hide IsPartial;
    GoneKeeps(was, fs, gone);
  }

  /** The loop over a listing. */
  method RemoveListed(d: Directory, names: seq<Bytes>) returns (n: Option<nat>, ghost gone: set<Bytes>)
    requires d.Valid() && forall i, j | 0 <= i < j < |names| :: names[i] != names[j]
    modifies d
    ensures d.Valid() && Gone(old(d.fs), d.fs, gone)
    ensures PartialsSince(old(d.trace), d.trace, old(d.fs))
    ensures forall m: Bytes | m in gone :: IsPartial(m)
    ensures n.Some? ==> n.value == |gone| && forall m: Bytes :: m in gone <==> m in names && IsPartial(m)
    ensures d.faults == old(d.faults) + (if n.None? then 1 else 0)
  {
    var removed := 0;
    gone := {};
    assert Gone(d.fs, d.fs, gone);
    hide IsPartial, Gone, Fs.Valid, Removed, OnlyPartials;
    for k := 0 to |names|
      invariant d.Valid() && Gone(old(d.fs), d.fs, gone)
      invariant PartialsSince(old(d.trace), d.trace, old(d.fs)) && d.faults == old(d.faults)
      invariant forall m: Bytes :: m in gone <==> m in names[..k] && IsPartial(m)
      invariant removed == |gone|
    {
      NextName(names, k);
      var readable := d.Readable();
      if !readable {
        return None, gone;
      }
      if IsPartial(names[k]) {
        OneMoreGone(old(d.fs), d.fs, gone, names[k]);
        GoneIsPartial(old(d.fs), d.fs, gone);
        GoneIsPartial(old(d.fs), Removed(d.fs, names[k]), gone + {names[k]});
        var ok := d.Remove(names[k]);
        if !ok {
          return None, gone;
        }
        gone := gone + {names[k]};
        removed := removed + 1;
      }
    }
    assert names[..|names|] == names;
    return Some(removed), gone;
  }

  /** Removes exactly the files of envelopes that were being written; the count is how many there were.
      An entry that cannot be read or removed stops it with some of them left. */
  method RemovePartials(d: Directory) returns (r: Option<nat>)
    requires d.Valid()
    modifies d
    ensures d.Valid() && d.fs.files == old(d.fs).files
    ensures PartialsSince(old(d.trace), d.trace, old(d.fs))
    ensures forall n: Bytes | !IsPartial(n) ::
              d.fs.Entry(n) == old(d.fs).Entry(n) && d.fs.Entries(n) == old(d.fs).Entries(n)
    ensures r.Some? ==> Contents(d.fs) == WithoutPartials(Contents(old(d.fs)))
    ensures r.Some? ==> r.value == |Partials(old(d.fs).dir.Keys)|
    ensures d.faults == old(d.faults) + (if r.None? then 1 else 0)
  {
    var listed := d.Readable();
    if !listed {
      return None;
    }
    hide IsPartial, Gone, Fs.Valid, Fs.Entry, Fs.Entries, Contents, WithoutPartials, PartialsSince;
    var names := List(d.fs.dir.Keys);
    ghost var gone;
    r, gone := RemoveListed(d, names);
    GoneKeeps(old(d.fs), d.fs, gone);
    GoneLeavesTheRest(old(d.fs), d.fs, gone);
    assert r.Some? ==> gone == Partials(old(d.fs).dir.Keys);
  }

  /** Power cut anywhere while a new stem is published, then the next cycle's clean-up: what is left under
      the envelope's names is complete, whole if tagged, and no half-written file is left at all. */
  lemma CutThenCleanUp(base: Fs, fs: Fs, stem: Bytes, env: Envelope, after: map<Bytes, Bytes>)
    requires IsStem(stem) && Safe(base, fs, stem, env) && Unused(base, stem) && MayBecome(fs, after)
    ensures var left := WithoutPartials(after);
            && (forall n | n in left :: !IsPartial(n))
            && CompleteFiles(left, stem, env)
            && forall ext: Ext :: Part(stem, ext) !in left
  {
    SafeForANewStem(base, fs, stem, env, after);
    hide Final, Part, IsPartial, EnvelopeName, AllDigits, Safe;
    forall ext: Ext
      ensures !IsPartial(Final(stem, ext)) && IsPartial(Part(stem, ext))
    {
      EnvelopeNameExact(Final(stem, ext), stem, ext);
      PartialExact(Part(stem, ext));
      if IsPartial(Final(stem, ext)) {
        PartialIsNoEnvelope(Final(stem, ext));
      }
    }
  }
}
