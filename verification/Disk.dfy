/** A directory that may lose power at any step: what its files and names can be afterwards. */
module Disk {
  import opened Bytes

  /** A file's content, and whether it is known to survive a power cut. */
  datatype File = File(data: Bytes, synced: bool)

  /** `dir` is the directory as running processes see it. `durable` holds, for each name, every entry a
      power cut may leave: each entry the name had since the directory was last synced. */
  datatype Fs = Fs(files: seq<File>, dir: map<Bytes, nat>, durable: map<Bytes, set<Option<nat>>>) {

    function Entries(n: Bytes): set<Option<nat>> {
      if n in durable then durable[n] else {None}
    }

    function Entry(n: Bytes): Option<nat> {
      if n in dir then Some(dir[n]) else None
    }

    /** The directory as it is may be what survives, and entries name files. */
    ghost predicate Valid() {
      && (forall n: Bytes :: Entry(n) in Entries(n))
      && (forall n: Bytes, id: nat :: Some(id) in Entries(n) ==> id < |files|)
    }

    function WithEntry(n: Bytes, e: Option<nat>): Fs {
      var d := if e.Some? then dir[n := e.value] else dir - {n};
      this.(dir := d, durable := durable[n := Entries(n) + {e}])
    }
  }

  /** What a file can hold after a power cut: its content if it was synced, anything if not. */
  predicate MayHold(f: File, data: Bytes) {
    f.synced ==> data == f.data
  }

  /** What a name can be after a power cut: one of its possible entries, or absent if that is one. */
  ghost predicate Fate(fs: Fs, n: Bytes, got: Option<Bytes>) {
    if got.Some? then exists id: nat :: Some(id) in fs.Entries(n) && id < |fs.files| && MayHold(fs.files[id], got.value)
    else None in fs.Entries(n)
  }

  function Lookup(after: map<Bytes, Bytes>, n: Bytes): Option<Bytes> {
    if n in after then Some(after[n]) else None
  }

  /** What the directory can be after a power cut: each name meets its fate independently of the
      others, so renames become durable in any order until the directory is synced. */
  ghost predicate MayBecome(fs: Fs, after: map<Bytes, Bytes>) {
    forall n: Bytes :: Fate(fs, n, Lookup(after, n))
  }

  // ------------------------------------------------------------- system calls

  /** `File::create`: a new file, or the file of that name emptied. */
  function Created(fs: Fs, n: Bytes): Fs
    requires fs.Valid()
  {
    assert n in fs.dir ==> fs.Entry(n) in fs.Entries(n);
    if n in fs.dir then fs.(files := fs.files[fs.dir[n] := File([], false)])
    else fs.(files := fs.files + [File([], false)]).WithEntry(n, Some(|fs.files|))
  }

  function Appended(fs: Fs, n: Bytes, data: Bytes): Fs
    requires n in fs.dir && fs.dir[n] < |fs.files|
  {
    var id := fs.dir[n];
    fs.(files := fs.files[id := File(fs.files[id].data + data, false)])
  }

  function FileSynced(fs: Fs, n: Bytes): Fs
    requires n in fs.dir && fs.dir[n] < |fs.files|
  {
    var id := fs.dir[n];
    fs.(files := fs.files[id := fs.files[id].(synced := true)])
  }

  function Renamed(fs: Fs, from: Bytes, to: Bytes): Fs
    requires from in fs.dir
  {
    fs.WithEntry(from, None).WithEntry(to, Some(fs.dir[from]))
  }

  function Removed(fs: Fs, n: Bytes): Fs {
    fs.WithEntry(n, None)
  }

  function DirSynced(fs: Fs): Fs {
    fs.(durable := map n | n in fs.dir :: {Some(fs.dir[n])})
  }

  lemma EntryNamesAFile(fs: Fs, n: Bytes)
    requires fs.Valid() && n in fs.dir
    ensures fs.dir[n] < |fs.files|
  {
    assert fs.Entry(n) in fs.Entries(n);
  }

  lemma FilesKeepValid(fs: Fs, files: seq<File>)
    requires fs.Valid() && |files| >= |fs.files|
    ensures fs.(files := files).Valid()
  {
    var g := fs.(files := files);
    assert forall n: Bytes :: g.Entry(n) == fs.Entry(n) && g.Entries(n) == fs.Entries(n);
  }

  lemma WithEntryIsValid(fs: Fs, n: Bytes, e: Option<nat>)
    requires fs.Valid() && (e.Some? ==> e.value < |fs.files|)
    ensures fs.WithEntry(n, e).Valid()
    ensures fs.WithEntry(n, e).Entry(n) == e && fs.WithEntry(n, e).Entries(n) == fs.Entries(n) + {e}
    ensures forall m: Bytes | m != n ::
              fs.WithEntry(n, e).Entry(m) == fs.Entry(m) && fs.WithEntry(n, e).Entries(m) == fs.Entries(m)
  {
    var g := fs.WithEntry(n, e);
    forall m: Bytes
      ensures m != n ==> g.Entry(m) == fs.Entry(m) && g.Entries(m) == fs.Entries(m)
      ensures g.Entry(m) in g.Entries(m)
    {
      assert fs.Entry(m) in fs.Entries(m);
    }
    forall m: Bytes, id: nat | Some(id) in g.Entries(m)
      ensures id < |g.files|
    {
      assert Some(id) in fs.Entries(m) || e == Some(id);
    }
  }

  lemma CreatedIsValid(fs: Fs, n: Bytes)
    requires fs.Valid()
    ensures Created(fs, n).Valid()
  {
    if n in fs.dir {
      EntryNamesAFile(fs, n);
      FilesKeepValid(fs, fs.files[fs.dir[n] := File([], false)]);
    } else {
      FilesKeepValid(fs, fs.files + [File([], false)]);
      WithEntryIsValid(fs.(files := fs.files + [File([], false)]), n, Some(|fs.files|));
    }
  }

  lemma RenamedIsValid(fs: Fs, from: Bytes, to: Bytes)
    requires fs.Valid() && from in fs.dir && from != to
    ensures Renamed(fs, from, to).Valid()
  {
    EntryNamesAFile(fs, from);
    WithEntryIsValid(fs, from, None);
    WithEntryIsValid(fs.WithEntry(from, None), to, Some(fs.dir[from]));
  }

  lemma RemovedIsValid(fs: Fs, n: Bytes)
    requires fs.Valid()
    ensures Removed(fs, n).Valid()
  {
    WithEntryIsValid(fs, n, None);
  }

  lemma DirSyncedIsValid(fs: Fs)
    requires fs.Valid()
    ensures DirSynced(fs).Valid()
  {
    var g := DirSynced(fs);
    forall n: Bytes
      ensures g.Entry(n) in g.Entries(n)
    {
      assert fs.Entry(n) in fs.Entries(n);
    }
    forall n: Bytes, id: nat | Some(id) in g.Entries(n)
      ensures id < |g.files|
    {
      assert fs.Entry(n) in fs.Entries(n);
    }
  }

  /** The directory as running processes see it. */
  function Contents(fs: Fs): map<Bytes, Bytes> {
    map n | n in fs.dir && fs.dir[n] < |fs.files| :: fs.files[fs.dir[n]].data
  }

  /** A cut may also leave everything as it was seen. */
  lemma ContentsMaySurvive(fs: Fs)
    requires fs.Valid()
    ensures MayBecome(fs, Contents(fs))
  {
    forall n: Bytes
      ensures Fate(fs, n, Lookup(Contents(fs), n))
    {
      assert fs.Entry(n) in fs.Entries(n);
    }
  }

  /** Nothing is in doubt: every name has one entry, and every file is safe. */
  ghost predicate Settled(fs: Fs) {
    && fs.Valid() && (forall n: Bytes :: fs.Entries(n) == {fs.Entry(n)})
    && forall j | 0 <= j < |fs.files| :: fs.files[j].synced
  }

  /** Nothing can happen to this name that could not have happened to it before. */
  ghost predicate FatesKept(base: Fs, fs: Fs, n: Bytes) {
    forall got: Option<Bytes> | Fate(fs, n, got) :: Fate(base, n, got)
  }

  /** All that can have happened since: names in `names` may be gone. */
  ghost predicate OnlyLost(base: Fs, fs: Fs, names: set<Bytes>) {
    forall n: Bytes, got: Option<Bytes> | Fate(fs, n, got) :: Fate(base, n, got) || (n in names && got.None?)
  }

  lemma RemovedIsLost(base: Fs, fs: Fs, n: Bytes, names: set<Bytes>)
    requires fs.Valid() && OnlyLost(base, fs, names) && n in names
    ensures OnlyLost(base, Removed(fs, n), names)
  {
    WithEntryIsValid(fs, n, None);
    var g := Removed(fs, n);
    forall m: Bytes, got: Option<Bytes> | Fate(g, m, got)
      ensures Fate(fs, m, got) || (m == n && got.None?)
    {
      assert g.Entries(m) == if m == n then fs.Entries(n) + {None} else fs.Entries(m);
    }
  }

  lemma OnlyLostTrans(a: Fs, b: Fs, c: Fs, some: set<Bytes>, names: set<Bytes>)
    requires OnlyLost(a, b, names) && OnlyLost(b, c, some) && some <= names
    ensures OnlyLost(a, c, names)
  {
    hide Fate;
  }

  /** After a cut every name has the one fate it met. */
  lemma CutKeepsFates(was: Fs, fs: Fs, n: Bytes)
    requires MayBecome(was, Contents(fs)) && Settled(fs)
    ensures FatesKept(was, fs, n)
  {
    forall got: Option<Bytes> | Fate(fs, n, got)
      ensures got == Lookup(Contents(fs), n)
    {
      assert fs.Entries(n) == {fs.Entry(n)};
    }
    assert Fate(was, n, Lookup(Contents(fs), n));
  }

  /** `read_dir`: the names in some order. */
  method List(names: set<Bytes>) returns (listing: seq<Bytes>)
    ensures forall n :: n in listing <==> n in names
    ensures forall i, j | 0 <= i < j < |listing| :: listing[i] != listing[j]
    ensures |listing| == |names|
  {
    listing := [];
    var left := names;
    while left != {}
      invariant left <= names && |listing| + |left| == |names|
      invariant forall n :: n in listing <==> n in names && n !in left
      invariant forall i, j | 0 <= i < j < |listing| :: listing[i] != listing[j]
      decreases |left|
    {
      var n :| n in left;
      listing := listing + [n];
      left := left - {n};
    }
  }

  /** One fate for every name. */
  method Survivors(fs: Fs) returns (after: map<Bytes, Bytes>)
    requires fs.Valid()
    ensures MayBecome(fs, after)
  {
    hide Fate;
    after := map[];
    var names := List(fs.dir.Keys + fs.durable.Keys);
    for k := 0 to |names|
      invariant forall n | n in names[..k] :: Fate(fs, n, Lookup(after, n))
      invariant forall n | n in after :: n in names[..k]
    {
      assert names[..k + 1] == names[..k] + [names[k]];
      var got := SomeFate(fs, names[k]);
      if got.Some? {
        after := after[names[k] := got.value];
      }
    }
    assert names[..|names|] == names;
    forall n: Bytes
      ensures Fate(fs, n, Lookup(after, n))
    {
      if n !in names {
        UnknownIsAbsent(fs, n);
      }
    }
  }

  lemma UnknownIsAbsent(fs: Fs, n: Bytes)
    requires n !in fs.durable
    ensures Fate(fs, n, None)
  {
  }

  method SomeFate(fs: Fs, n: Bytes) returns (got: Option<Bytes>)
    requires fs.Valid()
    ensures Fate(fs, n, got)
  {
    assert fs.Entry(n) in fs.Entries(n);
    var e :| e in fs.Entries(n);
    if e.None? {
      return None;
    }
    var lost: Bytes := *;
    got := Some(if fs.files[e.value].synced then fs.files[e.value].data else lost);
    assert MayHold(fs.files[e.value], got.value);
  }

  /** A directory with these contents, all of it safe. */
  method Laid(contents: map<Bytes, Bytes>) returns (fs: Fs)
    ensures Settled(fs) && Contents(fs) == contents
  {
    var names := List(contents.Keys);
    var files: seq<File>, dir: map<Bytes, nat> := [], map[];
    for k := 0 to |names|
      invariant |files| == k && LaidOut(contents, files, dir) && forall n :: n in dir <==> n in names[..k]
    {
      assert names[..k + 1] == names[..k] + [names[k]];
      dir := dir[names[k] := |files|];
      files := files + [File(contents[names[k]], true)];
    }
    assert names[..|names|] == names;
    assert dir.Keys == contents.Keys;
    fs := Fs(files, dir, map n | n in dir :: {Some(dir[n])});
    LaidIsSettled(contents, fs);
  }

  ghost predicate LaidOut(contents: map<Bytes, Bytes>, files: seq<File>, dir: map<Bytes, nat>) {
    && (forall j | 0 <= j < |files| :: files[j].synced)
    && forall n | n in dir :: n in contents && dir[n] < |files| && files[dir[n]].data == contents[n]
  }

  lemma LaidIsSettled(contents: map<Bytes, Bytes>, fs: Fs)
    requires LaidOut(contents, fs.files, fs.dir) && fs.dir.Keys == contents.Keys
    requires fs.durable == map n | n in fs.dir :: {Some(fs.dir[n])}
    ensures Settled(fs) && Contents(fs) == contents
  {
    assert forall n: Bytes :: fs.Entries(n) == {fs.Entry(n)};
  }

  /** The directory in use. `trace` is every state it has been in: a power cut can hit any of them. A
      call that reports failure may have done nothing, or part of its work; `faults` counts them. */
  class Directory {
    var fs: Fs
    ghost var trace: seq<Fs>
    ghost var faults: nat

    ghost predicate Valid()
      reads this
    {
      fs.Valid() && trace != [] && trace[|trace| - 1] == fs
    }

    constructor (initial: Fs)
      requires initial.Valid()
      ensures Valid() && fs == initial && trace == [initial] && faults == 0
    {
      fs := initial;
      faults := 0;
      trace := [initial];
    }

    ghost method Log(ok: bool)
      modifies this`trace, this`faults
      ensures trace == old(trace) + [fs] && faults == old(faults) + (if ok then 0 else 1)
    {
      trace := trace + [fs];
      faults := faults + if ok then 0 else 1;
    }

    /** One entry of the directory, or the directory itself, is read. */
    method Readable() returns (ok: bool)
      requires Valid()
      modifies this`faults
      ensures Valid() && faults == old(faults) + (if ok then 0 else 1)
    {
      ok := *;
      faults := faults + if ok then 0 else 1;
    }

    /** All entries are read, the unreadable ones passed over. */
    method ReadableNames() returns (seen: set<Bytes>)
      requires Valid()
      modifies this`faults
      ensures Valid() && seen <= fs.dir.Keys && faults == old(faults) + |fs.dir.Keys - seen|
    {
      seen :| seen <= fs.dir.Keys;
      faults := faults + |fs.dir.Keys - seen|;
    }

    method Create(n: Bytes) returns (ok: bool)
      requires Valid()
      modifies this
      ensures Valid() && trace == old(trace) + [fs] && faults == old(faults) + (if ok then 0 else 1)
      ensures fs == if ok then Created(old(fs), n) else old(fs)
    {
      CreatedIsValid(fs, n);
      ok := *;
      if ok {
        fs := Created(fs, n);
      }
      Log(ok);
    }

    /** `write_all`: on failure some leading part is written. */
    method Append(n: Bytes, data: Bytes) returns (ok: bool)
      requires Valid() && n in fs.dir
      modifies this
      ensures Valid() && trace == old(trace) + [fs] && faults == old(faults) + (if ok then 0 else 1)
      ensures old(fs).dir[n] < |old(fs).files|
      ensures ok ==> fs == Appended(old(fs), n, data)
      ensures exists k :: 0 <= k <= |data| && fs == Appended(old(fs), n, data[..k])
    {
      EntryNamesAFile(fs, n);
      var k :| 0 <= k <= |data|;
      ok := k == |data|;
      assert data[..|data|] == data;
      fs := Appended(fs, n, data[..k]);
      FilesKeepValid(old(fs), fs.files);
      Log(ok);
    }

    method SyncFile(n: Bytes) returns (ok: bool)
      requires Valid() && n in fs.dir
      modifies this
      ensures Valid() && trace == old(trace) + [fs] && faults == old(faults) + (if ok then 0 else 1)
      ensures old(fs).dir[n] < |old(fs).files|
      ensures fs == if ok then FileSynced(old(fs), n) else old(fs)
    {
      EntryNamesAFile(fs, n);
      ok := *;
      if ok {
        fs := FileSynced(fs, n);
        FilesKeepValid(old(fs), fs.files);
      }
      Log(ok);
    }

    method Rename(from: Bytes, to: Bytes) returns (ok: bool)
      requires Valid() && from in fs.dir && from != to
      modifies this
      ensures Valid() && trace == old(trace) + [fs] && faults == old(faults) + (if ok then 0 else 1)
      ensures fs == if ok then Renamed(old(fs), from, to) else old(fs)
    {
      RenamedIsValid(fs, from, to);
      ok := *;
      if ok {
        fs := Renamed(fs, from, to);
      }
      Log(ok);
    }

    method Remove(n: Bytes) returns (ok: bool)
      requires Valid()
      modifies this
      ensures Valid() && trace == old(trace) + [fs] && faults == old(faults) + (if ok then 0 else 1)
      ensures fs == if ok then Removed(old(fs), n) else old(fs)
    {
      RemovedIsValid(fs, n);
      ok := *;
      if ok {
        fs := Removed(fs, n);
      }
      Log(ok);
    }

    method SyncDir() returns (ok: bool)
      requires Valid()
      modifies this
      ensures Valid() && trace == old(trace) + [fs] && faults == old(faults) + (if ok then 0 else 1)
      ensures fs == if ok then DirSynced(old(fs)) else old(fs)
    {
      DirSyncedIsValid(fs);
      ok := *;
      if ok {
        fs := DirSynced(fs);
      }
      Log(ok);
    }

    /** Power is lost and comes back: each name meets one of its fates, and that is the directory now. */
    method PowerCut()
      requires Valid()
      modifies this
      ensures Valid() && trace == old(trace) + [fs] && faults == old(faults)
      ensures MayBecome(old(fs), Contents(fs)) && Settled(fs)
    {
      var after := Survivors(fs);
      fs := Laid(after);
      Log(true);
    }
  }
}
