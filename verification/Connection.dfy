/** The client half as it is written: one object holding the writer, the reader and the two
    caches, and the requests that drive them. Each method is what its caller does while holding
    the request lock (and, for stat and list, the look-up just before taking it). */
module Connection {
  import opened Wire
  import opened Streams
  import opened Messages
  import opened Codec
  import opened TimedCache
  import opened Paths
  import Coherence
  import Posix

  /** A clock that never runs backwards. */
  class Clock {
    var time: int

    constructor () { time := 0; }

    method Now() returns (now: int)
      modifies this
      ensures now == time && time >= old(time)
    {
      var later: int := *;
      if later > time {
        time := later;
      }
      now := time;
    }
  }

  type Stats = Entries<FileStat>
  type Dirs = Entries<seq<bytes>>

  /** A store between two clock readings: the new value is there, everything else is as before, and
      only what is outdated at the end may have been cleaned up. */
  ghost predicate Filled<T(!new)>(before: Entries<T>, after: Entries<T>, key: bytes, value: T, validFor: int, from: int, to: int) {
    && (forall k :: k in after ==>
          if k == key then after[k].data == value && from <= after[k].fetchedAt <= to
          else k in before && after[k] == before[k])
    && (key !in after ==> to - from > validFor)
    && (forall k :: k in before && k != key && k !in after ==> !Young(before[k], validFor, to))
  }

  lemma StoredFills<T(!new)>(c: Contents<T>, interval: int, validFor: int, key: bytes, datum: T, now: int, scanNow: int, from: int)
    requires from <= now <= scanNow
    ensures Filled(c.entries, Stored(c, interval, validFor, key, datum, now, scanNow).entries, key, datum, validFor, from, scanNow)
  {
  }

  /** The keys an operation clears from each cache, taken from the list of its invalidations. */
  ghost function StatKeys(ts: seq<Coherence.Target>): set<bytes> {
    set t | t in ts && t.StatKey? :: t.key
  }

  ghost function DirKeys(ts: seq<Coherence.Target>): set<bytes> {
    set t | t in ts && t.DirKey? :: t.key
  }

  /** A key is cleared from a cache exactly if it is among the invalidations. */
  lemma KeysAreTargets(ts: seq<Coherence.Target>, k: bytes)
    ensures k in StatKeys(ts) <==> Coherence.StatKey(k) in ts
    ensures k in DirKeys(ts) <==> Coherence.DirKey(k) in ts
  {
  }

  lemma KeysOfEntry(path: bytes)
    ensures StatKeys(Coherence.EntryTargets(path)) == {ToUnix(path)}
    ensures DirKeys(Coherence.EntryTargets(path)) == DirKeys(Coherence.ParentTarget(ToUnix(path)))
  {
    var ts, rest := Coherence.EntryTargets(path), Coherence.ParentTarget(ToUnix(path));
    assert forall t :: t in ts <==> t == Coherence.StatKey(ToUnix(path)) || t in rest;
    assert Coherence.StatKey(ToUnix(path)) in ts;
  }

  lemma OnlyDirs(path: bytes, creating: bool)
    ensures StatKeys(Coherence.Behind(Coherence.Open(path, creating))) == {}
    ensures DirKeys(Coherence.Behind(Coherence.Open(path, creating))) ==
            if creating then DirKeys(Coherence.ParentTarget(ToUnix(path))) else {}
  {
    var ts := Coherence.Behind(Coherence.Open(path, creating));
    assert forall t :: t in ts ==> t.DirKey?;
  }

  lemma KeysOfTime(path: bytes)
    ensures StatKeys(Coherence.Before(Coherence.SetTime(path))) == {ToUnix(path)}
    ensures DirKeys(Coherence.Before(Coherence.SetTime(path))) == {}
  {
    assert Coherence.StatKey(ToUnix(path)) in Coherence.Before(Coherence.SetTime(path));
  }

  lemma KeysJoin(a: seq<Coherence.Target>, b: seq<Coherence.Target>)
    ensures StatKeys(a + b) == StatKeys(a) + StatKeys(b) && DirKeys(a + b) == DirKeys(a) + DirKeys(b)
  {
    assert forall t :: t in a + b <==> t in a || t in b;
  }

  /** What a listing served from the caches between two clock readings delivers: for each cached
      name, in order, its cached stat, or nothing if that is missing or has become too old. */
  ghost predicate ServedFrom(dir: bytes, names: seq<bytes>, stats: Stats, validFor: int, from: int, to: int,
                             delivered: seq<(bytes, FileStat)>) {
    if names == [] then delivered == []
    else
      var last, front := names[|names| - 1], names[..|names| - 1];
      var key := GetFullPath(dir, last);
      || (Lookup(stats, validFor, key, to) == None && ServedFrom(dir, front, stats, validFor, from, to, delivered))
      || (delivered != [] && Lookup(stats, validFor, key, from) == Some(delivered[|delivered| - 1].1)
          && delivered[|delivered| - 1].0 == last
          && ServedFrom(dir, front, stats, validFor, from, to, delivered[..|delivered| - 1]))
  }

  lemma {:induction false} ServedUntilLater(dir: bytes, names: seq<bytes>, stats: Stats, validFor: int, from: int, to: int,
                                            later: int, delivered: seq<(bytes, FileStat)>)
    requires ServedFrom(dir, names, stats, validFor, from, to, delivered) && to <= later
    ensures ServedFrom(dir, names, stats, validFor, from, later, delivered)
  {
    if names != [] {
      var last, front := names[|names| - 1], names[..|names| - 1];
      var key := GetFullPath(dir, last);
      if Lookup(stats, validFor, key, to) == None && ServedFrom(dir, front, stats, validFor, from, to, delivered) {
        ServedUntilLater(dir, front, stats, validFor, from, to, later, delivered);
      } else {
        ServedUntilLater(dir, front, stats, validFor, from, to, later, delivered[..|delivered| - 1]);
      }
    }
  }

  /** The stat a listing brought for a key, the last one if there are several. */
  function StatIn(dir: bytes, es: seq<Entry>, key: bytes): Option<FileStat> {
    if es == [] then None
    else
      var e := es[|es| - 1];
      if e.Listed? && GetFullPath(dir, e.name) == key then Some(e.stat) else StatIn(dir, es[..|es| - 1], key)
  }

  /** The stat cache after a listing read between two clock readings: the listed stats under their
      full paths, everything else as before, and only outdated entries cleaned up. */
  ghost predicate FilledFrom(dir: bytes, before: Stats, after: Stats, es: seq<Entry>, validFor: int, from: int, to: int) {
    && from <= to
    && (forall k :: k in after ==>
          match StatIn(dir, es, k)
          case Some(stat) => after[k].data == stat && from <= after[k].fetchedAt <= to
          case None => k in before && after[k] == before[k])
    && (forall k :: k !in after ==>
          match StatIn(dir, es, k)
          case Some(_) => to - from > validFor
          case None => k in before ==> !Young(before[k], validFor, to))
  }

  lemma FilledFromMore(dir: bytes, before: Stats, mid: Stats, after: Stats, es: seq<Entry>, e: Entry,
                       validFor: int, from: int, t: int, to: int)
    requires FilledFrom(dir, before, mid, es, validFor, from, t) && t <= to && e.Listed?
    requires Filled(mid, after, GetFullPath(dir, e.name), e.stat, validFor, t, to)
    ensures FilledFrom(dir, before, after, es + [e], validFor, from, to)
  {
    var more, key := es + [e], GetFullPath(dir, e.name);
    assert more[..|more| - 1] == es && more[|more| - 1] == e;
    assert forall k :: StatIn(dir, more, k) == if k == key then Some(e.stat) else StatIn(dir, es, k);
  }

  lemma FilledFromWiden(dir: bytes, before: Stats, after: Stats, es: seq<Entry>, validFor: int, from: int, to: int, from': int, to': int)
    requires FilledFrom(dir, before, after, es, validFor, from, to) && from' <= from && to <= to'
    ensures FilledFrom(dir, before, after, es, validFor, from', to')
  {
  }

  lemma FilledWiden<T(!new)>(before: Entries<T>, after: Entries<T>, key: bytes, value: T, validFor: int, from: int, to: int, from': int)
    requires Filled(before, after, key, value, validFor, from, to) && from' <= from
    ensures Filled(before, after, key, value, validFor, from', to)
  {
  }

  /** What a fetched listing hands to its caller. */
  function Pairs(es: seq<Entry>): (r: seq<(bytes, FileStat)>)
    requires forall e :: e in es ==> e.Listed?
    ensures |r| == |es| && forall i :: 0 <= i < |es| ==> r[i].0 == es[i].name && r[i].1 == es[i].stat
  {
    seq(|es|, i requires 0 <= i < |es| => (es[i].name, es[i].stat))
  }

  function NamesOf(es: seq<Entry>): (r: seq<bytes>)
    requires forall e :: e in es ==> e.Listed?
    ensures |r| == |es| && forall i :: 0 <= i < |es| ==> r[i] == es[i].name
  {
    seq(|es|, i requires 0 <= i < |es| => es[i].name)
  }

  // ----- what the caches serve afterwards -----

  /** A stored stat is what a look-up finds, as long as it is young enough. */
  lemma StoredIsFound<T(!new)>(before: Entries<T>, after: Entries<T>, key: bytes, value: T, validFor: int, from: int, to: int, now: int)
    requires Filled(before, after, key, value, validFor, from, to) && from <= to <= now && now - from <= validFor
    ensures Lookup(after, validFor, key, now) == Some(value)
  {
  }

  /** A listing served from the caches in which every stat is still young enough delivers every cached
      name, in order, with its cached stat. */
  lemma {:induction false} AllServed(dir: bytes, names: seq<bytes>, stats: Stats, validFor: int, from: int, to: int,
                                     delivered: seq<(bytes, FileStat)>)
    requires ServedFrom(dir, names, stats, validFor, from, to, delivered)
    requires forall n :: n in names ==> Lookup(stats, validFor, GetFullPath(dir, n), to).Some?
    ensures |delivered| == |names|
    ensures forall i :: 0 <= i < |names| ==>
              delivered[i].0 == names[i] && Some(delivered[i].1) == Lookup(stats, validFor, GetFullPath(dir, names[i]), from)
  {
    hide GetFullPath;
    if names != [] {
      var last, front := names[|names| - 1], names[..|names| - 1];
      assert last in names && forall n :: n in front ==> n in names;
      AllServed(dir, front, stats, validFor, from, to, delivered[..|delivered| - 1]);
    }
  }

  /** So a listing fetched from the daemon and served again from the caches within the validity period
      is the same listing: the same names with the same stats in the same order. */
  lemma ListedAgain(dir: bytes, es: seq<Entry>, before: Stats, after: Stats, validFor: int, from: int, to: int,
                    begun: int, ended: int, delivered: seq<(bytes, FileStat)>)
    requires (forall e :: e in es ==> e.Listed?) && (forall i, j :: 0 <= i < j < |es| ==> es[i].name != es[j].name)
    requires FilledFrom(dir, before, after, es, validFor, from, to) && to <= begun <= ended && ended - from <= validFor
    requires ServedFrom(dir, NamesOf(es), after, validFor, begun, ended, delivered)
    ensures delivered == Pairs(es)
  {
    var names := NamesOf(es);
    forall i | 0 <= i < |es|
      ensures Lookup(after, validFor, GetFullPath(dir, names[i]), begun) == Some(es[i].stat)
      ensures Lookup(after, validFor, GetFullPath(dir, names[i]), ended) == Some(es[i].stat)
    {
      StatInListing(dir, es, i);
    }
    forall n | n in names ensures Lookup(after, validFor, GetFullPath(dir, n), ended).Some? {
      var i :| 0 <= i < |names| && names[i] == n;
    }
    AllServed(dir, names, after, validFor, begun, ended, delivered);
  }

  lemma {:induction false} StatInListing(dir: bytes, es: seq<Entry>, i: nat)
    requires (forall e :: e in es ==> e.Listed?) && (forall i, j :: 0 <= i < j < |es| ==> es[i].name != es[j].name)
    requires i < |es|
    ensures StatIn(dir, es, GetFullPath(dir, es[i].name)) == Some(es[i].stat)
  {
    var front, last := es[..|es| - 1], es[|es| - 1];
    assert es[i] in es && last in es;
    if i < |es| - 1 {
      JoinInjective(dir, es[i].name, last.name);
      assert forall e :: e in front ==> e in es;
      assert front[i] == es[i];
      StatInListing(dir, front, i);
    }
  }

  lemma JoinInjective(dir: bytes, a: bytes, b: bytes)
    ensures GetFullPath(dir, a) == GetFullPath(dir, b) ==> a == b
  {
    var n := |GetFullPath(dir, [])|;
    assert GetFullPath(dir, a)[n..] == a && GetFullPath(dir, b)[n..] == b;
  }

  // ----- what the device does and what is cleared for it -----

  /** The request an operation sends. */
  predicate Sends(op: Coherence.Op, head: Head) {
    match op
    case Remove(p) => (head.RemoveFile? || head.RemoveDirectory?) && head.path == ToUnix(p)
    case MakeDirectory(p) => head.CreateDirectory? && head.path == ToUnix(p)
    case Move(f, t) => head.MoveEntry? && head.fromPath == ToUnix(f) && head.toPath == ToUnix(t)
    case SetTime(p) => head.SetFileTime? && head.path == ToUnix(p)
    case Open(p, creating) => head.OpenHandle? && head.path == ToUnix(p) && creating == Creating(head.mode)
    case _ => !head.RemoveFile? && !head.RemoveDirectory? && !head.CreateDirectory? && !head.MoveEntry? && !head.OpenHandle?
  }

  /** The modes that clear the directory are exactly those that can create. */
  lemma CreatingModes(mode: OpenMode, readAccess: bool, writeAccess: bool)
    ensures Creating(mode) <==> Posix.FlagsFor(mode, readAccess, writeAccess).creat
  {
  }

  /** Whenever the device serves a request of this client and something comes into being or disappears,
      the operation clears the listing of its parent; when it moves a directory, this is said of the
      directory itself and not of what lies in it. */
  lemma ChangeOnDeviceIsCleared(op: Coherence.Op, r: Request, fs: Posix.Fs, reply: Reply, fs': Posix.Fs, q: bytes, d: bytes)
    requires Sends(op, r.head) && fs.Valid() && Posix.Serves(fs, r, reply, fs')
    requires (Posix.Exists(fs, q) <==> !Posix.Exists(fs', q)) && GetParentPath(q) == Some(d)
    ensures Coherence.Touches(op, Coherence.DirKey(d)) ||
            (op.Move? && (Posix.Inside(ToUnix(op.fromPath), q) || Posix.Inside(ToUnix(op.toPath), q)))
  {
    hide ToUnix, GetParentPath, Posix.Inside;
    match op
    case Remove(p) => RemovedHere(r, fs, reply, fs', q); Coherence.EntryTargetsOf(p, d);
    case MakeDirectory(p) => RemovedHere(r, fs, reply, fs', q); Coherence.EntryTargetsOf(p, d);
    case Open(p, creating) => OpenedHere(r, fs, reply, fs', q);
    case Move(f, t) =>
      MovedHere(r, fs, reply, fs', q);
      Coherence.EntryTargetsOf(f, d);
      Coherence.EntryTargetsOf(t, d);
    case _ => OthersKeep(r, fs, reply, fs', q);
  }

  lemma RemovedHere(r: Request, fs: Posix.Fs, reply: Reply, fs': Posix.Fs, q: bytes)
    requires r.head.RemoveFile? || r.head.RemoveDirectory? || r.head.CreateDirectory?
    requires Posix.Serves(fs, r, reply, fs') && (Posix.Exists(fs, q) <==> !Posix.Exists(fs', q))
    ensures q == r.head.path
  {
  }

  lemma OpenedHere(r: Request, fs: Posix.Fs, reply: Reply, fs': Posix.Fs, q: bytes)
    requires r.head.OpenHandle? && fs.Valid()
    requires Posix.Serves(fs, r, reply, fs') && (Posix.Exists(fs, q) <==> !Posix.Exists(fs', q))
    ensures q == r.head.path && Creating(r.head.mode)
  {
  }

  lemma MovedHere(r: Request, fs: Posix.Fs, reply: Reply, fs': Posix.Fs, q: bytes)
    requires r.head.MoveEntry? && fs.Valid()
    requires Posix.Serves(fs, r, reply, fs') && (Posix.Exists(fs, q) <==> !Posix.Exists(fs', q))
    ensures q == r.head.fromPath || q == r.head.toPath || Posix.Inside(r.head.fromPath, q) || Posix.Inside(r.head.toPath, q)
  {
    var f, t := r.head.fromPath, r.head.toPath;
    MoveServed(r, fs, reply, fs');
    hide Posix.Inside, Posix.Fs.Valid, Posix.Renamed, Posix.Serves, Posix.Empty;
    if f == t {
      RenamedToItself(fs, f);
    } else if fs' == fs {
    } else if f in fs.names {
      Posix.RenameMovesFile(fs, f, t, q);
    } else {
      Posix.RenameMovesDirectory(fs, f, t, q);
    }
  }

  lemma MoveServed(r: Request, fs: Posix.Fs, reply: Reply, fs': Posix.Fs)
    requires r.head.MoveEntry? && Posix.Serves(fs, r, reply, fs')
    ensures fs' == fs || (Posix.CanRename(fs, r.head.fromPath, r.head.toPath) && fs' == Posix.Renamed(fs, r.head.fromPath, r.head.toPath))
  {
    hide Posix.Inside, Posix.Fs.Valid, Posix.Renamed, Posix.CanRename;
  }

  lemma RenamedToItself(fs: Posix.Fs, f: bytes)
    ensures Posix.Renamed(fs, f, f) == fs
  {
  }

  lemma OthersKeep(r: Request, fs: Posix.Fs, reply: Reply, fs': Posix.Fs, q: bytes)
    requires !r.head.RemoveFile? && !r.head.RemoveDirectory? && !r.head.CreateDirectory? && !r.head.MoveEntry? && !r.head.OpenHandle?
    requires fs.Valid() && Posix.Serves(fs, r, reply, fs')
    ensures Posix.Exists(fs, q) <==> Posix.Exists(fs', q)
  {
    var h := r.head;
    if h.WriteHandle? && Posix.SeekOk(fs, h.handle, h.offset) {
      var k: nat :| k <= |r.payload| && Posix.Wrote(fs, h.handle, h.offset, r.payload[..k], fs');
      Posix.WroteParts(fs, h.handle, h.offset, r.payload[..k], fs');
    }
  }

  class Connection {
    const writer: DataWriter
    const reader: DataReader
    const statCache: TimedCache<FileStat>
    const dirListCache: TimedCache<seq<bytes>>
    const clock: Clock
    ghost var statsAtSend: Stats   // both caches at the moment the last request went out
    ghost var dirsAtSend: Dirs

    constructor (writer: DataWriter, reader: DataReader, statCache: TimedCache<FileStat>, dirListCache: TimedCache<seq<bytes>>)
      requires writer.Valid() && reader.Valid() && writer.buffer != reader.buffer && statCache as object != dirListCache
      ensures Valid() && this.writer == writer && this.reader == reader
      ensures this.statCache == statCache && this.dirListCache == dirListCache
    {
      this.writer, this.reader, this.statCache, this.dirListCache := writer, reader, statCache, dirListCache;
      clock := new Clock();
    }

    ghost predicate Valid()
      reads writer, reader
    {
      writer.Valid() && reader.Valid() && writer.buffer != reader.buffer && statCache as object != dirListCache
    }

    /** A request was sent whole and its reply read to its last byte and no further. */
    twostate predicate Exchanged(r: Request, new o: Outcome<Reply>)
      reads writer, writer.stream, writer.buffer, reader, reader.stream, reader.buffer
      requires old(Valid())
    {
      && Valid() && writer.bufferBytesFilled == 0
      && writer.stream.sent == old(writer.Written()) + EncRequest(r)
      && Followed(reader, o, ParseReply(r.head, old(reader.Unread())))
    }

    /** The caches are as they were when the request went out. */
    ghost predicate SentLast()
      reads this, statCache, dirListCache
    {
      statsAtSend == statCache.cachedData && dirsAtSend == dirListCache.cachedData
    }

    /** The request went out with the caches as they were before. */
    twostate predicate SentFirst()
      reads this, statCache, dirListCache
    {
      statsAtSend == old(statCache.cachedData) && dirsAtSend == old(dirListCache.cachedData)
    }

    method Send(r: Request)
      requires Valid() && r.Valid()
      modifies this, writer, writer.stream, writer.buffer
      ensures Valid() && SentLast() && writer.bufferBytesFilled == 0
      ensures writer.stream.sent == old(writer.Written()) + EncRequest(r)
    {
      statsAtSend, dirsAtSend := statCache.cachedData, dirListCache.cachedData;
      SendRequest(writer, r);
    }

    method Ask(r: Request) returns (o: Outcome<Reply>)
      requires Valid() && r.Valid() && !r.head.ListDirectory?
      modifies this, writer, writer.stream, writer.buffer, reader, reader.stream, reader.buffer
      ensures Exchanged(r, o) && SentLast()
    {
      Send(r);
      o := ReceiveReply(reader, r.head);
    }

    method InvalidateParentDir(path: bytes)
      modifies dirListCache
      ensures dirListCache.cachedData == old(dirListCache.cachedData) - DirKeys(Coherence.ParentTarget(path))
    {
      var parent := GetParentPath(path);
      if parent.Some? {
        dirListCache.Invalidate(parent.value);
        assert DirKeys(Coherence.ParentTarget(path)) == {parent.value} by {
          assert Coherence.DirKey(parent.value) in Coherence.ParentTarget(path);
        }
      } else {
        assert DirKeys(Coherence.ParentTarget(path)) == {};
      }
    }

    /** Both caches after the invalidations an operation makes before its request goes out. */
    twostate predicate Cleared(ts: seq<Coherence.Target>)
      reads statCache, dirListCache
    {
      && statCache.cachedData == old(statCache.cachedData) - StatKeys(ts)
      && dirListCache.cachedData == old(dirListCache.cachedData) - DirKeys(ts)
    }

    method InvalidateEntry(path: bytes)
      requires statCache as object != dirListCache
      modifies statCache, dirListCache
      ensures Cleared(Coherence.EntryTargets(path))
    {
      KeysOfEntry(path);
      statCache.Invalidate(ToUnix(path));
      InvalidateParentDir(ToUnix(path));
    }

    /** Nothing was sent, read or changed. */
    twostate predicate Untouched()
      reads writer, writer.stream, writer.buffer, reader, reader.stream, reader.buffer, statCache, dirListCache
      requires old(Valid())
    {
      && Valid() && writer.Written() == old(writer.Written()) && writer.stream.sent == old(writer.stream.sent)
      && reader.Unread() == old(reader.Unread())
      && statCache.cachedData == old(statCache.cachedData) && dirListCache.cachedData == old(dirListCache.cachedData)
    }

    method LookUpStat(key: bytes) returns (r: Option<FileStat>)
      modifies statCache`totalCacheHits, statCache`totalDataFetched, clock
      ensures r == Lookup(statCache.cachedData, statCache.cachedItemValidFor, key, clock.time)
      ensures clock.time >= old(clock.time)
    {
      var now := clock.Now();
      r := statCache.GetCached(key, now);
    }

    method StoreStat(key: bytes, stat: FileStat)
      modifies statCache, clock
      ensures Filled(old(statCache.cachedData), statCache.cachedData, key, stat, statCache.cachedItemValidFor, old(clock.time), clock.time)
      ensures clock.time >= old(clock.time)
    {
      var now := clock.Now();
      var scanNow := clock.Now();
      ghost var before := statCache.Now();
      statCache.Cache(key, stat, now, scanNow);
      StoredFills(before, statCache.cacheScanInterval, statCache.cachedItemValidFor, key, stat, now, scanNow, old(clock.time));
    }

    /** Looks in the cache, looks again once it has the lock, and only then asks the daemon and
        stores the answer. */
    method ReqStatFile(path: bytes) returns (o: Outcome<Reply>, sent: bool)
      requires Valid() && |ToUnix(path)| < 0x1_0000
      modifies this, writer, writer.stream, writer.buffer, reader, reader.stream, reader.buffer, statCache, clock
      ensures var key := ToUnix(path);
              if !sent then
                && Untouched()
                && match Lookup(statCache.cachedData, statCache.cachedItemValidFor, key, clock.time)
                   case Some(stat) => o == Value(Statted(stat))
                   case None => IsDesktopIni(key) && o == Value(Done(FILE_NOT_FOUND))
              else
                && !IsDesktopIni(key)
                && Lookup(old(statCache.cachedData), statCache.cachedItemValidFor, key, clock.time) == None
                && Exchanged(Request(StatFile(key), []), o) && SentFirst()
                && if o.Value? && o.value.Statted?
                   then Filled(old(statCache.cachedData), statCache.cachedData, key, o.value.stat,
                               statCache.cachedItemValidFor, old(clock.time), clock.time)
                   else statCache.cachedData == old(statCache.cachedData)
    {
      var key := ToUnix(path);
      var cached := LookUpStat(key);
      if cached.Some? {
        return Value(Statted(cached.value)), false;
      }
      cached := LookUpStat(key);
      if cached.Some? {
        return Value(Statted(cached.value)), false;
      }
      if IsDesktopIni(key) {
        return Value(Done(FILE_NOT_FOUND)), false;
      }
      sent := true;
      o := Ask(Request(StatFile(key), []));
      if o.Value? && o.value.Statted? {
        StoreStat(key, o.value.stat);
      }
    }

    /** Removing and creating clear the entry and its directory before the request goes out. */
    method ReqRemoveFile(path: bytes) returns (o: Outcome<Reply>)
      requires Valid() && |ToUnix(path)| < 0x1_0000
      modifies this, writer, writer.stream, writer.buffer, reader, reader.stream, reader.buffer, statCache, dirListCache
      ensures Exchanged(Request(RemoveFile(ToUnix(path)), []), o) && Cleared(Coherence.Before(Coherence.Remove(path))) && SentLast()
    {
      InvalidateEntry(path);
      o := Ask(Request(RemoveFile(ToUnix(path)), []));
    }

    method ReqRemoveDirectory(path: bytes) returns (o: Outcome<Reply>)
      requires Valid() && |ToUnix(path)| < 0x1_0000
      modifies this, writer, writer.stream, writer.buffer, reader, reader.stream, reader.buffer, statCache, dirListCache
      ensures Exchanged(Request(RemoveDirectory(ToUnix(path)), []), o) && Cleared(Coherence.Before(Coherence.Remove(path))) && SentLast()
    {
      InvalidateEntry(path);
      o := Ask(Request(RemoveDirectory(ToUnix(path)), []));
    }

    method ReqCreateDirectory(path: bytes) returns (o: Outcome<Reply>)
      requires Valid() && |ToUnix(path)| < 0x1_0000
      modifies this, writer, writer.stream, writer.buffer, reader, reader.stream, reader.buffer, statCache, dirListCache
      ensures Exchanged(Request(CreateDirectory(ToUnix(path)), []), o) && Cleared(Coherence.Before(Coherence.MakeDirectory(path))) && SentLast()
    {
      InvalidateEntry(path);
      o := Ask(Request(CreateDirectory(ToUnix(path)), []));
    }

    method ReqMoveEntry(fromPath: bytes, toPath: bytes, replaceIfExists: bool) returns (o: Outcome<Reply>)
      requires Valid() && |ToUnix(fromPath)| < 0x1_0000 && |ToUnix(toPath)| < 0x1_0000
      modifies this, writer, writer.stream, writer.buffer, reader, reader.stream, reader.buffer, statCache, dirListCache
      ensures Exchanged(Request(MoveEntry(ToUnix(fromPath), ToUnix(toPath), replaceIfExists), []), o)
      ensures Cleared(Coherence.Before(Coherence.Move(fromPath, toPath))) && SentLast()
    {
      hide StatKeys, DirKeys, ToUnix, Coherence.EntryTargets, EncRequest, ParseReply;
      ghost var a, b := Coherence.EntryTargets(fromPath), Coherence.EntryTargets(toPath);
      InvalidateEntry(fromPath);
      InvalidateEntry(toPath);
      KeysJoin(a, b);
      MinusTwice(old(statCache.cachedData), StatKeys(a), StatKeys(b));
      MinusTwice(old(dirListCache.cachedData), DirKeys(a), DirKeys(b));
      o := Ask(Request(MoveEntry(ToUnix(fromPath), ToUnix(toPath), replaceIfExists), []));
    }

    method ReqSetFileTime(path: bytes, accessTime: i64, writeTime: i64) returns (o: Outcome<Reply>)
      requires Valid() && |ToUnix(path)| < 0x1_0000
      modifies this, writer, writer.stream, writer.buffer, reader, reader.stream, reader.buffer, statCache
      ensures Exchanged(Request(SetFileTime(ToUnix(path), accessTime, writeTime), []), o)
      ensures Cleared(Coherence.Before(Coherence.SetTime(path))) && SentLast()
    {
      KeysOfTime(path);
      hide StatKeys, DirKeys, ToUnix, EncRequest, ParseReply, Coherence.Before;
      statCache.Invalidate(ToUnix(path));
      o := Ask(Request(SetFileTime(ToUnix(path), accessTime, writeTime), []));
    }

    /** The directory listing is cleared after the reply, and only by the creating modes. */
    method ReqOpenFile(path: bytes, mode: OpenMode, readAccess: bool, writeAccess: bool) returns (o: Outcome<Reply>, sent: bool)
      requires Valid() && |ToUnix(path)| < 0x1_0000
      modifies this, writer, writer.stream, writer.buffer, reader, reader.stream, reader.buffer, dirListCache
      ensures sent <==> !IsDesktopIni(ToUnix(path))
      ensures !sent ==> Untouched() && o == Value(Done(GENERIC_FAILURE))
      ensures sent ==> Exchanged(Request(OpenHandle(ToUnix(path), mode, readAccess, writeAccess), []), o) && SentFirst()
      ensures sent && o.Value? ==> Cleared(Coherence.Behind(Coherence.Open(path, Creating(mode))))
    {
      var key := ToUnix(path);
      hide StatKeys, DirKeys, Coherence.Behind, Coherence.ParentTarget, Exchanged, ToUnix, EncRequest, ParseReply, IsDesktopIni;
      if IsDesktopIni(key) {
        return Value(Done(GENERIC_FAILURE)), false;
      }
      sent := true;
      o := Ask(Request(OpenHandle(key, mode, readAccess, writeAccess), []));
      if o.Value? && (mode == CREATE_ALWAYS || mode == CREATE_IF_NOT_EXIST || mode == CREATE_OR_TRUNCATE) {
        InvalidateParentDir(key);
      }
      OnlyDirs(path, Creating(mode));
    }

    /** Writes, length changes, closes, removal checks and disk statistics leave both caches alone. */
    method ReqUncached(r: Request) returns (o: Outcome<Reply>)
      requires Valid() && r.Valid()
      requires r.head.CloseHandle? || r.head.WriteHandle? || r.head.TruncateHandle? || r.head.GetDiskStats?
               || r.head.CheckRemoveFile? || r.head.CheckRemoveDirectory?
      modifies this, writer, writer.stream, writer.buffer, reader, reader.stream, reader.buffer
      ensures Exchanged(r, o) && Cleared(Coherence.Before(Coherence.Other))
    {
      assert StatKeys([]) == {} && DirKeys([]) == {};
      o := Ask(r);
    }

    /** A read fills the caller's buffer from its start with exactly the bytes of the reply. The
        daemon must not announce more than was asked: `DaemonNeverOverruns`. */
    method ReqReadFromFile(handle: u32, offset: u64, buffer: array<byte>, bufferLen: u32) returns (status: Outcome<Status>, bytesRead: u32)
      requires Valid() && bufferLen <= buffer.Length && buffer != writer.buffer && buffer != reader.buffer
      requires Announces(reader.Unread(), bufferLen)
      modifies this, writer, writer.stream, writer.buffer, reader, reader.stream, reader.buffer, buffer
      ensures Valid() && writer.stream.sent == old(writer.Written()) + EncRequest(Request(ReadHandle(handle, bufferLen, offset), []))
      ensures match ParseReply(ReadHandle(handle, bufferLen, offset), old(reader.Unread()))
              case Got(Data(d), rest) =>
                && status == Value(SUCCESS) && bytesRead == |d| <= bufferLen && reader.Unread() == rest
                && buffer[..] == Overlay(old(buffer[..]), 0, d)
              case Got(reply, rest) =>
                reply.Done? && status == Value(reply.status) && reader.Unread() == rest && buffer[..] == old(buffer[..])
              case _ => status.Eof?
    {
      ghost var bs := reader.Unread();
      var head := ReadHandle(handle, bufferLen, offset);
      Send(Request(head, []));
      ReadReply(head, bs);
      hide EncRequest, ParseReply, ParseBody, FromBigEndian;
      bytesRead := 0;
      var st := reader.ReadByte();
      if !st.Value? {
        return Eof, 0;
      }
      if st.value == SUCCESS {
        assert |bs| >= 5 ==> bs[1..][..4] == bs[1..5];
        var ok;
        ok, bytesRead := FillBuffer(buffer, bufferLen);
        if !ok {
          return Eof, 0;
        }
      }
      return Value(st.value), bytesRead;
    }

    /** The length and that many bytes, straight into the caller's buffer. */
    method FillBuffer(buffer: array<byte>, bufferLen: u32) returns (ok: bool, n: u32)
      requires Valid() && bufferLen <= buffer.Length && buffer != writer.buffer && buffer != reader.buffer
      requires |reader.Unread()| >= 4 ==> FromBigEndian(reader.Unread()[..4]) <= bufferLen
      modifies reader, reader.stream, reader.buffer, buffer
      ensures Valid()
      ensures var r := old(reader.Unread());
              if |r| < 4 || |r[4..]| < FromBigEndian(r[..4]) then !ok
              else ok && n == FromBigEndian(r[..4]) <= bufferLen && reader.Unread() == r[4..][n..]
                   && buffer[..] == Overlay(old(buffer[..]), 0, r[4..][..n])
    {
      hide FromBigEndian;
      var length := reader.ReadU32();
      if !length.Value? {
        return false, 0;
      }
      n := length.value;
      ok := reader.ReadExact(buffer, 0, n);
    }

    /** Serves a listing from the two caches, entry by entry, if the directory's names are cached. */
    method TryUseCachedDirListing(dir: bytes) returns (hit: bool, delivered: seq<(bytes, FileStat)>)
      requires Valid()
      modifies statCache`totalCacheHits, statCache`totalDataFetched, dirListCache`totalCacheHits, dirListCache`totalDataFetched, clock
      ensures clock.time >= old(clock.time)
      ensures hit ==>
                && Lookup(dirListCache.cachedData, dirListCache.cachedItemValidFor, dir, old(clock.time)).Some?
                && ServedFrom(dir, dirListCache.cachedData[dir].data, statCache.cachedData, statCache.cachedItemValidFor,
                              old(clock.time), clock.time, delivered)
      ensures !hit ==> Lookup(dirListCache.cachedData, dirListCache.cachedItemValidFor, dir, clock.time) == None
    {
      delivered := [];
      var now := clock.Now();
      var cachedDir := dirListCache.GetCached(dir, now);
      if cachedDir.None? {
        return false, [];
      }
      var names := cachedDir.value;
      hit := true;
      var i := 0;
      while i < |names|
        invariant 0 <= i <= |names|
        invariant clock.time >= old(clock.time)
        invariant ServedFrom(dir, names[..i], statCache.cachedData, statCache.cachedItemValidFor, old(clock.time), clock.time, delivered)
      {
        ghost var t := clock.time;
        var cached := LookUpStat(GetFullPath(dir, names[i]));
        ServedUntilLater(dir, names[..i], statCache.cachedData, statCache.cachedItemValidFor, old(clock.time), t, clock.time, delivered);
        ghost var upTo := names[..i + 1];
        assert upTo[|upTo| - 1] == names[i] && upTo[..|upTo| - 1] == names[..i];
        if cached.Some? {
          ghost var shorter := delivered;
          delivered := delivered + [(names[i], cached.value)];
          assert delivered[..|delivered| - 1] == shorter;
        }
        i := i + 1;
      }
      assert names[..i] == names;
    }

    /** Lists from the caches or asks the daemon; in the second case every entry that came with a
        stat is stored as it is read, and the names are stored when the terminator is reached. */
    method ReqListFileStats(path: bytes) returns (o: Outcome<Reply>, sent: bool, delivered: seq<(bytes, FileStat)>)
      requires Valid() && |ToUnix(path)| < 0x1_0000
      modifies this, writer, writer.stream, writer.buffer, reader, reader.stream, reader.buffer, statCache, dirListCache, clock
      ensures Valid()
      ensures !sent ==>
                var key := ToUnix(path);
                && Untouched() && o == Value(Done(SUCCESS))
                && Lookup(dirListCache.cachedData, dirListCache.cachedItemValidFor, key, old(clock.time)).Some?
                && ServedFrom(key, dirListCache.cachedData[key].data, statCache.cachedData, statCache.cachedItemValidFor,
                              old(clock.time), clock.time, delivered)
      ensures sent ==>
                var key := ToUnix(path);
                var p := ParseReply(ListDirectory(key), old(reader.Unread()));
                && Lookup(old(dirListCache.cachedData), dirListCache.cachedItemValidFor, key, clock.time) == None
                && writer.stream.sent == old(writer.Written()) + EncRequest(Request(ListDirectory(key), [])) && SentFirst()
                && match p
                   case Short => o.Eof?
                   case Unknown => false
                   case Got(reply, rest) =>
                     && reader.Unread() == rest
                     && if reply.Listing? then
                          && var es := OnlyListed(reply.entries);
                          && o == Value(Listing(es))
                          && FilledFrom(key, old(statCache.cachedData), statCache.cachedData, es,
                                        statCache.cachedItemValidFor, old(clock.time), clock.time)
                          && (forall e :: e in es ==> e.Listed?)
                          && delivered == Pairs(es)
                          && Filled(old(dirListCache.cachedData), dirListCache.cachedData, key, NamesOf(es),
                                    dirListCache.cachedItemValidFor, old(clock.time), clock.time)
                        else
                          && o == Value(reply) && delivered == []
                          && statCache.cachedData == old(statCache.cachedData) && dirListCache.cachedData == old(dirListCache.cachedData)
    {
      var key := ToUnix(path);
      var hit;
      hit, delivered := TryUseCachedDirListing(key);
      if hit {
        return Value(Done(SUCCESS)), false, delivered;
      }
      sent := true;
      Send(Request(ListDirectory(key), []));
      ghost var bs, t := reader.Unread(), clock.time;
      ListReply(key, bs);
      hide ParseReply, ParseEntries, FilledFrom, Filled, OnlyListed, EncRequest;
      var first := reader.ReadByte();
      if !first.Value? {
        return Eof, true, [];
      }
      if first.value != SUCCESS {
        return Value(Done(first.value)), true, [];
      }
      var entries := ReadAndStoreEntries(key);
      if !entries.Value? {
        return Eof, true, [];
      }
      ghost var u := clock.time;
      var names := NamesOf(entries.value);
      StoreNames(key, names);
      FilledFromWiden(key, old(statCache.cachedData), statCache.cachedData, entries.value, statCache.cachedItemValidFor,
                      t, u, old(clock.time), clock.time);
      FilledWiden(old(dirListCache.cachedData), dirListCache.cachedData, key, names, dirListCache.cachedItemValidFor,
                  u, clock.time, old(clock.time));
      return Value(Listing(entries.value)), true, Pairs(entries.value);
    }

    method StoreNames(key: bytes, names: seq<bytes>)
      modifies dirListCache, clock
      ensures Filled(old(dirListCache.cachedData), dirListCache.cachedData, key, names, dirListCache.cachedItemValidFor,
                     old(clock.time), clock.time)
      ensures clock.time >= old(clock.time)
    {
      var now := clock.Now();
      var scanNow := clock.Now();
      ghost var before := dirListCache.Now();
      dirListCache.Cache(key, names, now, scanNow);
      StoredFills(before, dirListCache.cacheScanInterval, dirListCache.cachedItemValidFor, key, names, now, scanNow, old(clock.time));
    }

    method ReadAndStoreOne(dir: bytes, ghost before: Stats, ghost entries: seq<Entry>, ghost from: int) returns (o: Outcome<Entry>)
      requires Valid() && FilledFrom(dir, before, statCache.cachedData, entries, statCache.cachedItemValidFor, from, clock.time)
      modifies reader, reader.stream, reader.buffer, statCache, clock
      ensures reader.Valid() && !o.BadType? && clock.time >= old(clock.time)
      ensures var p := ParseFields(ENTRY_KINDS, old(reader.Unread()));
              if p.Got? then o == Value(BuildEntry(p.value)) && reader.Unread() == p.rest else o.Eof? && reader.Unread() == []
      ensures o.Value? ==> o.value.Listed?
      ensures o.Value? ==> FilledFrom(dir, before, statCache.cachedData, entries + [o.value], statCache.cachedItemValidFor,
                                      from, clock.time)
    {
      hide ParseFields, BuildEntry, FilledFrom, Filled, GetFullPath;
      var listed :- ReadListedEntry(reader);
      ghost var mid, t := statCache.cachedData, clock.time;
      StoreStat(GetFullPath(dir, listed.name), listed.stat);
      FilledFromMore(dir, before, mid, statCache.cachedData, entries, listed, statCache.cachedItemValidFor, from, t, clock.time);
      return Value(listed);
    }

    /** The listing loop: it stops exactly at the terminator, keeps exactly the entries that came
        with a stat, and stores each of them under its full path. */
    method ReadAndStoreEntries(dir: bytes) returns (o: Outcome<seq<Entry>>)
      requires Valid()
      modifies reader, reader.stream, reader.buffer, statCache, clock
      ensures reader.Valid() && !o.BadType? && clock.time >= old(clock.time)
      ensures var p := ParseEntries(old(reader.Unread()));
              if p.Got? then o == Value(OnlyListed(p.value)) && reader.Unread() == p.rest else o.Eof? && reader.Unread() == []
      ensures o.Value? ==> (forall e :: e in o.value ==> e.Listed?)
                           && FilledFrom(dir, old(statCache.cachedData), statCache.cachedData, o.value,
                                         statCache.cachedItemValidFor, old(clock.time), clock.time)
    {
      assert ParseEntries([]).Short?;
      assert forall seen: seq<Entry> :: Resume(seen, Short) == Short;
      hide ParseEntries, OnlyListed, Resume, FilledFrom, ParseFields, BuildEntry, Filled, GetFullPath;
      ghost var start, seen := reader.Unread(), [];
      var entries: seq<Entry> := [];
      NothingListed(dir, statCache.cachedData, statCache.cachedItemValidFor, clock.time);
      var entryStatus :- reader.ReadByte();
      AtStart(ParseEntries(start));
      while entryStatus != NO_MORE_ENTRIES
        invariant reader.Valid() && entries == OnlyListed(seen) && (forall e :: e in entries ==> e.Listed?)
        invariant ParseEntries(start) == Resume(seen, ParseEntries([entryStatus] + reader.Unread()))
        invariant clock.time >= old(clock.time)
        invariant FilledFrom(dir, old(statCache.cachedData), statCache.cachedData, entries, statCache.cachedItemValidFor,
                             old(clock.time), clock.time)
        decreases |reader.Unread()|
      {
        ghost var e: Entry := Skipped(entryStatus);
        if entryStatus == SUCCESS {
          AtListed(seen, reader.Unread());
          var listed :- ReadAndStoreOne(dir, old(statCache.cachedData), entries, old(clock.time));
          e := listed;
          entries := entries + [listed];
        } else {
          AtSkipped(seen, entryStatus, reader.Unread());
        }
        OnlyListedSnoc(seen, e);
        seen := seen + [e];
        entryStatus :- reader.ReadByte();
      }
      AtTerminator(seen, reader.Unread());
      return Value(entries);
    }
  }

  /** The reply to a read: a status, and on success a length and that many bytes. */
  lemma ReadReply(head: Head, bs: bytes)
    requires head.ReadHandle?
    ensures ParseReply(head, bs) ==
            if bs == [] then Short
            else if bs[0] != SUCCESS then Got(Done(bs[0]), bs[1..])
            else
              var r := bs[1..];
              if |r| < 4 then Short
              else
                var n := FromBigEndian(r[..4]);
                if |r[4..]| < n then Short else Got(Data(r[4..][..n]), r[4..][n..])
  {
    if bs != [] {
      ParseNext([BLOB], bs[1..]);
      assert [BLOB][1..] == [];
    }
  }

  /** A successful reply to a read does not announce more than `n` bytes. */
  ghost predicate Announces(bs: bytes, n: nat) {
    |bs| >= 5 && bs[0] == SUCCESS ==> FromBigEndian(bs[1..5]) <= n
  }

  /** Every reply the daemon may give, and every part of it a broken connection lets through, keeps
      to the length asked for. */
  lemma DaemonNeverOverruns(head: Head, reply: Reply, bs: bytes)
    requires head.ReadHandle? && Fits(head, reply) && bs <= EncReply(head, reply)
    ensures Announces(bs, head.dataLen)
  {
    if reply.Data? && |bs| >= 5 {
      var d := reply.content;
      Enc1(BLOB, Chunk(d));
      Pow256Values();
      BigEndianRoundTrip(|d|, 4);
      assert EncReply(head, reply) == [SUCCESS] + (BigEndian(|d|, 4) + d);
      assert bs[1..5] == BigEndian(|d|, 4);
    }
  }

  lemma MinusTwice<T>(m: Entries<T>, a: set<bytes>, b: set<bytes>)
    ensures (m - a) - b == m - (a + b)
  {
  }

  /** The reply to a listing, from its first byte. */
  lemma ListReply(key: Text, bs: bytes)
    ensures ParseReply(ListDirectory(key), bs) ==
            if bs == [] then Short
            else if bs[0] != SUCCESS then Got(Done(bs[0]), bs[1..])
            else
              var p := ParseEntries(bs[1..]);
              if p.Got? then Got(Listing(p.value), p.rest) else Short
  {
  }

  lemma NothingListed(dir: bytes, stats: Stats, validFor: int, now: int)
    ensures OnlyListed([]) == [] && FilledFrom(dir, stats, stats, [], validFor, now, now)
  {
  }

  predicate Creating(mode: OpenMode) {
    mode == CREATE_ALWAYS || mode == CREATE_IF_NOT_EXIST || mode == CREATE_OR_TRUNCATE
  }
}
