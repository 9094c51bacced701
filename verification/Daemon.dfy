/** The daemon: system calls with arbitrary short counts and failures, and the request
    handlers that run over them. */
module Daemon {
  import opened Wire
  import opened Streams
  import opened Messages
  import opened Codec
  import opened Posix
  import opened TimedCache
  import opened Paths
  import opened Times

  /** The system calls. Every result POSIX allows is possible: short counts, refusals, any
      unused descriptor number. Every failed call is counted, a failed `stat` apart from the others,
      and leaves its error number. */
  class Kernel {
    var fs: Fs
    var times: map<bytes, Stamp>   // the times of each existing path; any call may touch them
    var errno: int
    ghost var failures: nat
    ghost var statFailures: nat

    constructor (fs: Fs, times: map<bytes, Stamp>)
      requires fs.Valid()
      ensures this.fs == fs && this.times == times && failures == 0 && statFailures == 0
    {
      this.fs, this.times := fs, times;
      errno, failures, statFailures := 0, 0, 0;
    }

    /** No call has failed. */
    twostate predicate Fine()
      reads this
    {
      failures == old(failures) && statFailures == old(statFailures)
    }

    /** One call, other than a `stat`, has failed. */
    twostate predicate Failed()
      reads this
    {
      failures == old(failures) + 1 && statFailures == old(statFailures) && errno != 0
    }

    method Fail()
      modifies this`errno, this`failures
      ensures Failed()
    {
      var e: int := *;
      errno := if e == 0 then EACCES else e;
      failures := failures + 1;
    }

    method Lseek(h: nat, off: nat) returns (ok: bool)
      requires fs.Valid()
      modifies this
      ensures fs.Valid() && ok == SeekOk(old(fs), h, off)
      ensures fs == if ok then SetOffset(old(fs), h, off) else old(fs)
      ensures if ok then Fine() else Failed()
    {
      ok := SeekOk(fs, h, off);
      if ok {
        fs := SetOffset(fs, h, off);
      } else {
        Fail();
      }
    }

    method Read(h: nat, into: array<byte>, at: nat, n: nat) returns (result: int)
      requires fs.Valid() && 0 < n && at + n <= into.Length
      modifies this, into
      ensures fs.Valid() && -1 <= result <= n
      ensures failures == old(failures) + (if result == -1 then 1 else 0) && statFailures == old(statFailures)
      ensures result == -1 ==> fs == old(fs)
      ensures result >= 0 ==>
                && h in old(fs).fds && old(fs).fds[h].readable
                && var off := old(fs).fds[h].offset;
                && var f := FileOf(old(fs), h);
                && fs == SetOffset(old(fs), h, off + result)
                && (result > 0 ==> off + result <= |f|) && (result == 0 ==> |f| <= off)
                && into[..] == Overlay(old(into[..]), at, ReadAt(f, off, result))
    {
      var failing: bool := *;
      if failing || h !in fs.fds || !fs.fds[h].readable {
        Fail();
        return -1;
      }
      var off, f := fs.fds[h].offset, FileOf(fs, h);
      var k: nat := 0;
      if off < |f| {
        var most := Min(n, |f| - off);
        k :| 1 <= k <= most;
      }
      var chunk := ReadAt(f, off, k);
      forall i | 0 <= i < k {
        into[at + i] := chunk[i];
      }
      assert into[..] == Overlay(old(into[..]), at, chunk);
      fs := SetOffset(fs, h, off + k);
      return k;
    }

    method Write(h: nat, data: array<byte>, at: nat, n: nat) returns (result: int)
      requires fs.Valid() && 0 < n && at + n <= data.Length
      modifies this
      ensures fs.Valid() && -1 <= result <= n && result != 0
      ensures failures == old(failures) + (if result == -1 then 1 else 0) && statFailures == old(statFailures)
      ensures result == -1 ==> fs == old(fs)
      ensures result > 0 ==> h in old(fs).fds && Wrote(old(fs), h, old(fs).fds[h].offset, data[at..at + result], fs)
    {
      var failing: bool := *;
      if failing || h !in fs.fds || !fs.fds[h].writable {
        Fail();
        return -1;
      }
      var k: nat :| 1 <= k <= n;
      var off, chunk := fs.fds[h].offset, data[at..at + k];
      fs := SetOffset(SetContent(fs, fs.fds[h].ino, Splice(FileOf(fs, h), off, chunk)), h, off + k);
      return k;
    }

    method Open(path: bytes, flags: Flags) returns (fd: int, ghost choice: OpenChoice)
      requires fs.Valid()
      modifies this
      ensures fs.Valid() && FairChoice(old(fs), choice) && (fd != -1 ==> choice.fd < 0x8000_0000)
      ensures if fd != -1 then Fine() else Failed()
      ensures (fs, if fd != -1 then 0 else errno) == OpenCall(old(fs), path, flags, choice)
      ensures fd == -1 || fd == choice.fd
    {
      var c: OpenChoice := *;
      if !FairChoice(fs, c) {
        c := c.(refusal := 24); // EMFILE
      }
      choice := c;
      var out := OpenCall(fs, path, flags, c);
      if out.1 == 0 {
        fs, fd := out.0, c.fd;
      } else {
        errno, failures, fd := out.1, failures + 1, -1;
      }
    }

    method Close(h: nat)
      requires fs.Valid()
      modifies this
      ensures fs.Valid() && fs == old(fs).(fds := old(fs).fds - {h}) && Fine()
    {
      fs := fs.(fds := fs.fds - {h});
    }

    method Ftruncate(h: nat, n: nat) returns (ok: bool)
      requires fs.Valid()
      modifies this
      ensures fs.Valid()
      ensures if ok then Fine() else Failed()
      ensures ok ==> h in old(fs).fds && old(fs).fds[h].writable
      ensures fs == if ok then SetContent(old(fs), old(fs).fds[h].ino, Resize(FileOf(old(fs), h), n)) else old(fs)
    {
      var failing: bool := *;
      ok := !failing && h in fs.fds && fs.fds[h].writable;
      if ok {
        fs := SetContent(fs, fs.fds[h].ino, Resize(FileOf(fs, h), n));
      } else {
        Fail();
      }
    }

    /** `stat`: unless the call fails, it succeeds for what exists and reports ENOENT for what does
        not; the kind, the length and the times of what is there. */
    method Stat(path: bytes) returns (r: StatResult)
      requires fs.Valid()
      modifies this`errno, this`statFailures
      ensures failures == old(failures) && (r.StatFailed? ==> errno == r.errno)
      ensures statFailures == old(statFailures) ==>
                if Dotted(path) || Exists(fs, path) then r.StatOk? else r == StatFailed(ENOENT)
      ensures statFailures != old(statFailures) ==>
                statFailures == old(statFailures) + 1 && r.StatFailed? && r.errno != ENOENT
      ensures StatServed(fs, path, Answer(r))
      ensures r.StatOk? && !Dotted(path) ==> path in times && TimesIn(r.stat) == times[path]
    {
      var failing: bool, e: int, stat: FileStat := *, *, *;
      if !failing && Dotted(path) {
        return StatOk(stat);
      }
      var size: int := if path in fs.names then |fs.content[fs.names[path]]| else stat.size;
      if failing || (Exists(fs, path) && (size >= TWO64 || (IsDirectoryMode(stat.mode) <==> path in fs.names) || path !in times)) {
        errno := if e == ENOENT then EACCES else e;
        statFailures := statFailures + 1;
        NotFoundIsEnoent(errno);
        return StatFailed(errno);
      }
      if !Exists(fs, path) {
        errno := ENOENT;
        return StatFailed(ENOENT);
      }
      r := StatOk(FileStat(stat.mode, size, ToUnsigned(times[path].access), ToUnsigned(times[path].write)));
      SignRoundTrip(times[path].access);
      SignRoundTrip(times[path].write);
    }

    /** `utimensat`: each time becomes what was asked, or stays where that was omitted. */
    method Utimens(path: bytes, access: Timespec, write: Timespec) returns (ok: bool)
      modifies this`times, this`errno, this`failures
      ensures if ok then Fine() else Failed()
      ensures ok ==> path in old(times)
      ensures times == if ok then old(times)[path := Stamped(old(times)[path], access, write)] else old(times)
    {
      var failing: bool := *;
      ok := !failing && path in times;
      if ok {
        times := times[path := Stamped(times[path], access, write)];
      } else {
        Fail();
      }
    }

    method Rename(fromPath: bytes, toPath: bytes) returns (ok: bool)
      requires fs.Valid()
      modifies this
      ensures fs.Valid() && (ok ==> CanRename(old(fs), fromPath, toPath))
      ensures if ok then Fine() else Failed()
      ensures fs == if ok then Renamed(old(fs), fromPath, toPath) else old(fs)
    {
      hide Renamed, Fs.Valid;
      var failing: bool := *;
      ok := !failing && CanRename(fs, fromPath, toPath);
      if ok {
        RenamedValid(fs, fromPath, toPath);
        fs := Renamed(fs, fromPath, toPath);
      } else {
        Fail();
      }
    }

    method Unlink(path: bytes) returns (ok: bool)
      requires fs.Valid()
      modifies this
      ensures fs.Valid() && (ok ==> path in old(fs).names)
      ensures if ok then Fine() else Failed()
      ensures fs == if ok then old(fs).(names := old(fs).names - {path}) else old(fs)
    {
      var failing: bool := *;
      ok := !failing && path in fs.names;
      if ok {
        fs := fs.(names := fs.names - {path});
      } else {
        Fail();
      }
    }

    method Mkdir(path: bytes) returns (ok: bool)
      requires fs.Valid()
      modifies this
      ensures fs.Valid() && (ok ==> !Exists(old(fs), path))
      ensures if ok then Fine() else Failed()
      ensures fs == if ok then old(fs).(dirs := old(fs).dirs + {path}) else old(fs)
    {
      var failing: bool := *;
      ok := !failing && !Exists(fs, path);
      if ok {
        fs := fs.(dirs := fs.dirs + {path});
      } else {
        Fail();
      }
    }

    method Rmdir(path: bytes) returns (ok: bool)
      requires fs.Valid()
      modifies this
      ensures fs.Valid() && (ok ==> path in old(fs).dirs && Empty(old(fs), path))
      ensures if ok then Fine() else Failed()
      ensures fs == if ok then old(fs).(dirs := old(fs).dirs - {path}) else old(fs)
    {
      var failing: bool := *;
      ok := !failing && path in fs.dirs && Empty(fs, path);
      if ok {
        fs := fs.(dirs := fs.dirs - {path});
      } else {
        Fail();
      }
    }

    /** `access`, whose outcome says nothing about the tree. */
    method Access() returns (ok: bool)
      modifies this`errno, this`failures
      ensures if ok then Fine() else Failed()
    {
      ok := *;
      if !ok {
        Fail();
      }
    }

    method Statvfs() returns (ok: bool, info: VfsInfo)
      modifies this`errno, this`failures
      ensures if ok then Fine() else Failed()
    {
      ok, info := *, *;
      if !ok {
        Fail();
      }
    }

    /** `opendir` and `readdir`: the directory itself, its parent and its children, each once and in
        any order. No child is called as one of the first two. */
    method Readdir(path: bytes) returns (ok: bool, names: seq<Text>)
      modifies this`errno, this`failures
      ensures if ok then Fine() else Failed()
      ensures ok ==> (path in fs.dirs || !Empty(fs, path)) && Lists(fs, path, names)
      ensures ok ==> DOT !in Children(fs, path) && DOT_DOT !in Children(fs, path)
    {
      var failing: bool := *;
      var all := Children(fs, path);
      if failing || !(path in fs.dirs || !Empty(fs, path)) || DOT in all || DOT_DOT in all || exists n :: n in all && |n| >= 0x1_0000 {
        Fail();
        return false, [];
      }
      names := Enumerate({DOT, DOT_DOT} + all);
      ok := true;
    }
  }

  /** The elements of a set in some order. */
  method Enumerate(all: set<bytes>) returns (names: seq<Text>)
    requires forall n :: n in all ==> |n| < 0x1_0000
    ensures forall n :: n in names <==> n in all
    ensures forall i, j :: 0 <= i < j < |names| ==> names[i] != names[j]
  {
    names := [];
    var left := all;
    while left != {}
      invariant left <= all
      invariant forall n :: n in names <==> n in all && n !in left
      invariant forall i, j :: 0 <= i < j < |names| ==> names[i] != names[j]
      decreases |left|
    {
      var n :| n in left;
      left, names := left - {n}, names + [n];
    }
  }

  /** A path's times, in seconds since 1970. */
  datatype Stamp = Stamp(access: i64, write: i64)

  function Stamped(s: Stamp, access: Timespec, write: Timespec): Stamp {
    Stamp(if access.Omit? then s.access else access.s, if write.Omit? then s.write else write.s)
  }

  function TimesIn(stat: FileStat): Stamp {
    Stamp(ToSigned(stat.accessTime), ToSigned(stat.writeTime))
  }

  datatype VfsInfo = VfsInfo(blockSize: u64, freeBlocks: u64, availableFiles: u64, blocks: u64)

  datatype StatResult = StatOk(stat: FileStat) | StatFailed(errno: int)

  /** What one `readdir` and the `stat` of that entry gave. */
  datatype DirEntry = DirEntry(name: Text, result: StatResult)

  /** The reply to a stat. */
  function Answer(r: StatResult): Reply {
    match r
    case StatOk(stat) => Statted(stat)
    case StatFailed(errno) => Done(StatusFromErrno(errno))
  }

  lemma NotFoundIsEnoent(errno: int)
    ensures StatusFromErrno(errno) == FILE_NOT_FOUND <==> errno == ENOENT
  {
  }

  lemma ReadStopsAtEnd(f: bytes, off: nat, k: nat, n: nat)
    requires k <= n && |f| <= off + k && (k > 0 ==> off + k <= |f|)
    ensures ReadAt(f, off, n) == ReadAt(f, off, k)
  {
  }

  /** What the daemon sends for each directory entry. */
  function Report(e: DirEntry): Entry {
    if e.result.StatOk? then Listed(e.name, e.result.stat) else Skipped(StatusFromErrno(e.result.errno))
  }

  function Reports(dir: seq<DirEntry>): seq<Entry> {
    seq(|dir|, i requires 0 <= i < |dir| => Report(dir[i]))
  }

  /** The reply as the system calls demand it. A request is refused exactly when one of its calls has
      failed, with the status of that call's error number, or when the request itself calls for it:
      an open with neither access, a move onto something that exists without leave to overwrite, the
      removal of something without a parent or of a directory that is not empty. A listing is
      refused only if the directory cannot be read; an entry is skipped only if its own stat failed. */
  ghost predicate Honest(fs: Fs, head: Head, reply: Reply, failed: bool, statFailed: bool, errno: int) {
    var refusal := Done(StatusFromErrno(errno));
    match head
    case StatFile(p) =>
      if statFailed then reply == refusal else if Dotted(p) || Exists(fs, p) then reply.Statted? else reply == Done(FILE_NOT_FOUND)
    case ListDirectory(p) =>
      if failed then reply == refusal else reply.Listing? && (!statFailed ==> NothingLost(fs, p, reply.entries))
    case MoveEntry(_, t, overwrite) =>
      if failed || statFailed then reply == refusal
      else if !overwrite && (Dotted(t) || Exists(fs, t)) then reply == Done(FILE_EXISTS)
      else reply == Done(SUCCESS)
    case CheckRemoveFile(p) =>
      if GetParentPath(p).None? then reply == Done(ACCESS_DENIED) else reply == if failed then refusal else Done(SUCCESS)
    case CheckRemoveDirectory(p) =>
      if GetParentPath(p).None? then reply == Done(ACCESS_DENIED)
      else if failed then reply == refusal
      else reply == Done(if Empty(fs, p) then SUCCESS else DIRECTORY_NOT_EMPTY)
    case OpenHandle(_, _, ra, wa) =>
      if !ra && !wa then reply == Done(GENERIC_FAILURE) else if failed then reply == refusal else reply.Opened?
    case CloseHandle(_) => reply == Done(SUCCESS)
    case ReadHandle(_, _, _) => if failed then reply == refusal else reply.Data?
    case GetDiskStats => if failed then reply == refusal else reply.Disk?
    case _ => reply == if failed then refusal else Done(SUCCESS)
  }

  /** The three requests on handles, one by one. */
  lemma HonestOnHandle(fs: Fs, head: Head, reply: Reply, failed: bool, statFailed: bool, errno: int)
    ensures head.ReadHandle? ==>
              (Honest(fs, head, reply, failed, statFailed, errno) <==>
               if failed then reply == Done(StatusFromErrno(errno)) else reply.Data?)
    ensures head.WriteHandle? ==>
              (Honest(fs, head, reply, failed, statFailed, errno) <==>
               reply == Done(if failed then StatusFromErrno(errno) else SUCCESS))
    ensures head.OpenHandle? && (head.readAccess || head.writeAccess) ==>
              (Honest(fs, head, reply, failed, statFailed, errno) <==>
               if failed then reply == Done(StatusFromErrno(errno)) else reply.Opened?)
  {
  }

  /** Every entry that exists is listed. */
  ghost predicate NothingLost(fs: Fs, p: bytes, es: seq<Entry>) {
    forall n :: IsDots(n) || (n in Children(fs, p) && Exists(fs, GetFullPath(p, n))) ==> n in NamesListed(es)
  }

  /** Reads until the requested length or end of file, over any pattern of short reads. */
  method ReadFully(kernel: Kernel, buffer: array<byte>, h: u32, dataLen: u32, ghost fs0: Fs, ghost offset: nat)
    returns (ok: bool, totalRead: u32)
    requires fs0.Valid() && h in fs0.fds && kernel.fs == SetOffset(fs0, h, offset)
    requires dataLen <= buffer.Length
    modifies kernel, buffer
    ensures totalRead <= dataLen && exists at: nat :: kernel.fs == SetOffset(fs0, h, at)
    ensures ok ==> buffer[..totalRead] == ReadAt(FileOf(fs0, h), offset, dataLen)
    ensures ok && dataLen > 0 ==> fs0.fds[h].readable
    ensures kernel.failures == old(kernel.failures) + (if ok then 0 else 1) && kernel.statFailures == old(kernel.statFailures)
  {
    hide *;
    ghost var f, start := FileOf(fs0, h), buffer[..];
    ghost var got: bytes := ReadAt(f, offset, 0);
    totalRead := 0;
    ReadSplit(f, offset, 0, dataLen);
    OverlayNothing(start, 0);
    while totalRead < dataLen
      invariant totalRead == |got| <= dataLen
      invariant kernel.fs == SetOffset(fs0, h, offset + totalRead)
      invariant totalRead > 0 ==> offset + totalRead <= |f| && fs0.fds[h].readable
      invariant got == ReadAt(f, offset, totalRead)
      invariant buffer[..] == Overlay(start, 0, got)
      invariant kernel.failures == old(kernel.failures) && kernel.statFailures == old(kernel.statFailures)
    {
      SetOffsetFacts(fs0, h, offset + totalRead);
      var readResult := kernel.Read(h, buffer, totalRead, dataLen - totalRead);
      if readResult == -1 {
        return false, totalRead;
      }
      var next := totalRead + readResult;
      SetOffsetTwice(fs0, h, offset + totalRead, offset + next);
      ghost var more := ReadAt(f, offset + totalRead, readResult);
      ReadSplit(f, offset + totalRead, readResult, readResult);
      OverlayTwice(start, 0, got, more);
      if readResult == 0 {
        assert more == [];
        assert got + more == got;
        ReadStopsAtEnd(f, offset, totalRead, dataLen);
        break;
      }
      ReadSplit(f, offset, totalRead, next);
      got := got + more;
      totalRead := next;
    }
    ok := true;
    OverlayFront(start, got);
  }

  /** Writes the whole transfer buffer, over any pattern of short writes; a failure leaves
      some prefix written. */
  method WriteFully(kernel: Kernel, buffer: array<byte>, h: u32, dataLen: u32, ghost fs0: Fs, ghost offset: nat)
    returns (ok: bool, ghost done: nat)
    requires fs0.Valid() && h in fs0.fds && kernel.fs == SetOffset(fs0, h, offset)
    requires dataLen <= buffer.Length
    modifies kernel
    ensures kernel.fs.Valid() && done <= dataLen && Wrote(fs0, h, offset, buffer[..done], kernel.fs)
    ensures ok ==> done == dataLen
    ensures kernel.failures == old(kernel.failures) + (if ok then 0 else 1) && kernel.statFailures == old(kernel.statFailures)
  {
    hide *;
    ghost var written: bytes := [];
    WroteNothing(fs0, h, offset);
    var totalWritten := 0;
    while totalWritten < dataLen
      invariant kernel.fs.Valid() && 0 <= totalWritten <= dataLen
      invariant written == buffer[..totalWritten]
      invariant Wrote(fs0, h, offset, written, kernel.fs)
      invariant kernel.failures == old(kernel.failures) && kernel.statFailures == old(kernel.statFailures)
    {
      ghost var fs1 := kernel.fs;
      WroteOffset(fs0, h, offset, written, fs1);
      var writeResult := kernel.Write(h, buffer, totalWritten, dataLen - totalWritten);
      if writeResult == -1 {
        return false, totalWritten;
      }
      ghost var chunk := buffer[totalWritten..totalWritten + writeResult];
      WroteMore(fs0, h, offset, written, fs1, chunk, kernel.fs);
      written := written + chunk;
      totalWritten := totalWritten + writeResult;
    }
    return true, dataLen;
  }

  class ClientHandler {
    const reader: DataReader
    const writer: DataWriter
    const kernel: Kernel
    var rwBuffer: array<byte>

    ghost predicate Valid()
      reads this, reader, writer, kernel
    {
      && reader.Valid() && writer.Valid() && kernel.fs.Valid()
      && reader.buffer != writer.buffer && rwBuffer != reader.buffer && rwBuffer != writer.buffer
    }

    constructor (reader: DataReader, writer: DataWriter, kernel: Kernel)
      requires reader.Valid() && writer.Valid() && kernel.fs.Valid() && reader.buffer != writer.buffer
      ensures Valid() && this.reader == reader && this.writer == writer && this.kernel == kernel && fresh(rwBuffer)
    {
      this.reader, this.writer, this.kernel := reader, writer, kernel;
      rwBuffer := new byte[0];
    }

    /** Grows the transfer buffer, as `std::vector::resize` does. */
    method EnsureRwBufferSize(size: nat)
      requires Valid()
      modifies this`rwBuffer
      ensures Valid() && rwBuffer.Length >= size
      ensures rwBuffer == old(rwBuffer) || fresh(rwBuffer)
    {
      if size > rwBuffer.Length {
        var was := rwBuffer[..];
        rwBuffer := new byte[size](i => if 0 <= i < |was| then was[i] else 0);
      }
    }

    /** Seek, read, reply; a failure at any point replies with its status instead. */
    method HandleReadFile(h: u32, dataLen: u32, offset: u64) returns (ghost reply: Reply)
      requires Valid()
      modifies this, kernel, rwBuffer, writer, writer.stream, writer.buffer
      ensures Valid() && (rwBuffer == old(rwBuffer) || fresh(rwBuffer))
      ensures Serves(old(kernel.fs), Request(ReadHandle(h, dataLen, offset), []), reply, kernel.fs)
      ensures Truthful(ReadHandle(h, dataLen, offset), reply)
      ensures writer.Written() == old(writer.Written()) + EncReply(ReadHandle(h, dataLen, offset), reply)
    {
      hide Honest, Serves, Fs.Valid, ReadServed;
      ghost var fs0, head := kernel.fs, ReadHandle(h, dataLen, offset);
      var ok := kernel.Lseek(h, offset);
      if !ok {
        reply := Refuse(head);
        HonestOnHandle(fs0, head, reply, true, false, kernel.errno);
        ServedReading(fs0, head, reply, 0, kernel.fs);
        return;
      }
      EnsureRwBufferSize(dataLen);
      var totalRead;
      ok, totalRead := ReadFully(kernel, rwBuffer, h, dataLen, fs0, offset);
      ghost var at: nat :| kernel.fs == SetOffset(fs0, h, at);
      SetOffsetFacts(fs0, h, at);
      if !ok {
        reply := Refuse(head);
        HonestOnHandle(fs0, head, reply, true, false, kernel.errno);
        ServedReading(fs0, head, reply, at, kernel.fs);
        return;
      }
      reply := Data(rwBuffer[..totalRead]);
      SendData(head, totalRead, reply);
      HonestOnHandle(fs0, head, reply, false, false, kernel.errno);
      ServedReading(fs0, head, reply, at, kernel.fs);
    }

    method SendData(ghost head: Head, n: u32, ghost reply: Reply)
      requires Valid() && n <= rwBuffer.Length && reply == Data(rwBuffer[..n])
      requires head.ReadHandle? && Fits(head, reply)
      modifies writer, writer.stream, writer.buffer
      ensures Valid() && writer.Written() == old(writer.Written()) + EncReply(head, reply)
    {
      ghost var start := writer.Written();
      writer.WriteByte(SUCCESS);
      writer.WriteU32(n);
      writer.WriteExact(rwBuffer, 0, n);
      assert rwBuffer[0..n] == rwBuffer[..n];
      Enc1(BLOB, Chunk(rwBuffer[..n]));
      Concat3(start, [SUCCESS], BigEndian(n, 4), rwBuffer[..n]);
    }

    /** The reply follows from the calls made. */
    twostate predicate Truthful(head: Head, new reply: Reply)
      reads kernel
    {
      Honest(old(kernel.fs), head, reply, kernel.failures != old(kernel.failures),
             kernel.statFailures != old(kernel.statFailures), kernel.errno)
    }

    /** Replies with the status of the call that just failed. */
    method Refuse(ghost head: Head) returns (ghost reply: Reply)
      requires Valid()
      modifies writer, writer.stream, writer.buffer
      ensures Valid() && reply == Done(StatusFromErrno(kernel.errno)) && reply.status != SUCCESS && Fits(head, reply)
      ensures writer.Written() == old(writer.Written()) + EncReply(head, reply)
    {
      ErrnoNeverSucceeds(kernel.errno);
      writer.WriteByte(StatusFromErrno(kernel.errno));
      reply := Done(StatusFromErrno(kernel.errno));
    }

    /** Seek, take the payload off the stream, write it. When the seek fails the reply goes out
        and the payload is left unread. */
    method HandleWriteFile(h: u32, offset: u64, dataLen: u32) returns (o: Outcome<()>, ghost reply: Reply)
      requires Valid()
      modifies this, kernel, rwBuffer, reader, reader.stream, reader.buffer, writer, writer.stream, writer.buffer
      ensures Valid() && (rwBuffer == old(rwBuffer) || fresh(rwBuffer)) && !o.BadType?
      ensures o.Eof? <==> SeekOk(old(kernel.fs), h, offset) && |old(reader.Unread())| < dataLen
      ensures o.Value? ==>
                var head, bs := WriteHandle(h, offset, dataLen), old(reader.Unread());
                var took := if SeekOk(old(kernel.fs), h, offset) then dataLen else 0;
                && reader.Unread() == bs[took..]
                && Serves(old(kernel.fs), Request(head, bs[..took]), reply, kernel.fs)
                && Truthful(head, reply)
                && writer.Written() == old(writer.Written()) + EncReply(head, reply)
    {
      hide Wrote, Serves, SetOffset, Fs.Valid, SeekOk, Honest;
      ghost var fs0, bs, head := kernel.fs, reader.Unread(), WriteHandle(h, offset, dataLen);
      var ok := kernel.Lseek(h, offset);
      if !ok {
        reply := Refuse(head);
        ServedUnsought(fs0, head, reply);
        HonestOnHandle(fs0, head, reply, true, false, kernel.errno);
        return Value(()), reply;
      }
      SeekRequires(fs0, h, offset);
      EnsureRwBufferSize(dataLen);
      ok := reader.ReadExact(rwBuffer, 0, dataLen);
      if !ok {
        return Eof, Done(GENERIC_FAILURE);
      }
      ghost var payload, done := bs[..dataLen], 0;
      assert rwBuffer[..dataLen] == payload;
      ok, done := WriteFully(kernel, rwBuffer, h, dataLen, fs0, offset);
      assert rwBuffer[..done] == payload[..done];
      if ok {
        writer.WriteByte(SUCCESS);
        reply := Done(SUCCESS);
      } else {
        reply := Refuse(head);
      }
      HonestOnHandle(fs0, head, reply, !ok, false, kernel.errno);
      ServedWriting(fs0, head, payload, done, reply, kernel.fs);
      return Value(()), reply;
    }

    method HandleOpenHandle(path: Text, mode: OpenMode, readAccess: bool, writeAccess: bool)
      returns (ghost reply: Reply)
      requires Valid()
      modifies kernel, writer, writer.stream, writer.buffer
      ensures Valid()
      ensures Serves(old(kernel.fs), Request(OpenHandle(path, mode, readAccess, writeAccess), []), reply, kernel.fs)
      ensures Truthful(OpenHandle(path, mode, readAccess, writeAccess), reply)
      ensures writer.Written() == old(writer.Written()) + EncReply(OpenHandle(path, mode, readAccess, writeAccess), reply)
    {
      if !readAccess && !writeAccess {
        writer.WriteByte(GENERIC_FAILURE);
        return Done(GENERIC_FAILURE);
      }
      var creat, trunc, excl := false, false, false;
      if mode == CREATE_IF_NOT_EXIST {
        creat := true;
      } else if mode == TRUNCATE {
        trunc := true;
      } else if mode == CREATE_OR_TRUNCATE {
        creat, trunc := true, true;
      } else if mode == CREATE_ALWAYS {
        creat, excl := true, true;
      }
      hide OpenCall, Serves, Fs.Valid, FairChoice, Honest;
      ghost var fs0, head := kernel.fs, OpenHandle(path, mode, readAccess, writeAccess);
      var fd, choice := kernel.Open(path, Flags(readAccess, writeAccess, creat, trunc, excl));
      ServedOpening(fs0, head, choice, kernel.fs, if fd != -1 then 0 else kernel.errno);
      if fd == -1 {
        reply := Refuse(head);
      } else {
        reply := SendHandle(head, fd);
      }
      HonestOnHandle(fs0, head, reply, fd == -1, false, kernel.errno);
    }

    method SendHandle(ghost head: Head, fd: u32) returns (ghost reply: Reply)
      requires Valid() && head.OpenHandle?
      modifies writer, writer.stream, writer.buffer
      ensures Valid() && reply == Opened(fd) && writer.Written() == old(writer.Written()) + EncReply(head, reply)
    {
      ghost var start := writer.Written();
      writer.WriteByte(SUCCESS);
      writer.WriteU32(fd);
      ConcatAssociates(start, [SUCCESS], BigEndian(fd, 4));
      Enc1(U32, Number(fd));
      reply := Opened(fd);
    }

    /** Every entry gets a status byte, those that can be statted their name and stat, and the list is
        closed by the terminator. */
    method HandleListDirStats(path: Text) returns (ghost reply: Reply)
      requires Valid()
      modifies kernel`errno, kernel`failures, kernel`statFailures, writer, writer.stream, writer.buffer
      ensures Valid() && Serves(kernel.fs, Request(ListDirectory(path), []), reply, kernel.fs)
      ensures Truthful(ListDirectory(path), reply)
      ensures writer.Written() == old(writer.Written()) + EncReply(ListDirectory(path), reply)
    {
      hide Fs.Valid, StatServed, Children, Empty, Lists, Describes, NothingLost;
      ghost var head := ListDirectory(path);
      var ok, names := kernel.Readdir(path);
      if !ok {
        reply := Refuse(head);
        ServedNaming(kernel.fs, head, reply, kernel.fs);
        return;
      }
      ghost var start := writer.Written();
      writer.WriteByte(SUCCESS);
      ghost var dir := WriteReports(path, names);
      reply := Listing(Reports(dir));
      ConcatAssociates(start, [SUCCESS], EncEntries(Reports(dir)));
      ReportsFit(dir);
      ReportsDescribe(kernel.fs, path, names, dir);
      ServedNaming(kernel.fs, head, reply, kernel.fs);
      if kernel.statFailures == old(kernel.statFailures) {
        ReportsLoseNothing(kernel.fs, path, names, dir);
      }
    }

    /** The loop over the entries: join, stat, report. */
    method WriteReports(path: bytes, names: seq<Text>) returns (ghost dir: seq<DirEntry>)
      requires Valid()
      modifies kernel`errno, kernel`statFailures, writer, writer.stream, writer.buffer
      ensures Valid() && StatEach(kernel.fs, path, names, dir)
      ensures writer.Written() == old(writer.Written()) + EncEntries(Reports(dir))
      ensures kernel.statFailures == old(kernel.statFailures) ==> AllFound(kernel.fs, path, dir)
    {
      dir := [];
      ghost var start := writer.Written();
      assert Reports(dir) == [] && start + EncSome([]) == start;
      hide *;
      NothingStatted(kernel.fs, path);
      assert names[..0] == [];
      var i := 0;
      while i < |names|
        invariant 0 <= i <= |names| && Valid() && StatEach(kernel.fs, path, names[..i], dir)
        invariant writer.Written() == start + EncSome(Reports(dir))
        invariant kernel.statFailures >= old(kernel.statFailures)
        invariant kernel.statFailures == old(kernel.statFailures) ==> AllFound(kernel.fs, path, dir)
      {
        assert names[..i + 1] == names[..i] + [names[i]];
        dir := ReportOne(path, names[i], names[..i], dir, start);
        i := i + 1;
      }
      assert names[..i] == names;
      writer.WriteByte(NO_MORE_ENTRIES);
      EncSomeEnds(Reports(dir));
      ConcatAssociates(start, EncSome(Reports(dir)), [NO_MORE_ENTRIES]);
    }

    /** One turn of that loop. */
    method ReportOne(path: bytes, name: Text, ghost done: seq<Text>, ghost dir: seq<DirEntry>, ghost start: bytes)
      returns (ghost more: seq<DirEntry>)
      requires Valid() && StatEach(kernel.fs, path, done, dir) && writer.Written() == start + EncSome(Reports(dir))
      modifies kernel`errno, kernel`statFailures, writer, writer.stream, writer.buffer
      ensures Valid() && StatEach(kernel.fs, path, done + [name], more)
      ensures writer.Written() == start + EncSome(Reports(more)) && kernel.statFailures >= old(kernel.statFailures)
      ensures kernel.statFailures == old(kernel.statFailures) && AllFound(kernel.fs, path, dir) ==> AllFound(kernel.fs, path, more)
    {
      hide Fs.Valid, StatServed, Exists, Dotted, EncEntry, StatEach, AllFound, Reports, EncSome, Report, GetFullPath, Answer;
      var r := kernel.Stat(GetFullPath(path, name));
      ghost var e := DirEntry(name, r);
      WriteEntry(name, r);
      ReportsSnoc(dir, e);
      ConcatAssociates(start, EncSome(Reports(dir)), EncEntry(Report(e)));
      OneMoreStatted(kernel.fs, path, done, dir, e);
      more := dir + [e];
    }

    method WriteEntry(name: Text, r: StatResult)
      requires Valid()
      modifies writer, writer.stream, writer.buffer
      ensures Valid() && writer.Written() == old(writer.Written()) + EncEntry(Report(DirEntry(name, r)))
    {
      ghost var start := writer.Written();
      if r.StatOk? {
        writer.WriteByte(SUCCESS);
        var _ := WriteText(writer, name);
        WriteStat(writer, r.stat);
        EncEntryFields(name, r.stat);
        Concat3(start, [SUCCESS], EncField(TEXT, Chunk(name)), EncFields(STAT_KINDS, StatFields(r.stat)));
      } else {
        writer.WriteByte(StatusFromErrno(r.errno));
      }
    }

    /** Replies with success, or with the status of the call that just failed. */
    method Conclude(ghost head: Head, ok: bool) returns (ghost reply: Reply)
      requires Valid()
      requires !head.StatFile? && !head.ListDirectory? && !head.OpenHandle? && !head.ReadHandle? && !head.GetDiskStats?
      modifies writer, writer.stream, writer.buffer
      ensures Valid() && Fits(head, reply) && reply.Done? && (reply.status == SUCCESS <==> ok)
      ensures reply == if ok then Done(SUCCESS) else Done(StatusFromErrno(kernel.errno))
      ensures writer.Written() == old(writer.Written()) + EncReply(head, reply)
    {
      if ok {
        writer.WriteByte(SUCCESS);
        reply := Done(SUCCESS);
      } else {
        reply := Refuse(head);
      }
    }

    method AnswerWith(ghost head: Head, status: Status) returns (ghost reply: Reply)
      requires Valid() && status != SUCCESS
      modifies writer, writer.stream, writer.buffer
      ensures Valid() && reply == Done(status) && Fits(head, reply)
      ensures writer.Written() == old(writer.Written()) + EncReply(head, reply)
    {
      writer.WriteByte(status);
      reply := Done(status);
    }

    /** Looks at the destination first: without leave to overwrite, an existing file is never
        replaced. */
    method HandleMoveEntry(fromPath: Text, toPath: Text, overwrite: bool) returns (ghost reply: Reply)
      requires Valid()
      modifies kernel, writer, writer.stream, writer.buffer
      ensures Valid() && Serves(old(kernel.fs), Request(MoveEntry(fromPath, toPath, overwrite), []), reply, kernel.fs)
      ensures Truthful(MoveEntry(fromPath, toPath, overwrite), reply)
      ensures writer.Written() == old(writer.Written()) + EncReply(MoveEntry(fromPath, toPath, overwrite), reply)
    {
      hide Renamed, CanRename, Fs.Valid, IsDirectoryMode, Dotted, Exists;
      ghost var fs0, head := kernel.fs, MoveEntry(fromPath, toPath, overwrite);
      var existing := kernel.Stat(toPath);
      if existing.StatFailed? && existing.errno != ENOENT {
        ErrnoNeverSucceeds(existing.errno);
        reply := AnswerWith(head, StatusFromErrno(existing.errno));
      } else if existing.StatOk? && !overwrite {
        reply := AnswerWith(head, FILE_EXISTS);
      } else {
        var ok := kernel.Rename(fromPath, toPath);
        reply := Conclude(head, ok);
      }
      ServedNaming(fs0, head, reply, kernel.fs);
    }

    method HandleRemoveFile(path: Text) returns (ghost reply: Reply)
      requires Valid()
      modifies kernel, writer, writer.stream, writer.buffer
      ensures Valid() && Serves(old(kernel.fs), Request(RemoveFile(path), []), reply, kernel.fs)
      ensures Truthful(RemoveFile(path), reply)
      ensures writer.Written() == old(writer.Written()) + EncReply(RemoveFile(path), reply)
    {
      ghost var fs0 := kernel.fs;
      var ok := kernel.Unlink(path);
      reply := Conclude(RemoveFile(path), ok);
      ServedNaming(fs0, RemoveFile(path), reply, kernel.fs);
    }

    method HandleRemoveDirectory(path: Text) returns (ghost reply: Reply)
      requires Valid()
      modifies kernel, writer, writer.stream, writer.buffer
      ensures Valid() && Serves(old(kernel.fs), Request(RemoveDirectory(path), []), reply, kernel.fs)
      ensures Truthful(RemoveDirectory(path), reply)
      ensures writer.Written() == old(writer.Written()) + EncReply(RemoveDirectory(path), reply)
    {
      hide Empty;
      ghost var fs0 := kernel.fs;
      var ok := kernel.Rmdir(path);
      reply := Conclude(RemoveDirectory(path), ok);
      ServedNaming(fs0, RemoveDirectory(path), reply, kernel.fs);
    }

    method HandleCreateDirectory(path: Text) returns (ghost reply: Reply)
      requires Valid()
      modifies kernel, writer, writer.stream, writer.buffer
      ensures Valid() && Serves(old(kernel.fs), Request(CreateDirectory(path), []), reply, kernel.fs)
      ensures Truthful(CreateDirectory(path), reply)
      ensures writer.Written() == old(writer.Written()) + EncReply(CreateDirectory(path), reply)
    {
      ghost var fs0 := kernel.fs;
      var ok := kernel.Mkdir(path);
      reply := Conclude(CreateDirectory(path), ok);
      ServedNaming(fs0, CreateDirectory(path), reply, kernel.fs);
    }

    /** An entry may be removed exactly if its parent directory may be changed; a path without a parent,
        which every top-level entry is, is always refused. */
    method CanRemoveDirectoryEntry(path: bytes) returns (status: Status)
      modifies kernel`errno, kernel`failures
      ensures kernel.Fine() || kernel.Failed()
      ensures if GetParentPath(path).None? then status == ACCESS_DENIED && kernel.Fine()
              else status == if kernel.Fine() then SUCCESS else StatusFromErrno(kernel.errno)
    {
      if GetParentPath(path).None? {
        return ACCESS_DENIED;
      }
      var ok := kernel.Access();
      return if ok then SUCCESS else StatusFromErrno(kernel.errno);
    }

    method HandleCheckRemoveFile(path: Text) returns (ghost reply: Reply)
      requires Valid()
      modifies kernel`errno, kernel`failures, writer, writer.stream, writer.buffer
      ensures Valid() && Serves(kernel.fs, Request(CheckRemoveFile(path), []), reply, kernel.fs)
      ensures Truthful(CheckRemoveFile(path), reply)
      ensures writer.Written() == old(writer.Written()) + EncReply(CheckRemoveFile(path), reply)
    {
      var status := CanRemoveDirectoryEntry(path);
      writer.WriteByte(status);
      reply := Done(status);
      ServedNaming(kernel.fs, CheckRemoveFile(path), reply, kernel.fs);
    }

    /** Scans the entries until one is neither the directory itself nor its parent. */
    method HasEntry(entries: seq<bytes>) returns (found: bool)
      ensures found <==> exists e :: e in entries && !IsDots(e)
    {
      var i := 0;
      while i < |entries|
        invariant 0 <= i <= |entries|
        invariant forall k :: 0 <= k < i ==> IsDots(entries[k])
      {
        if !IsDots(entries[i]) {
          return true;
        }
        i := i + 1;
      }
      return false;
    }

    /** Success exactly if the directory is empty, unless a call fails. */
    method HandleCheckRemoveDirectory(path: Text) returns (ghost reply: Reply)
      requires Valid()
      modifies kernel`errno, kernel`failures, writer, writer.stream, writer.buffer
      ensures Valid() && Serves(kernel.fs, Request(CheckRemoveDirectory(path), []), reply, kernel.fs)
      ensures Truthful(CheckRemoveDirectory(path), reply)
      ensures writer.Written() == old(writer.Written()) + EncReply(CheckRemoveDirectory(path), reply)
    {
      hide Fs.Valid, Empty, Children, GetParentPath;
      ghost var head := CheckRemoveDirectory(path);
      ghost var none := GetParentPath(path).None?;
      var status := CanRemoveDirectoryEntry(path);
      if status != SUCCESS {
        reply := AnswerWith(head, status);
      } else {
        ErrnoNeverSucceeds(kernel.errno);
        var ok, entries := kernel.Readdir(path);
        if !ok {
          reply := Conclude(head, false);
        } else {
          var hasEntry := HasEntry(entries);
          EntriesMeanChildren(kernel.fs, path, entries);
          if hasEntry {
            reply := AnswerWith(head, DIRECTORY_NOT_EMPTY);
          } else {
            reply := Conclude(head, true);
          }
        }
      }
      ServedNaming(kernel.fs, head, reply, kernel.fs);
    }

    /** A time of -1 is left alone, any other is set; nothing else changes. */
    method HandleSetFileTime(head: Head) returns (ghost reply: Reply)
      requires Valid() && head.SetFileTime?
      modifies kernel, writer, writer.stream, writer.buffer
      ensures Valid() && Serves(old(kernel.fs), Request(head, []), reply, kernel.fs)
      ensures Truthful(head, reply)
      ensures writer.Written() == old(writer.Written()) + EncReply(head, reply)
      ensures reply == Done(SUCCESS) ==>
                && head.path in old(kernel.times)
                && kernel.times == old(kernel.times)[head.path :=
                     Stamped(old(kernel.times)[head.path], TimespecFor(head.accessTime), TimespecFor(head.writeTime))]
      ensures reply != Done(SUCCESS) ==> kernel.times == old(kernel.times)
    {
      var ok := kernel.Utimens(head.path, TimespecFor(head.accessTime), TimespecFor(head.writeTime));
      reply := Conclude(head, ok);
      ServedNaming(kernel.fs, head, reply, kernel.fs);
    }

    /** Wrapping 64-bit arithmetic; "available" is computed from the number of available files. */
    method HandleGetDiskStats() returns (ghost reply: Reply, ghost info: VfsInfo)
      requires Valid()
      modifies kernel`errno, kernel`failures, writer, writer.stream, writer.buffer
      ensures Valid() && Serves(kernel.fs, Request(GetDiskStats, []), reply, kernel.fs)
      ensures Truthful(GetDiskStats, reply)
      ensures writer.Written() == old(writer.Written()) + EncReply(GetDiskStats, reply)
      ensures reply.Disk? ==>
                && reply.stats.freeBytes == info.blockSize * info.freeBlocks % TWO64
                && reply.stats.availableBytes == info.blockSize * info.availableFiles % TWO64
                && reply.stats.totalBytes == info.blockSize * info.blocks % TWO64
    {
      var ok, vfs := kernel.Statvfs();
      info := vfs;
      if ok {
        ghost var start := writer.Written();
        var size := vfs.blockSize;
        var stats := DiskStats(size * vfs.freeBlocks % TWO64, size * vfs.availableFiles % TWO64, size * vfs.blocks % TWO64);
        writer.WriteByte(SUCCESS);
        WriteDisk(writer, stats);
        reply := Disk(stats);
        ConcatAssociates(start, [SUCCESS], EncFields([U64, U64, U64], ReplyFields(reply)));
      } else {
        reply := Refuse(GetDiskStats);
      }
      ServedNaming(kernel.fs, GetDiskStats, reply, kernel.fs);
    }

    /** The stat branch of the loop. */
    method HandleStat(path: Text) returns (ghost reply: Reply)
      requires Valid()
      modifies kernel`errno, kernel`statFailures, writer, writer.stream, writer.buffer
      ensures Valid() && Serves(kernel.fs, Request(StatFile(path), []), reply, kernel.fs)
      ensures Truthful(StatFile(path), reply)
      ensures reply.Statted? && !Dotted(path) ==> path in kernel.times && TimesIn(reply.stat) == kernel.times[path]
      ensures writer.Written() == old(writer.Written()) + EncReply(StatFile(path), reply)
    {
      hide Fs.Valid, IsDirectoryMode, Exists, Dotted, StatServed;
      var r := kernel.Stat(path);
      ghost var start := writer.Written();
      if r.StatFailed? {
        ErrnoNeverSucceeds(r.errno);
        NotFoundIsEnoent(r.errno);
      }
      reply := Answer(r);
      writer.WriteByte(if r.StatOk? then SUCCESS else StatusFromErrno(r.errno));
      if r.StatOk? {
        WriteStat(writer, r.stat);
        ConcatAssociates(start, [SUCCESS], EncFields(STAT_KINDS, StatFields(r.stat)));
      }
      ServedNaming(kernel.fs, StatFile(path), reply, kernel.fs);
    }

    /** The requests about names and metadata. */
    method HandleNaming(head: Head) returns (ghost reply: Reply)
      requires Valid()
      requires !head.OpenHandle? && !head.CloseHandle? && !head.ReadHandle? && !head.WriteHandle? && !head.TruncateHandle?
      modifies kernel, writer, writer.stream, writer.buffer
      ensures Valid() && Serves(old(kernel.fs), Request(head, []), reply, kernel.fs)
      ensures Truthful(head, reply)
      ensures writer.Written() == old(writer.Written()) + EncReply(head, reply)
    {
      hide Serves, EncReply, Fs.Valid, Honest;
      match head {
        case StatFile(path) => reply := HandleStat(path);
        case ListDirectory(path) => reply := HandleListDirStats(path);
        case MoveEntry(f, t, overwrite) => reply := HandleMoveEntry(f, t, overwrite);
        case RemoveFile(path) => reply := HandleRemoveFile(path);
        case RemoveDirectory(path) => reply := HandleRemoveDirectory(path);
        case CreateDirectory(path) => reply := HandleCreateDirectory(path);
        case CheckRemoveFile(path) => reply := HandleCheckRemoveFile(path);
        case CheckRemoveDirectory(path) => reply := HandleCheckRemoveDirectory(path);
        case SetFileTime(_, _, _) => reply := HandleSetFileTime(head);
        case GetDiskStats =>
          ghost var info;
          reply, info := HandleGetDiskStats();
      }
    }

    method HandleTruncateFile(head: Head) returns (ghost reply: Reply)
      requires Valid() && head.TruncateHandle?
      modifies kernel, writer, writer.stream, writer.buffer
      ensures Valid() && Serves(old(kernel.fs), Request(head, []), reply, kernel.fs)
      ensures Truthful(head, reply)
      ensures writer.Written() == old(writer.Written()) + EncReply(head, reply)
    {
      var ok := kernel.Ftruncate(head.handle, head.newLength);
      if ok {
        writer.WriteByte(SUCCESS);
        reply := Done(SUCCESS);
      } else {
        reply := Refuse(head);
      }
    }

    /** One turn of the message loop: read a head, act on it, reply, flush. */
    method HandleMessage() returns (o: Outcome<Head>, ghost reply: Reply)
      requires Valid()
      modifies this, kernel, rwBuffer, reader, reader.stream, reader.buffer, writer, writer.stream, writer.buffer
      ensures Valid() && (rwBuffer == old(rwBuffer) || fresh(rwBuffer))
      ensures match ParseHead(old(reader.Unread()))
              case Short => o.Eof?
              case Unknown => o.BadType?
              case Got(head, rest) =>
                var took := Takes(old(kernel.fs), head);
                if |rest| < took then o.Eof?
                else
                  && o == Value(head) && reader.Unread() == rest[took..]
                  && Serves(old(kernel.fs), Request(head, rest[..took]), reply, kernel.fs)
                  && Truthful(head, reply)
                  && writer.bufferBytesFilled == 0
                  && writer.stream.sent == old(writer.Written()) + EncReply(head, reply)
    {
      hide Serves, Fs.Valid, SeekOk, EncReply, ParseHead, Honest;
      reply := Done(SUCCESS);
      o := ReceiveHead(reader);
      if !o.Value? {
        return;
      }
      var head := o.value;
      ghost var rest := reader.Unread();
      assert rest[0..] == rest && rest[..0] == [];
      match head {
        case WriteHandle(h, offset, dataLen) =>
          var done;
          done, reply := HandleWriteFile(h, offset, dataLen);
          if done.Eof? {
            return Eof, reply;
          }
        case ReadHandle(h, dataLen, offset) => reply := HandleReadFile(h, dataLen, offset);
        case OpenHandle(path, mode, ra, wa) => reply := HandleOpenHandle(path, mode, ra, wa);
        case CloseHandle(h) => reply := HandleClose(head);
        case TruncateHandle(h, n) => reply := HandleTruncateFile(head);
        case _ => reply := HandleNaming(head);
      }
      writer.Flush();
    }

    method HandleClose(head: Head) returns (ghost reply: Reply)
      requires Valid() && head.CloseHandle?
      modifies kernel, writer, writer.stream, writer.buffer
      ensures Valid() && Serves(old(kernel.fs), Request(head, []), reply, kernel.fs)
      ensures Truthful(head, reply)
      ensures writer.Written() == old(writer.Written()) + EncReply(head, reply)
    {
      kernel.Close(head.handle);
      writer.WriteByte(SUCCESS);
      reply := Done(SUCCESS);
    }
  }

  /** Each name with what its stat gave. */
  ghost predicate StatEach(fs: Fs, path: bytes, names: seq<Text>, dir: seq<DirEntry>) {
    && |dir| == |names|
    && forall i :: 0 <= i < |dir| ==> dir[i].name == names[i] && StatServed(fs, GetFullPath(path, names[i]), Answer(dir[i].result))
  }

  /** Whatever exists has been statted. */
  ghost predicate AllFound(fs: Fs, path: bytes, dir: seq<DirEntry>) {
    forall i :: 0 <= i < |dir| && dir[i].result.StatFailed? ==>
      !Dotted(GetFullPath(path, dir[i].name)) && !Exists(fs, GetFullPath(path, dir[i].name))
  }

  lemma NothingStatted(fs: Fs, path: bytes)
    ensures StatEach(fs, path, [], []) && AllFound(fs, path, [])
  {
  }

  lemma OneMoreStatted(fs: Fs, path: bytes, names: seq<Text>, dir: seq<DirEntry>, e: DirEntry)
    requires StatEach(fs, path, names, dir) && StatServed(fs, GetFullPath(path, e.name), Answer(e.result))
    ensures StatEach(fs, path, names + [e.name], dir + [e])
    ensures AllFound(fs, path, dir) && (Dotted(GetFullPath(path, e.name)) || Exists(fs, GetFullPath(path, e.name)) ==> e.result.StatOk?)
            ==> AllFound(fs, path, dir + [e])
  {
    hide StatServed, Exists, Dotted;
  }

  /** The reports, without the terminator. */
  function EncSome(es: seq<Entry>): bytes {
    if es == [] then [] else EncSome(es[..|es| - 1]) + EncEntry(es[|es| - 1])
  }

  lemma {:induction false} EncSomeEnds(es: seq<Entry>)
    ensures EncSome(es) + [NO_MORE_ENTRIES] == EncEntries(es)
  {
    EncSomeThen(es, []);
    assert es + [] == es;
  }

  lemma {:induction false} EncSomeThen(a: seq<Entry>, b: seq<Entry>)
    ensures EncSome(a) + EncEntries(b) == EncEntries(a + b)
    decreases |a|
  {
    if a == [] {
      assert a + b == b;
    } else {
      var front, last := a[..|a| - 1], a[|a| - 1];
      EncSomeThen(front, [last] + b);
      assert front + ([last] + b) == a + b && ([last] + b)[1..] == b;
      ConcatAssociates(EncSome(front), EncEntry(last), EncEntries(b));
    }
  }

  lemma ReportsSnoc(dir: seq<DirEntry>, e: DirEntry)
    ensures EncSome(Reports(dir + [e])) == EncSome(Reports(dir)) + EncEntry(Report(e))
  {
    var es := Reports(dir + [e]);
    assert es[..|es| - 1] == Reports(dir) && es[|es| - 1] == Report(e);
  }

  lemma ReportsDescribe(fs: Fs, path: bytes, names: seq<Text>, dir: seq<DirEntry>)
    requires Lists(fs, path, names) && StatEach(fs, path, names, dir) && (path in fs.dirs || !Empty(fs, path))
    ensures ListingServed(fs, path, Reports(dir))
  {
    hide StatServed, Lists, Empty;
    assert Describes(fs, path, names, Reports(dir));
  }

  lemma ReportsLoseNothing(fs: Fs, path: bytes, names: seq<Text>, dir: seq<DirEntry>)
    requires Lists(fs, path, names) && StatEach(fs, path, names, dir) && AllFound(fs, path, dir)
    ensures NothingLost(fs, path, Reports(dir))
  {
    hide StatServed, Children, Exists, Dotted;
    forall n | IsDots(n) || (n in Children(fs, path) && Exists(fs, GetFullPath(path, n))) ensures n in NamesListed(Reports(dir)) {
      var i :| 0 <= i < |names| && names[i] == n;
      if IsDots(n) {
        DotsAreDotted(path, n);
      }
      assert Reports(dir)[i] in Reports(dir) && Reports(dir)[i] == Report(dir[i]);
    }
  }

  lemma EntriesMeanChildren(fs: Fs, path: bytes, names: seq<bytes>)
    requires Lists(fs, path, names) && DOT !in Children(fs, path) && DOT_DOT !in Children(fs, path)
    ensures (exists e :: e in names && !IsDots(e)) <==> !Empty(fs, path)
  {
    ChildMeaning(fs, path, []);
    hide Children, Empty;
    if n :| n in Children(fs, path) {
      assert n in names;
    }
  }

  lemma ReportsFit(dir: seq<DirEntry>)
    ensures forall e :: e in Reports(dir) ==> EntryFits(e)
  {
    forall e | e in Reports(dir) ensures EntryFits(e) {
      var i :| 0 <= i < |dir| && e == Report(dir[i]);
      if dir[i].result.StatFailed? {
        ErrnoNeverSucceeds(dir[i].result.errno);
      }
    }
  }

  /** Whatever the directory and whichever entries fail to stat, the client's listing loop stops
      exactly at the daemon's terminator and delivers exactly the statted entries, in order. */
  lemma ListingDelivered(path: Text, dir: seq<DirEntry>, rest: bytes)
    ensures Fits(ListDirectory(path), Listing(Reports(dir)))
    ensures ParseReply(ListDirectory(path), EncReply(ListDirectory(path), Listing(Reports(dir))) + rest)
            == Got(Listing(Reports(dir)), rest)
    ensures OnlyListed(Reports(dir)) == StattedEntries(dir)
  {
    ReportsFit(dir);
    ReplyRoundTrip(ListDirectory(path), Listing(Reports(dir)), rest);
    ListedAreStatted(dir);
  }

  /** The entries of a directory that could be statted, in order. */
  function StattedEntries(dir: seq<DirEntry>): seq<Entry> {
    if dir == [] then []
    else
      var rest := StattedEntries(dir[1..]);
      match dir[0].result
      case StatOk(stat) => [Listed(dir[0].name, stat)] + rest
      case StatFailed(_) => rest
  }

  lemma {:induction false} ListedAreStatted(dir: seq<DirEntry>)
    ensures OnlyListed(Reports(dir)) == StattedEntries(dir)
  {
    if dir != [] {
      assert Reports(dir)[0] == Report(dir[0]) && Reports(dir)[1..] == Reports(dir[1..]);
      ListedAreStatted(dir[1..]);
    }
  }

  /** From a Windows time to the device and back: after a successful set-time, a stat of the path
      reports the time that was set, rounded down to its second and not before 1970, or the old one
      where none was given. */
  lemma SetThenStat(before: Stamp, access: TimePtr, write: TimePtr, stat: FileStat)
    requires TimesIn(stat) == Stamped(before, Sent(access), Sent(write))
    ensures if access == Null || access.t.Ticks() == 0 then ToSigned(stat.accessTime) == before.access
            else FromUnix(stat.accessTime).Ticks() == WholeSecond(access.t)
    ensures if write == Null || write.t.Ticks() == 0 then ToSigned(stat.writeTime) == before.write
            else FromUnix(stat.writeTime).Ticks() == WholeSecond(write.t)
  {
    hide FromUnix, Sent, Filetime.Ticks;
    SetTimeMeaning(access);
    SetTimeMeaning(write);
  }
}
