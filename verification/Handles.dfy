/** From a Windows create disposition to a descriptor and back to a close: the open path through
    the packed wire byte, and the life of every open handle. */
module Handles {
  import opened Wire
  import opened Streams
  import opened Messages
  import opened Posix
  import opened TimedCache
  import opened Paths
  import Connection

  datatype Disposition = CreateNew | CreateAlways | OpenExisting | OpenAlways | TruncateExisting | UnknownDisposition

  datatype NtStatus =
    | NtSuccess
    | NtNotFound
    | NtAccessDenied
    | NtCollision
    | NtNotADirectory
    | NtDirectoryNotEmpty
    | NtFileIsADirectory
    | NtUnsuccessful

  function NtFrom(st: Status): NtStatus {
    if st == SUCCESS then NtSuccess
    else if st == FILE_NOT_FOUND then NtNotFound
    else if st == ACCESS_DENIED then NtAccessDenied
    else if st == FILE_EXISTS then NtCollision
    else if st == NOT_A_DIRECTORY then NtNotADirectory
    else if st == DIRECTORY_NOT_EMPTY then NtDirectoryNotEmpty
    else NtUnsuccessful
  }

  /** The sentinel a context holds when nothing was opened: -1 in a 32-bit unsigned handle. */
  const NO_HANDLE: u32 := 0xFFFF_FFFF

  datatype Context = Context(handle: u32, readAccess: bool, writeAccess: bool)

  /** What a create decides before it talks to the device: an answer, or the open it asks for. */
  datatype Plan = Return(status: NtStatus) | Ask(mode: OpenMode, readAccess: bool, writeAccess: bool)

  function PlanFor(d: Disposition, there: bool, readAccess: bool, writeAccess: bool): Plan {
    var neither := !readAccess && !writeAccess;
    if d == UnknownDisposition then Return(NtUnsuccessful)
    else if (d == OpenAlways || d == OpenExisting) && neither && there then Return(NtSuccess)
    else if d == OpenExisting && !there then Return(NtNotFound)
    else Ask(ModeFor(d), readAccess || neither, writeAccess)
  }

  function ModeFor(d: Disposition): OpenMode {
    match d
    case CreateAlways => CREATE_OR_TRUNCATE
    case CreateNew => CREATE_ALWAYS
    case OpenAlways => CREATE_IF_NOT_EXIST
    case OpenExisting => OPEN_ONLY
    case TruncateExisting => TRUNCATE
    case UnknownDisposition => OPEN_ONLY
  }

  /** The request that goes out: none for a path the client refuses by name. */
  function OpenRequest(path: Text, plan: Plan): Option<Head> {
    if plan.Ask? && !IsDesktopIni(path) then Some(OpenHandle(path, plan.mode, plan.readAccess, plan.writeAccess)) else None
  }

  /** The context and the status once the reply is there. */
  function ContextAfter(plan: Plan, before: Context, reply: Reply): Context {
    if plan.Return? then before
    else Context(if reply.Opened? then reply.handle else before.handle, plan.readAccess, plan.writeAccess)
  }

  function StatusAfter(plan: Plan, d: Disposition, there: bool, reply: Reply): NtStatus {
    if plan.Return? then plan.status
    else if reply.Done? then NtFrom(reply.status)
    else if there && (d == OpenAlways || d == CreateAlways) then NtCollision
    else NtSuccess
  }

  class FileContext {
    var handle: u32
    var readAccess: bool
    var writeAccess: bool

    constructor (readAccess: bool, writeAccess: bool)
      ensures Snapshot() == Context(NO_HANDLE, readAccess, writeAccess)
    {
      this.handle, this.readAccess, this.writeAccess := NO_HANDLE, readAccess, writeAccess;
    }

    ghost function Snapshot(): Context
      reads this
    {
      Context(handle, readAccess, writeAccess)
    }

    /** Sends the open and takes the handle from the reply. */
    method AskForHandle(conn: Connection.Connection, path: bytes, mode: OpenMode, d: Disposition, fileExists: bool)
      returns (status: Outcome<NtStatus>, ghost reply: Outcome<Reply>)
      requires conn.Valid() && |ToUnix(path)| < 0x1_0000
      modifies this`handle, conn, conn.writer, conn.writer.stream, conn.writer.buffer
      modifies conn.reader, conn.reader.stream, conn.reader.buffer, conn.dirListCache
      ensures match OpenRequest(ToUnix(path), Ask(mode, readAccess, writeAccess))
              case None => conn.Untouched() && reply == Value(Done(GENERIC_FAILURE))
              case Some(head) => conn.Exchanged(Request(head, []), reply)
      ensures var plan := Ask(mode, readAccess, writeAccess);
              if reply.Value? then
                && status == Value(StatusAfter(plan, d, fileExists, reply.value))
                && Snapshot() == ContextAfter(plan, old(Snapshot()), reply.value)
              else !status.Value? && handle == old(handle)
    {
      hide IsDesktopIni, ToUnix, EncRequest, ParseReply, NtFrom;
      var o, sent := conn.ReqOpenFile(path, mode, readAccess, writeAccess);
      reply := o;
      if !o.Value? {
        return Eof, reply;
      }
      if o.value.Done? {
        return Value(NtFrom(o.value.status)), reply;
      }
      if o.value.Opened? {
        handle := o.value.handle;
      }
      if fileExists && (d == OpenAlways || d == CreateAlways) {
        return Value(NtCollision), reply;
      }
      return Value(NtSuccess), reply;
    }

    /** `handle_create_file`: the switch over the disposition, the early returns, the access a
        POSIX open needs, the request, and the status Windows expects. */
    method HandleCreateFile(conn: Connection.Connection, path: bytes, d: Disposition, fileExists: bool)
      returns (status: Outcome<NtStatus>, ghost reply: Outcome<Reply>)
      requires conn.Valid() && |ToUnix(path)| < 0x1_0000
      modifies this, conn, conn.writer, conn.writer.stream, conn.writer.buffer
      modifies conn.reader, conn.reader.stream, conn.reader.buffer, conn.dirListCache
      ensures match OpenRequest(ToUnix(path), PlanFor(d, fileExists, old(readAccess), old(writeAccess)))
              case None => conn.Untouched() && reply == Value(Done(GENERIC_FAILURE))
              case Some(head) => conn.Exchanged(Request(head, []), reply)
      ensures var plan := PlanFor(d, fileExists, old(readAccess), old(writeAccess));
              if reply.Value? then
                && status == Value(StatusAfter(plan, d, fileExists, reply.value))
                && Snapshot() == ContextAfter(plan, old(Snapshot()), reply.value)
              else !status.Value? && handle == old(handle)
    {
      reply := Value(Done(GENERIC_FAILURE));
      var mode: OpenMode := OPEN_ONLY;
      match d {
        case CreateAlways => mode := CREATE_OR_TRUNCATE;
        case CreateNew => mode := CREATE_ALWAYS;
        case OpenAlways =>
          mode := CREATE_IF_NOT_EXIST;
          if !readAccess && !writeAccess && fileExists {
            return Value(NtSuccess), reply;
          }
        case OpenExisting =>
          if !readAccess && !writeAccess && fileExists {
            return Value(NtSuccess), reply;
          }
          if !fileExists {
            return Value(NtNotFound), reply;
          }
          mode := OPEN_ONLY;
        case TruncateExisting => mode := TRUNCATE;
        case UnknownDisposition => return Value(NtUnsuccessful), reply;
      }
      if !readAccess && !writeAccess {
        readAccess := true;
      }
      status, reply := AskForHandle(conn, path, mode, d, fileExists);
    }
  }

  /** `handle_open_handle` on the device, through the packed byte. */
  function RemoteOpen(fs: Fs, head: Head, c: OpenChoice): (r: (Fs, Reply))
    requires fs.Valid() && FairChoice(fs, c) && head.OpenHandle?
  {
    var (m, ra, wa) := UnpackMode(PackMode(head.mode, head.readAccess, head.writeAccess));
    if !ra && !wa then (fs, Done(GENERIC_FAILURE))
    else
      var (fs', errno) := OpenCall(fs, head.path, FlagsFor(m, ra, wa), c);
      (fs', if errno == 0 then Opened(c.fd) else Done(StatusFromErrno(errno)))
  }

  /** Such an open is one the daemon's message loop serves. */
  lemma OpenIsServed(fs: Fs, head: Head, c: OpenChoice)
    requires fs.Valid() && FairChoice(fs, c) && head.OpenHandle?
    ensures var (fs', reply) := RemoteOpen(fs, head, c);
            Serves(fs, Request(head, []), reply, fs')
  {
    PackModeRoundTrip(head.mode, head.readAccess, head.writeAccess);
    hide OpenCall, PackMode, UnpackMode, FlagsFor;
    if head.readAccess || head.writeAccess {
      var out := OpenCall(fs, head.path, FlagsFor(head.mode, head.readAccess, head.writeAccess), c);
      hide Fs.Valid, FairChoice, Serves;
      ServedOpening(fs, head, c, out.0, out.1);
    }
  }

  /** And so is the close of a descriptor. */
  lemma CloseIsServed(fs: Fs, h: u32)
    requires fs.Valid()
    ensures Serves(fs, Request(CloseHandle(h), []), Done(SUCCESS), fs.(fds := fs.fds - {h}))
  {
  }

  datatype CreateResult = CreateResult(fs: Fs, context: Context, status: NtStatus)

  /** A create with the device at the other end. */
  function Create(fs: Fs, path: Text, d: Disposition, there: bool, readAccess: bool, writeAccess: bool, c: OpenChoice): (r: CreateResult)
    requires fs.Valid() && FairChoice(fs, c)
  {
    var plan := PlanFor(d, there, readAccess, writeAccess);
    var (fs', reply) :=
      match OpenRequest(path, plan)
      case None => (fs, Done(GENERIC_FAILURE))
      case Some(head) => RemoteOpen(fs, head, c);
    CreateResult(fs', ContextAfter(plan, Context(NO_HANDLE, readAccess, writeAccess), reply), StatusAfter(plan, d, there, reply))
  }

  // ----- what Windows expects of each disposition -----

  /** A path's content, if it names a file. */
  function FileAt(fs: Fs, p: bytes): seq<bytes>
    requires fs.Valid()
  {
    if p in fs.names then [fs.content[fs.names[p]]] else []
  }

  /** Does Windows treat this result as an open file? */
  predicate Accepted(d: Disposition, st: NtStatus) {
    st == NtSuccess || (st == NtCollision && (d == OpenAlways || d == CreateAlways))
  }

  lemma OpenKeepsAllOthers(fs: Fs, p: bytes, fl: Flags, c: OpenChoice)
    requires fs.Valid() && FairChoice(fs, c)
    ensures forall q :: q != p ==> FileAt(OpenCall(fs, p, fl, c).0, q) == FileAt(fs, q)
  {
  }

  lemma FileAtExists(fs: Fs, p: bytes)
    requires fs.Valid()
    ensures FileAt(fs, p) != [] <==> p in fs.names
  {
  }

  lemma OpenMeans(fs: Fs, p: bytes, fl: Flags, c: OpenChoice)
    requires fs.Valid() && FairChoice(fs, c)
    ensures var (fs', errno) := OpenCall(fs, p, fl, c);
            && fs'.Valid() && (errno == EEXIST ==> Exists(fs, p) && fl.creat && fl.excl)
            && (errno == 0 <==> c.refusal == 0 && p !in fs.dirs && if p in fs.names then !(fl.creat && fl.excl) else fl.creat)
            && (errno == 0 ==> FileAt(fs', p) == if p in fs.names && !fl.trunc then FileAt(fs, p) else [[]])
            && (errno != 0 ==> fs' == fs)
            && (c.refusal != 0 ==> errno == c.refusal)
            && (c.refusal == 0 && p in fs.dirs ==> errno == if fl.creat && fl.excl then EEXIST else EISDIR)
            && (c.refusal == 0 && p in fs.names && errno != 0 ==> errno == EEXIST)
            && (c.refusal == 0 && !Exists(fs, p) && errno != 0 ==> errno == ENOENT)
  {
  }

  /** What an error on the device becomes at the Windows caller. */
  lemma ErrorsReachWindows(errno: int)
    ensures NtFrom(StatusFromErrno(errno)) ==
            if errno == EACCES then NtAccessDenied
            else if errno == ENOENT then NtNotFound
            else if errno == EEXIST then NtCollision
            else if errno == ENOTDIR then NtNotADirectory
            else if errno == ENOTEMPTY then NtDirectoryNotEmpty
            else NtUnsuccessful
  {
  }

  /** Windows: which dispositions succeed on an existing or missing file. */
  predicate ShouldOpen(d: Disposition, there: bool) {
    match d
    case CreateNew => !there
    case OpenExisting => there
    case TruncateExisting => there
    case UnknownDisposition => false
    case _ => true
  }

  /** Windows: what the file holds after a successful create. */
  function Expected(d: Disposition, before: seq<bytes>): seq<bytes> {
    match d
    case OpenExisting => before
    case OpenAlways => if before == [] then [[]] else before
    case _ => [[]]
  }

  /** An existing file that is opened with neither access is not opened on the device at all. */
  predicate Untouching(d: Disposition, there: bool, readAccess: bool, writeAccess: bool) {
    (d == OpenAlways || d == OpenExisting) && there && !readAccess && !writeAccess
  }

  /** For every file system, path, disposition and access, with an accurate existence flag, the
      composition of disposition, open mode, wire byte and POSIX flags means what Windows says: a
      create succeeds exactly when its disposition allows it, the path is no directory, the device
      does not refuse it and the client does not refuse the name; what the file then holds; that
      nothing changes otherwise, and that no other path ever does. */
  lemma DispositionMeaning(fs: Fs, path: Text, d: Disposition, readAccess: bool, writeAccess: bool, c: OpenChoice)
    requires fs.Valid() && FairChoice(fs, c)
    ensures var r := Create(fs, path, d, path in fs.names, readAccess, writeAccess, c);
            && r.fs.Valid()
            && (Accepted(d, r.status) <==>
                || Untouching(d, path in fs.names, readAccess, writeAccess)
                || (ShouldOpen(d, path in fs.names) && path !in fs.dirs && c.refusal == 0 && !IsDesktopIni(path)))
            && (Accepted(d, r.status) ==> FileAt(r.fs, path) == Expected(d, FileAt(fs, path)))
            && (!Accepted(d, r.status) ==> r.fs == fs)
            && forall q :: q != path ==> FileAt(r.fs, q) == FileAt(fs, q)
  {
    hide RemoteOpen, Fs.Valid, FairChoice, IsDesktopIni, FileAt;
    FileAtExists(fs, path);
    var request := OpenRequest(path, PlanFor(d, path in fs.names, readAccess, writeAccess));
    if request.Some? {
      RemoteOpenMeans(fs, request.value, c);
    }
  }

  /** An open as it arrives at the device: when it succeeds, and what it does to every file. */
  lemma RemoteOpenMeans(fs: Fs, head: Head, c: OpenChoice)
    requires fs.Valid() && FairChoice(fs, c) && head.OpenHandle? && (head.readAccess || head.writeAccess)
    ensures var (fs', reply) := RemoteOpen(fs, head, c);
            var fl := FlagsFor(head.mode, head.readAccess, head.writeAccess);
            var there := head.path in fs.names;
            && fs'.Valid()
            && (reply.Opened? <==>
                c.refusal == 0 && head.path !in fs.dirs && if there then !(fl.creat && fl.excl) else fl.creat)
            && (reply.Opened? ==> FileAt(fs', head.path) == if there && !fl.trunc then FileAt(fs, head.path) else [[]])
            && (!reply.Opened? ==> fs' == fs && reply.Done? && reply.status != SUCCESS)
            && (reply.Done? && reply.status == FILE_EXISTS ==> fl.creat && fl.excl)
            && forall q :: q != head.path ==> FileAt(fs', q) == FileAt(fs, q)
  {
    hide OpenCall, PackMode, UnpackMode, Fs.Valid, FairChoice, FileAt, FlagsFor;
    var fl := FlagsFor(head.mode, head.readAccess, head.writeAccess);
    PackModeRoundTrip(head.mode, head.readAccess, head.writeAccess);
    OpenMeans(fs, head.path, fl, c);
    OpenKeepsAllOthers(fs, head.path, fl, c);
    ErrnoNeverSucceeds(OpenCall(fs, head.path, fl, c).1);
  }

  /** The status a create reports, case by case. */
  lemma StatusMeaning(fs: Fs, path: Text, d: Disposition, readAccess: bool, writeAccess: bool, c: OpenChoice)
    requires fs.Valid() && FairChoice(fs, c)
    ensures var there := path in fs.names;
            Create(fs, path, d, there, readAccess, writeAccess, c).status ==
            if d == UnknownDisposition then NtUnsuccessful
            else if Untouching(d, there, readAccess, writeAccess) then NtSuccess
            else if d == OpenExisting && !there then NtNotFound
            else if IsDesktopIni(path) then NtUnsuccessful
            else if c.refusal != 0 then NtFrom(StatusFromErrno(c.refusal))
            else if path in fs.dirs then if d == CreateNew then NtCollision else NtUnsuccessful
            else if d == CreateNew && there then NtCollision
            else if d == TruncateExisting && !there then NtNotFound
            else if there && (d == OpenAlways || d == CreateAlways) then NtCollision
            else NtSuccess
  {
    hide OpenCall, PackMode, UnpackMode, Fs.Valid, FairChoice, IsDesktopIni, FileAt;
    var ra := readAccess || (!readAccess && !writeAccess);
    PackModeRoundTrip(ModeFor(d), ra, writeAccess);
    OpenMeans(fs, path, FlagsFor(ModeFor(d), ra, writeAccess), c);
    NotBoth(fs, path);
  }

  lemma NotBoth(fs: Fs, path: bytes)
    requires fs.Valid()
    ensures path in fs.dirs ==> path !in fs.names
  {
  }

  // ----- what a create does to the descriptor table -----

  /** The context's descriptor is open with the context's access. */
  predicate Matches(fs: Fs, ctx: Context) {
    && ctx.handle in fs.fds
    && fs.fds[ctx.handle].readable == ctx.readAccess && fs.fds[ctx.handle].writable == ctx.writeAccess
  }

  lemma RemoteOpenOpens(fs: Fs, head: Head, c: OpenChoice)
    requires fs.Valid() && FairChoice(fs, c) && head.OpenHandle?
    ensures var (fs', reply) := RemoteOpen(fs, head, c);
            && fs'.Valid()
            && (!reply.Opened? ==> fs' == fs && reply.Done? && reply.status != SUCCESS)
            && (reply == Done(FILE_EXISTS) ==> head.mode == CREATE_ALWAYS)
            && (reply.Opened? ==>
                && reply.handle != NO_HANDLE && reply.handle !in fs.fds
                && fs'.fds.Keys == fs.fds.Keys + {reply.handle}
                && (forall x :: x in fs.fds ==> fs'.fds[x] == fs.fds[x])
                && Matches(fs', Context(reply.handle, head.readAccess, head.writeAccess)))
  {
    PackModeRoundTrip(head.mode, head.readAccess, head.writeAccess);
    hide PackMode, UnpackMode;
    var errno := OpenCall(fs, head.path, FlagsFor(head.mode, head.readAccess, head.writeAccess), c).1;
    ErrnoNeverSucceeds(errno);
  }

  /** A create opens at most one descriptor; it is the one in the context, with the context's
      access; and a create that opens nothing leaves the sentinel. */
  lemma CreateOpens(fs: Fs, path: Text, d: Disposition, there: bool, readAccess: bool, writeAccess: bool, c: OpenChoice)
    requires fs.Valid() && FairChoice(fs, c)
    ensures var r := Create(fs, path, d, there, readAccess, writeAccess, c);
            && r.fs.Valid()
            && (r.context.handle == NO_HANDLE ==> r.fs == fs)
            && r.context.writeAccess == writeAccess && (readAccess ==> r.context.readAccess)
            && (r.context.readAccess && !readAccess ==> !writeAccess)
            && (Accepted(d, r.status) && !Untouching(d, there, readAccess, writeAccess) ==> r.context.handle != NO_HANDLE)
            && (r.context.handle != NO_HANDLE ==>
                && Accepted(d, r.status)
                && r.context.handle !in fs.fds
                && r.fs.fds.Keys == fs.fds.Keys + {r.context.handle}
                && (forall x :: x in fs.fds ==> r.fs.fds[x] == fs.fds[x])
                && Matches(r.fs, r.context))
  {
    var request := OpenRequest(path, PlanFor(d, there, readAccess, writeAccess));
    hide RemoteOpen, Fs.Valid, FairChoice, IsDesktopIni;
    if request.Some? {
      RemoteOpenOpens(fs, request.value, c);
    }
  }

  /** The client never reaches the daemon's refusal of an open with neither access: whatever the
      disposition, the access and the existence flag, an open that is sent asks for some access, and
      so it reads when the daemon decodes it. */
  lemma NeitherAccessNeverSent(path: Text, d: Disposition, there: bool, readAccess: bool, writeAccess: bool, rest: bytes)
    ensures match OpenRequest(path, PlanFor(d, there, readAccess, writeAccess))
            case None => true
            case Some(head) =>
              var p := ParseHead(EncHead(head) + rest);
              p.Got? && p.value.OpenHandle? && p.value.path == path && (p.value.readAccess || p.value.writeAccess)
  {
    var request := OpenRequest(path, PlanFor(d, there, readAccess, writeAccess));
    if request.Some? {
      HeadRoundTrip(request.value, rest);
    }
  }

  // ----- create_file as a whole -----

  datatype StatOutcome = Missing | RegularFile | Directory | StatError(status: Status)

  function OutcomeOf(reply: Reply): StatOutcome {
    match reply
    case Statted(stat) => if IsDirectoryMode(stat.mode) then Directory else RegularFile
    case Done(st) => if st == FILE_NOT_FOUND then Missing else StatError(st)
    case _ => StatError(GENERIC_FAILURE)
  }

  /** The existence flag a create goes by is accurate when its stat is served. */
  lemma StatIsAccurate(fs: Fs, path: Text, reply: Reply, fs': Fs)
    requires Serves(fs, Request(StatFile(path), []), reply, fs') && !Dotted(path)
    ensures fs' == fs
    ensures OutcomeOf(reply).RegularFile? ==> path in fs.names
    ensures OutcomeOf(reply).Directory? ==> path in fs.dirs
    ensures OutcomeOf(reply).Missing? ==> !Exists(fs, path)
    ensures forall st :: reply == Done(st) && st != FILE_NOT_FOUND ==> OutcomeOf(reply) == StatError(st)
  {
  }

  /** What `create_file` answers for directories, with an accurate stat: an existing one is opened, or
      refused to a caller that wants a file; one is made where nothing is; and the statuses of a
      missing one and of a file in its place. Nothing else changes. */
  lemma DirectoryMeaning(fs: Fs, a: CreateArgs, c: OpenChoice)
    requires fs.Valid() && FairChoice(fs, c) && !a.stat.StatError? && (a.stat.Directory? || a.wantsDirectory)
    requires (a.stat.Directory? <==> a.path in fs.dirs) && (a.stat.RegularFile? <==> a.path in fs.names)
    ensures var r := CreateEntry(fs, a, c);
            var makes := a.disposition == CreateNew || a.disposition == CreateAlways || a.disposition == OpenAlways;
            if a.stat.Directory? && a.refusesDirectory then r.fs == fs && r.status == NtFileIsADirectory
            else if !makes then
              && r.fs == fs
              && r.status == (if a.path in fs.dirs then NtSuccess else if a.path in fs.names then NtNotADirectory else NtNotFound)
            else if a.dirStatus != SUCCESS then r.fs == fs && r.status == NtFrom(a.dirStatus)
            else if Exists(fs, a.path) then r.fs == fs && r.status == NtCollision
            else r.fs == fs.(dirs := fs.dirs + {a.path}) && r.status == NtSuccess
  {
    hide Create;
  }

  datatype CreateArgs = CreateArgs(path: Text, stat: StatOutcome, wantsDirectory: bool, refusesDirectory: bool,
                                   disposition: Disposition, readAccess: bool, writeAccess: bool, dirStatus: Status)

  /** The only dispositions that make a new directory. */
  predicate MakesDirectory(d: Disposition) {
    d == OpenAlways || d == CreateNew || d == CreateAlways
  }

  /** `mkdir` on the device, refused with `status` or because the name is taken. */
  function RemoteMakeDirectory(fs: Fs, path: bytes, status: Status): (Fs, Reply) {
    if status != SUCCESS then (fs, Done(status))
    else if Exists(fs, path) then (fs, Done(FILE_EXISTS))
    else (fs.(dirs := fs.dirs + {path}), Done(SUCCESS))
  }

  /** `create_file`: stat first, then the directory or the file path. Only the file path can open a
      descriptor. */
  function CreateEntry(fs: Fs, a: CreateArgs, c: OpenChoice): (r: CreateResult)
    requires fs.Valid() && FairChoice(fs, c)
  {
    var idle := Context(NO_HANDLE, a.readAccess, a.writeAccess);
    if a.stat.StatError? then CreateResult(fs, idle, NtFrom(a.stat.status))
    else if a.stat.Directory? && a.refusesDirectory then CreateResult(fs, idle, NtFileIsADirectory)
    else if a.stat.Directory? || a.wantsDirectory then
      if MakesDirectory(a.disposition) then
        var (fs', reply) := RemoteMakeDirectory(fs, a.path, a.dirStatus);
        CreateResult(fs', idle, if reply.Done? then NtFrom(reply.status) else NtUnsuccessful)
      else if a.stat.Directory? then CreateResult(fs, idle, NtSuccess)
      else if a.stat.Missing? then CreateResult(fs, idle, NtNotFound)
      else CreateResult(fs, idle, NtNotADirectory)
    else Create(fs, a.path, a.disposition, a.stat.RegularFile?, a.readAccess, a.writeAccess, c)
  }

  /** The request a `create_file` sends after its stat, if it sends one. */
  function EntryRequest(a: CreateArgs): Option<Head> {
    if a.stat.StatError? || (a.stat.Directory? && a.refusesDirectory) then None
    else if a.stat.Directory? || a.wantsDirectory then
      if MakesDirectory(a.disposition) then Some(CreateDirectory(a.path)) else None
    else OpenRequest(a.path, PlanFor(a.disposition, a.stat.RegularFile?, a.readAccess, a.writeAccess))
  }

  lemma DirectoryIsServed(fs: Fs, path: Text, status: Status)
    requires fs.Valid()
    ensures var (fs', reply) := RemoteMakeDirectory(fs, path, status);
            Serves(fs, Request(CreateDirectory(path), []), reply, fs') && fs'.fds == fs.fds
  {
    var (fs', reply) := RemoteMakeDirectory(fs, path, status);
    ServedNaming(fs, CreateDirectory(path), reply, fs');
  }

  // ----- every run -----

  /** A file object of Windows: its create is running, its create has been served but not returned,
      it is open, or its close is running. */
  datatype Slot =
    | Creating
    | Granted(context: Context, accepted: bool)
    | Live(context: Context)
    | Closing(context: Context)

  /** `inStep`: no write has left its payload in the stream, so every exchange serves its own request
      and returns that request's reply (`Exchange.ExchangeIsAtomic`). */
  datatype State = State(fs: Fs, slots: map<nat, Slot>, inStep: bool)

  datatype Step =
    | BeginCreate(id: nat)
    | ServeCreate(id: nat, args: CreateArgs, choice: OpenChoice)
    | ReturnCreate(id: nat)
    | ReadFile(id: nat, dataLen: u32, offset: u64, reply: Reply, fs: Fs)
    | WriteFile(id: nat, offset: u64, payload: bytes, reply: Reply, fs: Fs)
    | OtherRequest(request: Request, reply: Reply, fs: Fs)   // anything but an open or a close
    | BeginClose(id: nat)
    | ServeClose(id: nat)

  predicate HasHandle(slot: Slot) {
    !slot.Creating? && slot.context.handle != NO_HANDLE
  }

  /** Requests on open handles move offsets and change contents; the table keeps its entries. */
  ghost predicate SameTable(a: Fs, b: Fs) {
    && b.Valid() && a.fds.Keys == b.fds.Keys
    && forall h :: h in a.fds ==> a.fds[h].readable == b.fds[h].readable && a.fds[h].writable == b.fds[h].writable
  }

  /** Whatever the daemon serves, other than an open or a close, is such a request. */
  lemma ServedKeepsTable(fs: Fs, r: Request, reply: Reply, fs': Fs)
    requires fs.Valid() && Serves(fs, r, reply, fs') && !r.head.OpenHandle? && !r.head.CloseHandle?
    ensures SameTable(fs, fs')
  {
    hide Wrote, NamingServed, Fits, Splice, Resize, OpenCall, FairChoice;
    if r.head.WriteHandle? && SeekOk(fs, r.head.handle, r.head.offset) {
      var k: nat :| k <= |r.payload| && Wrote(fs, r.head.handle, r.head.offset, r.payload[..k], fs');
      WroteParts(fs, r.head.handle, r.head.offset, r.payload[..k], fs');
    } else if NamingServed(fs, r.head, reply, fs') {
      NamingKeeps(fs, r.head, reply, fs');
    }
  }

  /** `read_file` and `write_file` send a request only if the context allows it. */
  predicate SendsRead(s: State, id: nat) {
    id in s.slots && s.slots[id].Live? && s.slots[id].context.readAccess && s.slots[id].context.handle != NO_HANDLE
  }

  predicate SendsWrite(s: State, id: nat) {
    id in s.slots && s.slots[id].Live? && s.slots[id].context.writeAccess && s.slots[id].context.handle != NO_HANDLE
  }

  /** The write a step sends, if it sends one, is sought successfully or carries no data. */
  predicate SeekHypothesis(s: State, step: Step) {
    match step
    case WriteFile(id, offset, payload, _, _) => SendsWrite(s, id) && payload != [] ==> SeekOk(s.fs, s.slots[id].context.handle, offset)
    case OtherRequest(r, _, _) => PayloadLength(r.head) > 0 ==> SeekOk(s.fs, r.head.handle, r.head.offset)
    case _ => true
  }

  /** As long as client and daemon are in step each request is served as one atomic step, and a write
      whose seek fails with data puts them out of step for good. */
  ghost predicate Next(s: State, step: Step, t: State) {
    if s.inStep then Served(s, step, t) && (t.inStep <==> SeekHypothesis(s, step))
    else Garbled(s, step, t) && !t.inStep
  }

  ghost predicate Served(s: State, step: Step, t: State) {
    match step
    case BeginCreate(id) => id !in s.slots && t.fs == s.fs && t.slots == s.slots[id := Creating]
    case ServeCreate(id, a, c) =>
      && id in s.slots && s.slots[id].Creating? && s.fs.Valid() && FairChoice(s.fs, c)
      && var r := CreateEntry(s.fs, a, c);
      && t.fs == r.fs && t.slots == s.slots[id := Granted(r.context, Accepted(a.disposition, r.status))]
    case ReturnCreate(id) => t.fs == s.fs && Returned(s, id, t)
    case ReadFile(id, n, offset, reply, fs) =>
      && SendsRead(s, id) && t.fs == fs && t.slots == s.slots
      && Serves(s.fs, Request(ReadHandle(s.slots[id].context.handle, n, offset), []), reply, fs)
    case WriteFile(id, offset, payload, reply, fs) =>
      && SendsWrite(s, id) && t.fs == fs && t.slots == s.slots && |payload| < TWO32
      && Serves(s.fs, Request(WriteHandle(s.slots[id].context.handle, offset, |payload|), payload), reply, fs)
    case OtherRequest(r, reply, fs) =>
      !r.head.OpenHandle? && !r.head.CloseHandle? && Serves(s.fs, r, reply, fs) && t.fs == fs && t.slots == s.slots
    case BeginClose(id) =>
      id in s.slots && s.slots[id].Live? && t.fs == s.fs && t.slots == s.slots[id := Closing(s.slots[id].context)]
    case ServeClose(id) =>
      && id in s.slots && s.slots[id].Closing?
      && var h := s.slots[id].context.handle;
      && t.fs == (if h == NO_HANDLE then s.fs else s.fs.(fds := s.fs.fds - {h})) && t.slots == s.slots - {id}
  }

  /** Out of step nothing is said about what a request does or what its reply means: the daemon may
      serve stray bytes, and a context may hold whatever a stray reply brought. */
  ghost predicate Garbled(s: State, step: Step, t: State) {
    && t.fs.Valid()
    && match step
       case BeginCreate(id) => id !in s.slots && t.slots == s.slots[id := Creating]
       case ServeCreate(id, _, _) =>
         id in s.slots && s.slots[id].Creating? && id in t.slots && t.slots[id].Granted? && t.slots == s.slots[id := t.slots[id]]
       case ReturnCreate(id) => Returned(s, id, t)
       case BeginClose(id) => id in s.slots && s.slots[id].Live? && t.slots == s.slots[id := Closing(s.slots[id].context)]
       case ServeClose(id) => id in s.slots && s.slots[id].Closing? && t.slots == s.slots - {id}
       case _ => t.slots == s.slots
  }

  ghost predicate Returned(s: State, id: nat, t: State) {
    && id in s.slots && s.slots[id].Granted?
    && t.slots == if s.slots[id].accepted then s.slots[id := Live(s.slots[id].context)] else s.slots - {id}
  }

  /** The descriptors the client holds. */
  function Held(s: State): set<nat> {
    set id | id in s.slots && HasHandle(s.slots[id]) :: s.slots[id].context.handle
  }

  /** No two file objects share a descriptor. */
  ghost predicate Distinct(s: State) {
    forall i, j :: i in s.slots && j in s.slots && i != j && HasHandle(s.slots[i]) && HasHandle(s.slots[j]) ==>
      s.slots[i].context.handle != s.slots[j].context.handle
  }

  /** `own` are descriptors the daemon holds for itself. */
  ghost predicate Inv(s: State, own: set<nat>) {
    && s.inStep && s.fs.Valid()
    && s.fs.fds.Keys == own + Held(s) && own !! Held(s)
    && Distinct(s)
    && (forall i :: i in s.slots && HasHandle(s.slots[i]) ==> Matches(s.fs, s.slots[i].context))
    && (forall i :: i in s.slots && s.slots[i].Granted? && HasHandle(s.slots[i]) ==> s.slots[i].accepted)
  }

  function HandleOf(slot: Slot): set<nat> {
    if HasHandle(slot) then {slot.context.handle} else {}
  }

  /** Handles held by the other file objects. */
  function HeldElsewhere(s: State, id: nat): set<nat> {
    set i | i in s.slots && i != id && HasHandle(s.slots[i]) :: s.slots[i].context.handle
  }

  lemma HeldSplits(s: State, id: nat)
    requires id in s.slots
    ensures Held(s) == HeldElsewhere(s, id) + HandleOf(s.slots[id])
  {
    forall h | h in Held(s) ensures h in HeldElsewhere(s, id) + HandleOf(s.slots[id]) {
      var i :| i in s.slots && HasHandle(s.slots[i]) && s.slots[i].context.handle == h;
    }
  }

  lemma HeldWithout(s: State, id: nat)
    ensures HeldElsewhere(s, id) == Held(s.(slots := s.slots - {id}))
  {
    var t := s.(slots := s.slots - {id});
    forall h | h in HeldElsewhere(s, id) ensures h in Held(t) {
      var i :| i in s.slots && i != id && HasHandle(s.slots[i]) && s.slots[i].context.handle == h;
      assert i in t.slots;
    }
    forall h | h in Held(t) ensures h in HeldElsewhere(s, id) {
      var i :| i in t.slots && HasHandle(t.slots[i]) && t.slots[i].context.handle == h;
      assert i in s.slots;
    }
  }

  lemma ElsewhereUntouched(s: State, t: State, id: nat)
    requires forall i :: i != id ==> (i in s.slots <==> i in t.slots) && (i in s.slots ==> s.slots[i] == t.slots[i])
    ensures HeldElsewhere(s, id) == HeldElsewhere(t, id)
  {
    forall h | h in HeldElsewhere(s, id) ensures h in HeldElsewhere(t, id) {
      var i :| i in s.slots && i != id && HasHandle(s.slots[i]) && s.slots[i].context.handle == h;
      assert t.slots[i] == s.slots[i];
    }
    forall h | h in HeldElsewhere(t, id) ensures h in HeldElsewhere(s, id) {
      var i :| i in t.slots && i != id && HasHandle(t.slots[i]) && t.slots[i].context.handle == h;
      assert t.slots[i] == s.slots[i];
    }
  }

  /** A file object's descriptor is its own. */
  lemma NotElsewhere(s: State, own: set<nat>, id: nat)
    requires Inv(s, own) && id in s.slots
    ensures HandleOf(s.slots[id]) !! HeldElsewhere(s, id)
  {
  }

  lemma BeginCreateKeeps(s: State, own: set<nat>, id: nat, t: State)
    requires Inv(s, own) && Next(s, BeginCreate(id), t)
    ensures Inv(t, own)
  {
    ElsewhereUntouched(s, t, id);
    HeldSplits(t, id);
    HeldWithout(s, id);
    assert s.slots - {id} == s.slots;
  }

  lemma ServeCreateKeeps(s: State, own: set<nat>, step: Step, t: State)
    requires Inv(s, own) && Next(s, step, t) && step.ServeCreate?
    ensures Inv(t, own)
  {
    EntryOpens(s.fs, step.args, step.choice);
    hide CreateEntry, Fs.Valid, FairChoice, Inv, Matches, Accepted;
    GrantKeeps(s, own, step.id, t);
  }

  /** A `create_file` as a whole, directories included, opens at most one descriptor, the one in its
      context, with the context's access. */
  lemma EntryOpens(fs: Fs, a: CreateArgs, c: OpenChoice)
    requires fs.Valid() && FairChoice(fs, c)
    ensures var r := CreateEntry(fs, a, c);
            && r.fs.Valid()
            && (r.context.handle == NO_HANDLE ==> r.fs.fds == fs.fds)
            && (r.context.handle != NO_HANDLE ==>
                && Accepted(a.disposition, r.status)
                && r.context.handle !in fs.fds
                && r.fs.fds.Keys == fs.fds.Keys + {r.context.handle}
                && (forall x :: x in fs.fds ==> r.fs.fds[x] == fs.fds[x])
                && Matches(r.fs, r.context))
  {
    hide Create, RemoteMakeDirectory, Fs.Valid, FairChoice, Matches, Accepted, Serves, NtFrom;
    var (made, reply) := RemoteMakeDirectory(fs, a.path, a.dirStatus);
    DirectoryIsServed(fs, a.path, a.dirStatus);
    ServesValid(fs, Request(CreateDirectory(a.path), []), reply, made);
    CreateOpens(fs, a.path, a.disposition, a.stat.RegularFile?, a.readAccess, a.writeAccess, c);
  }

  /** Giving a file object at most one new descriptor, with its own access. */
  lemma GrantKeeps(s: State, own: set<nat>, id: nat, t: State)
    requires Inv(s, own) && id in s.slots && s.slots[id].Creating? && t.fs.Valid()
    requires t.inStep && id in t.slots && t.slots == s.slots[id := t.slots[id]] && t.slots[id].Granted?
    requires !HasHandle(t.slots[id]) ==> t.fs.fds == s.fs.fds
    requires HasHandle(t.slots[id]) ==>
               var h := t.slots[id].context.handle;
               && t.slots[id].accepted && h !in s.fs.fds && t.fs.fds.Keys == s.fs.fds.Keys + {h}
               && (forall x :: x in s.fs.fds ==> t.fs.fds[x] == s.fs.fds[x]) && Matches(t.fs, t.slots[id].context)
    ensures Inv(t, own)
  {
    hide Fs.Valid;
    ElsewhereUntouched(s, t, id);
    HeldSplits(s, id);
    HeldSplits(t, id);
    forall i | i in t.slots && i != id && HasHandle(t.slots[i])
      ensures Matches(t.fs, t.slots[i].context)
      ensures HasHandle(t.slots[id]) ==> t.slots[i].context.handle != t.slots[id].context.handle
    {
      assert t.slots[i] == s.slots[i];
      assert s.slots[i].context.handle in Held(s);
    }
  }

  lemma SlotStepKeeps(s: State, own: set<nat>, step: Step, t: State)
    requires Inv(s, own) && Next(s, step, t) && (step.ReturnCreate? || step.BeginClose?)
    ensures Inv(t, own)
  {
    hide Fs.Valid;
    var id := step.id;
    ElsewhereUntouched(s, t, id);
    HeldSplits(s, id);
    if id in t.slots {
      HeldSplits(t, id);
    } else {
      HeldWithout(t, id);
      assert t.slots - {id} == t.slots;
    }
  }

  lemma UseKeeps(s: State, own: set<nat>, step: Step, t: State)
    requires Inv(s, own) && Next(s, step, t) && (step.ReadFile? || step.WriteFile? || step.OtherRequest?)
    requires SeekHypothesis(s, step)
    ensures Inv(t, own)
  {
    hide Serves, Fs.Valid;
    match step {
      case ReadFile(id, n, offset, reply, fs) =>
        ServedKeepsTable(s.fs, Request(ReadHandle(s.slots[id].context.handle, n, offset), []), reply, fs);
      case WriteFile(id, offset, payload, reply, fs) =>
        ServedKeepsTable(s.fs, Request(WriteHandle(s.slots[id].context.handle, offset, |payload|), payload), reply, fs);
      case OtherRequest(r, reply, fs) => ServedKeepsTable(s.fs, r, reply, fs);
    }
    assert Held(t) == Held(s);
  }

  /** A close is served once, on a descriptor that is open and belongs to this file object alone;
      afterwards it is gone and every other descriptor is untouched. */
  lemma ServeCloseKeeps(s: State, own: set<nat>, id: nat, t: State)
    requires Inv(s, own) && Next(s, ServeClose(id), t)
    ensures Inv(t, own)
    ensures var h := s.slots[id].context.handle;
            h != NO_HANDLE ==>
              && Serves(s.fs, Request(CloseHandle(h), []), Done(SUCCESS), t.fs)
              && h in s.fs.fds && h !in t.fs.fds && h !in own
              && t.fs.fds.Keys == s.fs.fds.Keys - {h}
              && (forall i :: i in s.slots && i != id && HasHandle(s.slots[i]) ==> s.slots[i].context.handle != h)
  {
    HeldSplits(s, id);
    NotElsewhere(s, own, id);
    HeldWithout(s, id);
    CloseIsServed(s.fs, s.slots[id].context.handle);
    hide Serves;
    assert Held(t) == HeldElsewhere(s, id);
  }

  datatype Run = Run(states: seq<State>, steps: seq<Step>) {
    /** A run starts with nothing open for the client. */
    ghost predicate Valid() {
      && |states| == |steps| + 1 && states[0].slots == map[] && states[0].fs.Valid()
      && states[0].inStep && forall i :: 0 <= i < |steps| ==> Next(states[i], steps[i], states[i + 1])
    }

    predicate SeeksSucceed() {
      |states| == |steps| + 1 && forall i :: 0 <= i < |steps| ==> SeekHypothesis(states[i], steps[i])
    }
  }

  /** At every point of every run in which each write is sought successfully or carries no data, the
      descriptors open for the client are exactly the non-sentinel handles of the file objects not
      yet closed, no two of which share one. Without that proviso it fails in the run of
      `Exchange.StrandedByteMisleads`. */
  lemma {:induction false} DescriptorsAreHandles(run: Run, i: nat)
    requires run.Valid() && run.SeeksSucceed() && i < |run.states|
    ensures Inv(run.states[i], run.states[0].fs.fds.Keys)
  {
    hide Inv, Next, SeekHypothesis, Fs.Valid;
    if i == 0 {
      NothingHeld(run.states[0]);
    } else {
      DescriptorsAreHandles(run, i - 1);
      var s, step, t, own := run.states[i - 1], run.steps[i - 1], run.states[i], run.states[0].fs.fds.Keys;
      assert Next(s, step, t) && SeekHypothesis(s, step);
      hide Run.Valid, Run.SeeksSucceed;
      match step {
        case BeginCreate(id) => BeginCreateKeeps(s, own, id, t);
        case ServeCreate(_, _, _) => ServeCreateKeeps(s, own, step, t);
        case ReturnCreate(_) => SlotStepKeeps(s, own, step, t);
        case BeginClose(_) => SlotStepKeeps(s, own, step, t);
        case ReadFile(_, _, _, _, _) => UseKeeps(s, own, step, t);
        case WriteFile(_, _, _, _, _) => UseKeeps(s, own, step, t);
        case OtherRequest(_, _, _) => UseKeeps(s, own, step, t);
        case ServeClose(id) => ServeCloseKeeps(s, own, id, t);
      }
    }
  }

  lemma NothingHeld(s: State)
    requires s.slots == map[] && s.fs.Valid() && s.inStep
    ensures Inv(s, s.fs.fds.Keys)
  {
  }

  /** In every such run, reads and writes only send handles the daemon opened with the matching access,
      and these are never the daemon's own descriptors. */
  lemma RequestsUseMatchingAccess(run: Run, i: nat, id: nat)
    requires run.Valid() && run.SeeksSucceed() && i < |run.states|
    ensures var s := run.states[i];
            && (SendsRead(s, id) ==> var h := s.slots[id].context.handle;
                  h in s.fs.fds && s.fs.fds[h].readable && h !in run.states[0].fs.fds)
            && (SendsWrite(s, id) ==> var h := s.slots[id].context.handle;
                  h in s.fs.fds && s.fs.fds[h].writable && h !in run.states[0].fs.fds)
  {
    DescriptorsAreHandles(run, i);
    var s := run.states[i];
    if SendsRead(s, id) || SendsWrite(s, id) {
      assert HasHandle(s.slots[id]);
      assert s.slots[id].context.handle in Held(s);
    }
  }

  /** In every such run, a create either leaves the device alone or does what the daemon does for the
      one request it sends after its stat, and if that is an open, it asks for some access. */
  lemma CreatesAskForAccess(run: Run, i: nat)
    requires run.Valid() && run.SeeksSucceed() && i < |run.steps| && run.steps[i].ServeCreate?
    ensures var s, t, step := run.states[i], run.states[i + 1], run.steps[i];
            match EntryRequest(step.args)
            case None => t.fs == s.fs
            case Some(head) =>
              && (head.CreateDirectory? || (head.OpenHandle? && (head.readAccess || head.writeAccess)))
              && exists reply :: Serves(s.fs, Request(head, []), reply, t.fs)
  {
    var s, step, t := run.states[i], run.steps[i], run.states[i + 1];
    DescriptorsAreHandles(run, i);
    assert Next(s, step, t);
    hide Run.Valid, Run.SeeksSucceed, Serves, RemoteOpen, RemoteMakeDirectory, IsDesktopIni, Fs.Valid, FairChoice;
    var request := EntryRequest(step.args);
    if request.Some? && request.value.OpenHandle? {
      OpenIsServed(s.fs, request.value, step.choice);
    } else if request.Some? {
      DirectoryIsServed(s.fs, step.args.path, step.args.dirStatus);
    }
  }
}
