/** The wire format: every request head, its payload, and every reply, as pure encoders
    and parsers, with the round trips that make the stream self-delimiting. */
module Messages {
  import opened Bits
  import opened Wire

  /** A path or name as it travels: at most 65535 bytes behind a 16-bit length. */
  type Text = s: bytes | |s| < 0x1_0000

  /** The low six bits of the packed mode byte. */
  type OpenMode = m: int | 0 <= m < 64
  const OPEN_ONLY: OpenMode := 0
  const CREATE_IF_NOT_EXIST: OpenMode := 1
  const TRUNCATE: OpenMode := 2
  const CREATE_OR_TRUNCATE: OpenMode := 3
  const CREATE_ALWAYS: OpenMode := 4

  type Status = byte
  const SUCCESS: Status := 0
  const GENERIC_FAILURE: Status := 1
  const ACCESS_DENIED: Status := 2
  const NOT_A_DIRECTORY: Status := 3
  const NOT_A_FILE: Status := 4
  const FILE_NOT_FOUND: Status := 5
  const FILE_EXISTS: Status := 6
  const DIRECTORY_NOT_EMPTY: Status := 7
  const NO_MORE_ENTRIES: Status := 8

  datatype FileStat = FileStat(mode: u16, size: u64, accessTime: u64, writeTime: u64)
  datatype DiskStats = DiskStats(freeBytes: u64, availableBytes: u64, totalBytes: u64)

  /** A request type with its argument struct; a WriteHandle head announces its payload. */
  datatype Head =
    | StatFile(path: Text)
    | ListDirectory(path: Text)
    | CreateDirectory(path: Text)
    | CheckRemoveFile(path: Text)
    | CheckRemoveDirectory(path: Text)
    | RemoveFile(path: Text)
    | RemoveDirectory(path: Text)
    | MoveEntry(fromPath: Text, toPath: Text, overwrite: bool)
    | OpenHandle(path: Text, mode: OpenMode, readAccess: bool, writeAccess: bool)
    | CloseHandle(handle: u32)
    | ReadHandle(handle: u32, dataLen: u32, offset: u64)
    | WriteHandle(handle: u32, offset: u64, dataLen: u32)
    | TruncateHandle(handle: u32, newLength: u64)
    | SetFileTime(path: Text, accessTime: i64, writeTime: i64)
    | GetDiskStats

  /** A whole request: its head and the bytes that follow it. */
  datatype Request = Request(head: Head, payload: bytes) {
    predicate Valid() {
      |payload| == if head.WriteHandle? then head.dataLen else 0
    }
  }

  datatype Entry = Listed(name: Text, stat: FileStat) | Skipped(status: Status)

  datatype Reply =
    | Done(status: Status)
    | Statted(stat: FileStat)
    | Listing(entries: seq<Entry>)
    | Opened(handle: u32)
    | Data(content: bytes)
    | Disk(stats: DiskStats)

  predicate EntryFits(e: Entry) {
    e.Skipped? ==> e.status != SUCCESS && e.status != NO_MORE_ENTRIES
  }

  /** The reply forms the protocol allows for each request type. */
  predicate Fits(head: Head, reply: Reply) {
    match reply
    case Statted(_) => head.StatFile?
    case Listing(es) => head.ListDirectory? && forall e :: e in es ==> EntryFits(e)
    case Opened(_) => head.OpenHandle?
    case Data(d) => head.ReadHandle? && |d| <= head.dataLen
    case Disk(_) => head.GetDiskStats?
    case Done(st) =>
      head.StatFile? || head.ListDirectory? || head.OpenHandle? || head.ReadHandle? || head.GetDiskStats?
      ==> st != SUCCESS
  }

  // ----- fields -----

  /** How one field travels: an integer of some width, or bytes behind a length of some width. */
  datatype Kind = Num(width: nat) | Block(width: nat)
  datatype Field = Number(v: nat) | Chunk(data: bytes)

  const U8 := Num(1)
  const U16 := Num(2)
  const U32 := Num(4)
  const U64 := Num(8)
  const TEXT := Block(2)
  const BLOB := Block(4)

  ghost predicate OfKind(k: Kind, f: Field) {
    match k
    case Num(w) => f.Number? && f.v < Pow256(w)
    case Block(w) => f.Chunk? && |f.data| < Pow256(w)
  }

  ghost predicate Conforms(ks: seq<Kind>, fs: seq<Field>) {
    |ks| == |fs| && forall i :: 0 <= i < |ks| ==> OfKind(ks[i], fs[i])
  }

  function EncField(k: Kind, f: Field): bytes {
    match f
    case Number(v) => BigEndian(v, k.width)
    case Chunk(d) => BigEndian(|d|, k.width) + d
  }

  function EncFields(ks: seq<Kind>, fs: seq<Field>): bytes
    requires |ks| == |fs|
  {
    if ks == [] then [] else EncField(ks[0], fs[0]) + EncFields(ks[1..], fs[1..])
  }

  /** Result of parsing the front of a byte sequence: too few bytes, an unknown request
      type, or a value and what follows it. */
  datatype Parsed<+T> = Short | Unknown | Got(value: T, rest: bytes) {
    predicate IsFailure() { !Got? }
    function PropagateFailure<U>(): Parsed<U> requires IsFailure() { if Short? then Short else Unknown }
    function Extract(): (T, bytes) requires Got? { (value, rest) }
  }

  function ParseRaw(n: nat, bs: bytes): Parsed<bytes> {
    if |bs| < n then Short else Got(bs[..n], bs[n..])
  }

  function ParseField(k: Kind, bs: bytes): (p: Parsed<Field>)
    ensures p.Got? ==> OfKind(k, p.value) && |p.rest| <= |bs|
    ensures !p.Unknown?
  {
    var (raw, r) :- ParseRaw(k.width, bs);
    FromBigEndianRoundTrip(raw);
    if k.Num? then Got(Number(FromBigEndian(raw)), r)
    else
      var (d, rest) :- ParseRaw(FromBigEndian(raw), r);
      Got(Chunk(d), rest)
  }

  function ParseFields(ks: seq<Kind>, bs: bytes): (p: Parsed<seq<Field>>)
    ensures p.Got? ==> Conforms(ks, p.value) && |p.rest| <= |bs|
    ensures !p.Unknown?
  {
    if ks == [] then Got([], bs)
    else
      var (f, r) :- ParseField(ks[0], bs);
      var (fs, rest) :- ParseFields(ks[1..], r);
      Got([f] + fs, rest)
  }

  lemma RawRoundTrip(s: bytes, rest: bytes)
    ensures ParseRaw(|s|, s + rest) == Got(s, rest)
  {
    assert (s + rest)[..|s|] == s && (s + rest)[|s|..] == rest;
  }

  lemma FieldRoundTrip(k: Kind, f: Field, rest: bytes)
    requires OfKind(k, f)
    ensures ParseField(k, EncField(k, f) + rest) == Got(f, rest)
  {
    match f
    case Number(v) =>
      BigEndianRoundTrip(v, k.width);
      RawRoundTrip(BigEndian(v, k.width), rest);
    case Chunk(d) =>
      BigEndianRoundTrip(|d|, k.width);
      ConcatAssociates(BigEndian(|d|, k.width), d, rest);
      RawRoundTrip(BigEndian(|d|, k.width), d + rest);
      RawRoundTrip(d, rest);
  }

  lemma {:induction false} FieldsRoundTrip(ks: seq<Kind>, fs: seq<Field>, rest: bytes)
    requires Conforms(ks, fs)
    ensures ParseFields(ks, EncFields(ks, fs) + rest) == Got(fs, rest)
  {
    if ks == [] {
      assert [] + rest == rest;
    } else {
      var tail := EncFields(ks[1..], fs[1..]) + rest;
      assert OfKind(ks[0], fs[0]);
      ConcatAssociates(EncField(ks[0], fs[0]), EncFields(ks[1..], fs[1..]), rest);
      FieldRoundTrip(ks[0], fs[0], tail);
      FieldsRoundTrip(ks[1..], fs[1..], rest);
      assert [fs[0]] + fs[1..] == fs;
    }
  }

  /** A parse that succeeded is not changed by bytes arriving behind it. */
  ghost predicate Stable<T(!new)>(p: Parsed<T>, q: Parsed<T>, more: bytes) {
    match p
    case Short => true
    case Unknown => q.Unknown?
    case Got(v, rest) => q == Got(v, rest + more)
  }

  lemma RawStable(n: nat, bs: bytes, more: bytes)
    ensures Stable(ParseRaw(n, bs), ParseRaw(n, bs + more), more)
  {
    if |bs| >= n {
      assert (bs + more)[..n] == bs[..n] && (bs + more)[n..] == bs[n..] + more;
    }
  }

  lemma FieldStable(k: Kind, bs: bytes, more: bytes)
    ensures Stable(ParseField(k, bs), ParseField(k, bs + more), more)
  {
    RawStable(k.width, bs, more);
    var p := ParseRaw(k.width, bs);
    if p.Got? && k.Block? {
      RawStable(FromBigEndian(p.value), p.rest, more);
    }
  }

  lemma {:induction false} FieldsStable(ks: seq<Kind>, bs: bytes, more: bytes)
    ensures Stable(ParseFields(ks, bs), ParseFields(ks, bs + more), more)
  {
    if ks != [] {
      FieldStable(ks[0], bs, more);
      var p := ParseField(ks[0], bs);
      if p.Got? {
        FieldsStable(ks[1..], p.rest, more);
      }
    }
  }

  // ----- the packed access and mode byte -----

  /** Read access in the top bit, write access in the next, the mode below. */
  function PackMode(mode: OpenMode, readAccess: bool, writeAccess: bool): (b: byte)
    ensures b == mode + (if readAccess then 128 else 0) + (if writeAccess then 64 else 0)
  {
    var withRead := Or(mode, if readAccess then 128 else 0);
    OrFlag(0, if readAccess then 2 else 0, mode);
    OrFlag(if readAccess then 2 else 0, if writeAccess then 1 else 0, mode);
    Or(withRead, if writeAccess then 64 else 0)
  }

  function UnpackMode(b: byte): (OpenMode, bool, bool) {
    ByteMasks(b);
    (And(b, 63), And(b, 128) != 0, And(b, 64) != 0)
  }

  lemma OrFlag(a: nat, b: nat, mode: OpenMode)
    requires (a == 0 && b == 0) || (a == 0 && b == 2) || (a == 2 && b == 0) || (a == 2 && b == 1) || (a == 0 && b == 1)
    ensures Or(a * 64 + mode, b * 64) == (a + b) * 64 + mode
  {
    OrSmall();
    Pow2Values();
    hide Or, Pow2;
    OrLow(a, b, mode, 6);
    assert Or(a, b) == a + b;
  }

  lemma OrSmall()
    ensures Or(0, 0) == 0 && Or(0, 1) == 1 && Or(0, 2) == 2 && Or(2, 0) == 2 && Or(2, 1) == 3
  {
    assert Or(1, 0) == 1;
  }

  lemma {:induction false} OrLow(a: nat, b: nat, lo: nat, k: nat)
    requires lo < Pow2(k)
    ensures Or(a * Pow2(k) + lo, b * Pow2(k)) == Or(a, b) * Pow2(k) + lo
  {
    hide Or;
    if k == 0 {
      assert lo == 0 && Pow2(0) == 1;
    } else {
      var x, y, z := a * Pow2(k - 1), b * Pow2(k - 1), Or(a, b) * Pow2(k - 1);
      OrLow(a, b, lo / 2, k - 1);
      HalfShift(a, k);
      HalfShift(b, k);
      HalfShift(Or(a, b), k);
      OrStep(x, y, lo);
      assert 2 * (z + lo / 2) + lo % 2 == 2 * z + lo;
    }
  }

  lemma OrStep(a: nat, b: nat, lo: nat)
    ensures Or(2 * a + lo, 2 * b) == 2 * Or(a + lo / 2, b) + lo % 2
  {
    assert (2 * a + lo) / 2 == a + lo / 2 && (2 * a + lo) % 2 == lo % 2 && (2 * b) / 2 == b;
  }

  lemma ByteMasks(b: byte)
    ensures And(b, 63) == b % 64
    ensures And(b, 128) != 0 <==> b >= 128
    ensures And(b, 64) != 0 <==> (b / 64) % 2 == 1
  {
    Pow2Values();
    AndLowMask(b, 6);
    AndBit(b, 7);
    AndBit(b, 6);
  }

  lemma PackModeRoundTrip(mode: OpenMode, readAccess: bool, writeAccess: bool)
    ensures UnpackMode(PackMode(mode, readAccess, writeAccess)) == (mode, readAccess, writeAccess)
  {
    hide And, Or, PackMode;
    ByteMasks(PackMode(mode, readAccess, writeAccess));
  }

  // ----- request heads -----

  function TypeByte(h: Head): (b: byte)
    ensures b <= 14
  {
    match h
    case StatFile(_) => 0
    case ListDirectory(_) => 1
    case CreateDirectory(_) => 2
    case CheckRemoveFile(_) => 3
    case CheckRemoveDirectory(_) => 4
    case RemoveFile(_) => 5
    case RemoveDirectory(_) => 6
    case MoveEntry(_, _, _) => 7
    case OpenHandle(_, _, _, _) => 8
    case CloseHandle(_) => 9
    case ReadHandle(_, _, _) => 10
    case WriteHandle(_, _, _) => 11
    case TruncateHandle(_, _) => 12
    case SetFileTime(_, _, _) => 13
    case GetDiskStats => 14
  }

  function ArgKinds(kind: byte): seq<Kind>
    requires kind <= 14
  {
    if kind <= 6 then [TEXT]
    else if kind == 7 then [TEXT, TEXT, U8]
    else if kind == 8 then [TEXT, U8]
    else if kind == 9 then [U32]
    else if kind == 10 then [U32, U32, U64]
    else if kind == 11 then [U32, U64, U32]
    else if kind == 12 then [U32, U64]
    else if kind == 13 then [TEXT, U64, U64]
    else []
  }

  function ArgFields(h: Head): seq<Field> {
    match h
    case MoveEntry(f, t, o) => [Chunk(f), Chunk(t), Number(if o then 1 else 0)]
    case OpenHandle(p, m, r, w) => [Chunk(p), Number(PackMode(m, r, w))]
    case CloseHandle(hd) => [Number(hd)]
    case ReadHandle(hd, n, o) => [Number(hd), Number(n), Number(o)]
    case WriteHandle(hd, o, n) => [Number(hd), Number(o), Number(n)]
    case TruncateHandle(hd, n) => [Number(hd), Number(n)]
    case SetFileTime(p, a, w) => [Chunk(p), Number(ToUnsigned(a)), Number(ToUnsigned(w))]
    case GetDiskStats => []
    case _ => [Chunk(h.path)]
  }

  function BuildHead(kind: byte, fs: seq<Field>): Head
    requires kind <= 14 && Conforms(ArgKinds(kind), fs)
  {
    Pow256Values();
    assert forall i :: 0 <= i < |fs| ==> OfKind(ArgKinds(kind)[i], fs[i]);
    if kind == 0 then StatFile(fs[0].data)
    else if kind == 1 then ListDirectory(fs[0].data)
    else if kind == 2 then CreateDirectory(fs[0].data)
    else if kind == 3 then CheckRemoveFile(fs[0].data)
    else if kind == 4 then CheckRemoveDirectory(fs[0].data)
    else if kind == 5 then RemoveFile(fs[0].data)
    else if kind == 6 then RemoveDirectory(fs[0].data)
    else if kind == 7 then MoveEntry(fs[0].data, fs[1].data, fs[2].v != 0)
    else if kind == 8 then
      var (m, r, w) := UnpackMode(fs[1].v);
      OpenHandle(fs[0].data, m, r, w)
    else if kind == 9 then CloseHandle(fs[0].v)
    else if kind == 10 then ReadHandle(fs[0].v, fs[1].v, fs[2].v)
    else if kind == 11 then WriteHandle(fs[0].v, fs[1].v, fs[2].v)
    else if kind == 12 then TruncateHandle(fs[0].v, fs[1].v)
    else if kind == 13 then SetFileTime(fs[0].data, ToSigned(fs[1].v), ToSigned(fs[2].v))
    else GetDiskStats
  }

  lemma BuildHeadInverts(h: Head)
    ensures Conforms(ArgKinds(TypeByte(h)), ArgFields(h))
    ensures BuildHead(TypeByte(h), ArgFields(h)) == h
  {
    Pow256Values();
    if h.OpenHandle? {
      PackModeRoundTrip(h.mode, h.readAccess, h.writeAccess);
    } else if h.SetFileTime? {
      SignRoundTrip(h.accessTime);
      SignRoundTrip(h.writeTime);
    }
  }

  function EncHead(h: Head): bytes {
    ConformsToKinds(h);
    [TypeByte(h)] + EncFields(ArgKinds(TypeByte(h)), ArgFields(h))
  }

  lemma ConformsToKinds(h: Head)
    ensures |ArgKinds(TypeByte(h))| == |ArgFields(h)|
  {
  }

  function EncRequest(r: Request): bytes {
    EncHead(r.head) + r.payload
  }

  function ParseHead(bs: bytes): (p: Parsed<Head>)
    ensures p.Got? ==> |p.rest| < |bs|
  {
    if bs == [] then Short
    else if bs[0] > 14 then Unknown
    else
      ParseArgs(bs[0], bs[1..])
  }

  function ParseArgs(kind: byte, bs: bytes): (p: Parsed<Head>)
    requires kind <= 14
    ensures p.Got? ==> |p.rest| <= |bs|
    ensures !p.Unknown?
  {
    var (fs, rest) :- ParseFields(ArgKinds(kind), bs);
    Got(BuildHead(kind, fs), rest)
  }

  function PayloadLength(h: Head): nat {
    if h.WriteHandle? then h.dataLen else 0
  }

  function ParseRequest(bs: bytes): Parsed<Request> {
    var (h, r) :- ParseHead(bs);
    var (payload, rest) :- ParseRaw(PayloadLength(h), r);
    Got(Request(h, payload), rest)
  }

  lemma HeadRoundTrip(h: Head, rest: bytes)
    ensures ParseHead(EncHead(h) + rest) == Got(h, rest)
  {
    var ks, fs := ArgKinds(TypeByte(h)), ArgFields(h);
    BuildHeadInverts(h);
    PeelByte(TypeByte(h), EncFields(ks, fs), rest);
    FieldsRoundTrip(ks, fs, rest);
  }

  lemma RequestRoundTrip(r: Request, rest: bytes)
    requires r.Valid()
    ensures ParseRequest(EncRequest(r) + rest) == Got(r, rest)
  {
    ConcatAssociates(EncHead(r.head), r.payload, rest);
    HeadRoundTrip(r.head, r.payload + rest);
    RawRoundTrip(r.payload, rest);
  }

  lemma HeadStable(bs: bytes, more: bytes)
    ensures Stable(ParseHead(bs), ParseHead(bs + more), more)
  {
    if bs != [] && bs[0] <= 14 {
      assert (bs + more)[1..] == bs[1..] + more;
      FieldsStable(ArgKinds(bs[0]), bs[1..], more);
    }
  }

  /** A head is recognised exactly when its last byte arrives. */
  lemma HeadPrefixFree(h: Head, p: bytes, q: bytes)
    requires p + q == EncHead(h)
    ensures ParseHead(p) == if q == [] then Got(h, []) else Short
  {
    HeadRoundTrip(h, []);
    assert EncHead(h) + [] == EncHead(h);
    assert q == [] ==> p == EncHead(h);
    HeadStable(p, q);
    PrefixFree(ParseHead(p), h, q);
  }

  lemma PrefixFree<T(!new)>(p: Parsed<T>, v: T, q: bytes)
    requires Stable(p, Got(v, []), q)
    ensures q != [] ==> p.Short?
  {
    if p.Got? {
      assert |p.rest + q| == |p.rest| + |q|;
    }
  }

  // ----- replies -----

  const STAT_KINDS := [U16, U64, U64, U64]
  const ENTRY_KINDS := [TEXT, U16, U64, U64, U64]

  function StatFields(s: FileStat): seq<Field> {
    [Number(s.mode), Number(s.size), Number(s.accessTime), Number(s.writeTime)]
  }

  function EntryFields(name: Text, s: FileStat): seq<Field> {
    [Chunk(name), Number(s.mode), Number(s.size), Number(s.accessTime), Number(s.writeTime)]
  }

  function BuildEntry(fs: seq<Field>): Entry
    requires Conforms(ENTRY_KINDS, fs)
  {
    Pow256Values();
    assert forall i :: 0 <= i < 5 ==> OfKind(ENTRY_KINDS[i], fs[i]);
    Listed(fs[0].data, FileStat(fs[1].v, fs[2].v, fs[3].v, fs[4].v))
  }

  function EncEntry(e: Entry): bytes {
    match e
    case Listed(name, stat) => [SUCCESS] + EncFields(ENTRY_KINDS, EntryFields(name, stat))
    case Skipped(status) => [status]
  }

  function EncEntries(es: seq<Entry>): bytes {
    if es == [] then [NO_MORE_ENTRIES] else EncEntry(es[0]) + EncEntries(es[1..])
  }

  /** The client's listing loop: entries until the terminator. */
  function ParseEntries(bs: bytes): (p: Parsed<seq<Entry>>)
    ensures !p.Unknown?
    decreases |bs|
  {
    if bs == [] then Short
    else if bs[0] == NO_MORE_ENTRIES then Got([], bs[1..])
    else if bs[0] == SUCCESS then
      var (fs, r) :- ParseFields(ENTRY_KINDS, bs[1..]);
      var (es, rest) :- ParseEntries(r);
      Got([BuildEntry(fs)] + es, rest)
    else
      var (es, rest) :- ParseEntries(bs[1..]);
      Got([Skipped(bs[0])] + es, rest)
  }

  /** Fields behind the status byte of a successful reply. */
  function ReplyKinds(h: Head): seq<Kind> {
    match h
    case StatFile(_) => STAT_KINDS
    case OpenHandle(_, _, _, _) => [U32]
    case ReadHandle(_, _, _) => [BLOB]
    case GetDiskStats => [U64, U64, U64]
    case _ => []
  }

  function ReplyFields(r: Reply): seq<Field>
    requires !r.Listing?
  {
    match r
    case Done(_) => []
    case Statted(s) => StatFields(s)
    case Opened(h) => [Number(h)]
    case Data(d) => [Chunk(d)]
    case Disk(d) => [Number(d.freeBytes), Number(d.availableBytes), Number(d.totalBytes)]
  }

  function BuildReply(h: Head, fs: seq<Field>): Reply
    requires Conforms(ReplyKinds(h), fs)
  {
    Pow256Values();
    assert forall i :: 0 <= i < |fs| ==> OfKind(ReplyKinds(h)[i], fs[i]);
    match h
    case StatFile(_) => Statted(FileStat(fs[0].v, fs[1].v, fs[2].v, fs[3].v))
    case OpenHandle(_, _, _, _) => Opened(fs[0].v)
    case ReadHandle(_, _, _) => Data(fs[0].data)
    case GetDiskStats => Disk(DiskStats(fs[0].v, fs[1].v, fs[2].v))
    case _ => Done(SUCCESS)
  }

  function EncReply(h: Head, r: Reply): bytes
    requires Fits(h, r)
  {
    match r
    case Done(st) => [st]
    case Listing(es) => [SUCCESS] + EncEntries(es)
    case _ => [SUCCESS] + EncFields(ReplyKinds(h), ReplyFields(r))
  }

  /** The client reads the reply to the request it sent. */
  function ParseReply(h: Head, bs: bytes): Parsed<Reply> {
    if bs == [] then Short
    else if bs[0] != SUCCESS then Got(Done(bs[0]), bs[1..])
    else if h.ListDirectory? then
      var (es, rest) :- ParseEntries(bs[1..]);
      Got(Listing(es), rest)
    else
      var (fs, rest) :- ParseFields(ReplyKinds(h), bs[1..]);
      Got(BuildReply(h, fs), rest)
  }

  lemma EntryConforms(e: Entry)
    requires e.Listed?
    ensures Conforms(ENTRY_KINDS, EntryFields(e.name, e.stat))
    ensures BuildEntry(EntryFields(e.name, e.stat)) == e
  {
    Pow256Values();
  }

  lemma ReplyConforms(h: Head, r: Reply)
    requires Fits(h, r) && !r.Done? && !r.Listing?
    ensures Conforms(ReplyKinds(h), ReplyFields(r))
    ensures BuildReply(h, ReplyFields(r)) == r
  {
    Pow256Values();
  }

  lemma EntryStep(e: Entry, tail: bytes)
    requires EntryFits(e) && ParseEntries(tail).Got?
    ensures var p := ParseEntries(tail);
            ParseEntries(EncEntry(e) + tail) == Got([e] + p.value, p.rest)
  {
    var bs := EncEntry(e) + tail;
    if e.Listed? {
      EntryConforms(e);
      var fs := EntryFields(e.name, e.stat);
      PeelByte(SUCCESS, EncFields(ENTRY_KINDS, fs), tail);
      FieldsRoundTrip(ENTRY_KINDS, fs, tail);
    } else {
      PeelByte(e.status, [], tail);
    }
  }

  lemma {:induction false} EntriesRoundTrip(es: seq<Entry>, rest: bytes)
    requires forall e :: e in es ==> EntryFits(e)
    ensures ParseEntries(EncEntries(es) + rest) == Got(es, rest)
  {
    if es == [] {
      PeelByte(NO_MORE_ENTRIES, [], rest);
    } else {
      var tail := EncEntries(es[1..]) + rest;
      EntriesRoundTrip(es[1..], rest);
      EntryStep(es[0], tail);
      ConcatAssociates(EncEntry(es[0]), EncEntries(es[1..]), rest);
      assert es == [es[0]] + es[1..];
    }
  }

  lemma FieldsReplyRoundTrip(h: Head, reply: Reply, rest: bytes)
    requires Fits(h, reply) && !reply.Done? && !reply.Listing?
    ensures ParseReply(h, EncReply(h, reply) + rest) == Got(reply, rest)
  {
    ReplyConforms(h, reply);
    var ks, fs := ReplyKinds(h), ReplyFields(reply);
    PeelByte(SUCCESS, EncFields(ks, fs), rest);
    FieldsRoundTrip(ks, fs, rest);
  }

  lemma ReplyRoundTrip(h: Head, reply: Reply, rest: bytes)
    requires Fits(h, reply)
    ensures ParseReply(h, EncReply(h, reply) + rest) == Got(reply, rest)
  {
    match reply
    case Done(st) =>
      assert (EncReply(h, reply) + rest)[1..] == rest;
    case Listing(es) =>
      PeelByte(SUCCESS, EncEntries(es), rest);
      EntriesRoundTrip(es, rest);
    case _ =>
      FieldsReplyRoundTrip(h, reply, rest);
  }

  lemma {:induction false} EntriesStable(bs: bytes, more: bytes)
    ensures Stable(ParseEntries(bs), ParseEntries(bs + more), more)
    decreases |bs|
  {
    if bs != [] {
      assert (bs + more)[1..] == bs[1..] + more;
      if bs[0] == SUCCESS {
        FieldsStable(ENTRY_KINDS, bs[1..], more);
        var p := ParseFields(ENTRY_KINDS, bs[1..]);
        if p.Got? {
          EntriesStable(p.rest, more);
        }
      } else if bs[0] != NO_MORE_ENTRIES {
        EntriesStable(bs[1..], more);
      }
    }
  }

  lemma ReplyStable(h: Head, bs: bytes, more: bytes)
    ensures Stable(ParseReply(h, bs), ParseReply(h, bs + more), more)
  {
    if bs != [] {
      assert (bs + more)[1..] == bs[1..] + more;
      EntriesStable(bs[1..], more);
      FieldsStable(ReplyKinds(h), bs[1..], more);
    }
  }

  /** A reply is complete exactly when its last byte arrives. */
  lemma ReplyPrefixFree(h: Head, reply: Reply, p: bytes, q: bytes)
    requires Fits(h, reply) && p + q == EncReply(h, reply)
    ensures ParseReply(h, p) == if q == [] then Got(reply, []) else Short
  {
    ReplyRoundTrip(h, reply, []);
    assert EncReply(h, reply) + [] == EncReply(h, reply);
    assert q == [] ==> p == EncReply(h, reply);
    ReplyStable(h, p, q);
    PrefixFree(ParseReply(h, p), reply, q);
  }

  // ----- whole conversations -----

  function EncRequests(rs: seq<Request>): bytes {
    if rs == [] then [] else EncRequest(rs[0]) + EncRequests(rs[1..])
  }

  function ParseRequests(n: nat, bs: bytes): Parsed<seq<Request>> {
    if n == 0 then Got([], bs)
    else
      var (r, rest1) :- ParseRequest(bs);
      var (rs, rest) :- ParseRequests(n - 1, rest1);
      Got([r] + rs, rest)
  }

  /** Any list of requests of all kinds decodes to itself and consumes exactly its bytes. */
  lemma {:induction false} RequestsRoundTrip(rs: seq<Request>, rest: bytes)
    requires forall r :: r in rs ==> r.Valid()
    ensures ParseRequests(|rs|, EncRequests(rs) + rest) == Got(rs, rest)
  {
    if rs == [] {
      assert [] + rest == rest;
    } else {
      var tail := EncRequests(rs[1..]) + rest;
      ConcatAssociates(EncRequest(rs[0]), EncRequests(rs[1..]), rest);
      RequestRoundTrip(rs[0], tail);
      RequestsRoundTrip(rs[1..], rest);
      assert [rs[0]] + rs[1..] == rs;
    }
  }

  predicate AllFit(heads: seq<Head>, replies: seq<Reply>) {
    |heads| == |replies| && forall i :: 0 <= i < |heads| ==> Fits(heads[i], replies[i])
  }

  function EncReplies(heads: seq<Head>, replies: seq<Reply>): bytes
    requires AllFit(heads, replies)
  {
    if heads == [] then []
    else
      assert Fits(heads[0], replies[0]);
      EncReply(heads[0], replies[0]) + EncReplies(heads[1..], replies[1..])
  }

  function ParseReplies(heads: seq<Head>, bs: bytes): Parsed<seq<Reply>> {
    if heads == [] then Got([], bs)
    else
      var (r, rest1) :- ParseReply(heads[0], bs);
      var (rs, rest) :- ParseReplies(heads[1..], rest1);
      Got([r] + rs, rest)
  }

  lemma {:induction false} RepliesRoundTrip(heads: seq<Head>, replies: seq<Reply>, rest: bytes)
    requires AllFit(heads, replies)
    ensures ParseReplies(heads, EncReplies(heads, replies) + rest) == Got(replies, rest)
  {
    if heads == [] {
      assert [] + rest == rest;
    } else {
      assert Fits(heads[0], replies[0]);
      var tail := EncReplies(heads[1..], replies[1..]) + rest;
      ConcatAssociates(EncReply(heads[0], replies[0]), EncReplies(heads[1..], replies[1..]), rest);
      ReplyRoundTrip(heads[0], replies[0], tail);
      RepliesRoundTrip(heads[1..], replies[1..], rest);
      assert [replies[0]] + replies[1..] == replies;
    }
  }
}
