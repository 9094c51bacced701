/** The argument and response structs as they are actually written and read: field by field,
    through the buffered writer and reader, against the pure wire format. */
module Codec {
  import opened Wire
  import opened Streams
  import opened Messages

  // ----- unfolding the field lists -----

  lemma Enc1(k: Kind, a: Field)
    ensures EncFields([k], [a]) == EncField(k, a)
  {
    assert EncFields([], []) == [];
  }

  lemma Enc2(k1: Kind, k2: Kind, a: Field, b: Field)
    ensures EncFields([k1, k2], [a, b]) == EncField(k1, a) + EncField(k2, b)
  {
    Enc1(k2, b);
    assert [k1, k2][1..] == [k2] && [a, b][1..] == [b];
  }

  lemma Enc3(k1: Kind, k2: Kind, k3: Kind, a: Field, b: Field, c: Field)
    ensures EncFields([k1, k2, k3], [a, b, c]) == EncField(k1, a) + (EncField(k2, b) + EncField(k3, c))
  {
    Enc2(k2, k3, b, c);
    assert [k1, k2, k3][1..] == [k2, k3] && [a, b, c][1..] == [b, c];
  }

  lemma Enc4(k1: Kind, k2: Kind, k3: Kind, k4: Kind, a: Field, b: Field, c: Field, d: Field)
    ensures EncFields([k1, k2, k3, k4], [a, b, c, d]) ==
            EncField(k1, a) + (EncField(k2, b) + (EncField(k3, c) + EncField(k4, d)))
  {
    Enc3(k2, k3, k4, b, c, d);
    assert [k1, k2, k3, k4][1..] == [k2, k3, k4] && [a, b, c, d][1..] == [b, c, d];
  }

  lemma EncEntryFields(name: Text, s: FileStat)
    ensures EncFields(ENTRY_KINDS, EntryFields(name, s)) ==
            EncField(TEXT, Chunk(name)) + EncFields(STAT_KINDS, StatFields(s))
  {
    assert ENTRY_KINDS[1..] == STAT_KINDS && EntryFields(name, s)[1..] == StatFields(s);
  }

  /** Continues a parse of field lists after its first field. */
  function Then(f: Field, p: Parsed<seq<Field>>): Parsed<seq<Field>> {
    match p
    case Short => Short
    case Unknown => Unknown
    case Got(fs, rest) => Got([f] + fs, rest)
  }

  lemma ParseNext(ks: seq<Kind>, bs: bytes)
    requires ks != []
    ensures var p := ParseField(ks[0], bs);
            ParseFields(ks, bs) == if p.Got? then Then(p.value, ParseFields(ks[1..], p.rest)) else Short
  {
  }

  lemma ParseNone(bs: bytes)
    ensures ParseFields([], bs) == Got([], bs)
  {
  }

  // ----- the layout on the wire -----

  /** A string: its length in two bytes, then its bytes. */
  function TextBytes(s: Text): bytes {
    BigEndian(|s|, 2) + s
  }

  /** Every request head, byte for byte. */
  lemma HeadLayout(h: Head)
    ensures EncHead(h) ==
            match h
            case StatFile(p) => [0] + TextBytes(p)
            case ListDirectory(p) => [1] + TextBytes(p)
            case CreateDirectory(p) => [2] + TextBytes(p)
            case CheckRemoveFile(p) => [3] + TextBytes(p)
            case CheckRemoveDirectory(p) => [4] + TextBytes(p)
            case RemoveFile(p) => [5] + TextBytes(p)
            case RemoveDirectory(p) => [6] + TextBytes(p)
            case MoveEntry(f, t, o) => [7] + (TextBytes(f) + (TextBytes(t) + [if o then 1 else 0]))
            case OpenHandle(p, m, r, w) => [8] + (TextBytes(p) + [m + (if r then 128 else 0) + (if w then 64 else 0)])
            case CloseHandle(hd) => [9] + BigEndian(hd, 4)
            case ReadHandle(hd, n, o) => [10] + (BigEndian(hd, 4) + (BigEndian(n, 4) + BigEndian(o, 8)))
            case WriteHandle(hd, o, n) => [11] + (BigEndian(hd, 4) + (BigEndian(o, 8) + BigEndian(n, 4)))
            case TruncateHandle(hd, n) => [12] + (BigEndian(hd, 4) + BigEndian(n, 8))
            case SetFileTime(p, a, w) => [13] + (TextBytes(p) + (BigEndian(a % TWO64, 8) + BigEndian(w % TWO64, 8)))
            case GetDiskStats => [14]
  {
    hide EncFields, BigEndian, PackMode, ToUnsigned;
    match h
    case MoveEntry(f, t, o) =>
      OneByte(if o then 1 else 0);
      Enc3(TEXT, TEXT, U8, Chunk(f), Chunk(t), Number(if o then 1 else 0));
    case OpenHandle(p, m, r, w) =>
      var b := PackMode(m, r, w);
      OneByte(b);
      Enc2(TEXT, U8, Chunk(p), Number(b));
    case CloseHandle(hd) => Enc1(U32, Number(hd));
    case ReadHandle(hd, n, o) => Enc3(U32, U32, U64, Number(hd), Number(n), Number(o));
    case WriteHandle(hd, o, n) => Enc3(U32, U64, U32, Number(hd), Number(o), Number(n));
    case TruncateHandle(hd, n) => Enc2(U32, U64, Number(hd), Number(n));
    case SetFileTime(p, a, w) => Enc3(TEXT, U64, U64, Chunk(p), Number(ToUnsigned(a)), Number(ToUnsigned(w)));
    case GetDiskStats => NoFields();
    case _ => Enc1(TEXT, Chunk(h.path));
  }

  lemma OneByte(b: byte)
    ensures BigEndian(b, 1) == [b]
  {
  }

  lemma NoFields()
    ensures EncFields([], []) == []
  {
  }

  function StatBytes(s: FileStat): bytes {
    BigEndian(s.mode, 2) + (BigEndian(s.size, 8) + (BigEndian(s.accessTime, 8) + BigEndian(s.writeTime, 8)))
  }

  /** Every reply, byte for byte; the entries of a listing follow each other up to the terminator 8. */
  lemma ReplyLayout(h: Head, r: Reply)
    requires Fits(h, r)
    ensures EncReply(h, r) ==
            match r
            case Done(st) => [st]
            case Statted(s) => [0] + StatBytes(s)
            case Listing(es) => [0] + EncEntries(es)
            case Opened(hd) => [0] + BigEndian(hd, 4)
            case Data(d) => [0] + (BigEndian(|d|, 4) + d)
            case Disk(d) => [0] + (BigEndian(d.freeBytes, 8) + (BigEndian(d.availableBytes, 8) + BigEndian(d.totalBytes, 8)))
  {
    match r
    case Statted(s) =>
      Enc4(U16, U64, U64, U64, Number(s.mode), Number(s.size), Number(s.accessTime), Number(s.writeTime));
    case Opened(hd) => Enc1(U32, Number(hd));
    case Data(d) => Enc1(BLOB, Chunk(d));
    case Disk(d) => Enc3(U64, U64, U64, Number(d.freeBytes), Number(d.availableBytes), Number(d.totalBytes));
    case _ =>
  }

  lemma EntryLayout(e: Entry)
    ensures EncEntries([]) == [8]
    ensures EncEntry(e) ==
            match e
            case Listed(n, s) => [0] + (TextBytes(n) + StatBytes(s))
            case Skipped(st) => [st]
  {
    if e.Listed? {
      var s := e.stat;
      EncEntryFields(e.name, s);
      Enc4(U16, U64, U64, U64, Number(s.mode), Number(s.size), Number(s.accessTime), Number(s.writeTime));
    }
  }

  // ----- writing -----

  /** A string that does not fit its 16-bit length is refused before anything of it is written. */
  method WriteText(w: DataWriter, s: bytes) returns (ok: bool)
    requires w.Valid()
    modifies w, w.stream, w.buffer
    ensures w.Valid() && (ok <==> |s| < 0x1_0000)
    ensures w.Written() == if ok then old(w.Written()) + EncField(TEXT, Chunk(s)) else old(w.Written())
  {
    if |s| > 0xFFFF {
      return false;
    }
    ok := true;
    w.WriteU16(|s|);
    w.WriteBytes(s);
    ConcatAssociates(old(w.Written()), BigEndian(|s|, 2), s);
  }

  lemma Concat3(s: bytes, a: bytes, b: bytes, c: bytes)
    ensures ((s + a) + b) + c == s + (a + (b + c))
  {
  }

  method WriteMoveEntryArgs(w: DataWriter, fromPath: Text, toPath: Text, overwrite: bool)
    requires w.Valid()
    modifies w, w.stream, w.buffer
    ensures w.Valid()
    ensures w.Written() == old(w.Written()) + EncFields([TEXT, TEXT, U8], ArgFields(MoveEntry(fromPath, toPath, overwrite)))
  {
    ghost var start := w.Written();
    var flag: byte := if overwrite then 1 else 0;
    assert EncField(U8, Number(flag)) == [flag] by {
      assert BigEndian(flag, 1) == [flag];
    }
    hide EncField, EncFields;
    var _ := WriteText(w, fromPath);
    var _ := WriteText(w, toPath);
    w.WriteByte(flag);
    Enc3(TEXT, TEXT, U8, Chunk(fromPath), Chunk(toPath), Number(flag));
    Concat3(start, EncField(TEXT, Chunk(fromPath)), EncField(TEXT, Chunk(toPath)), [flag]);
  }

  method WriteOpenHandleArgs(w: DataWriter, path: Text, mode: OpenMode, readAccess: bool, writeAccess: bool)
    requires w.Valid()
    modifies w, w.stream, w.buffer
    ensures w.Valid()
    ensures w.Written() == old(w.Written()) + EncFields([TEXT, U8], ArgFields(OpenHandle(path, mode, readAccess, writeAccess)))
  {
    ghost var start := w.Written();
    var modeAndPerms := PackMode(mode, readAccess, writeAccess);
    assert EncField(U8, Number(modeAndPerms)) == [modeAndPerms] by {
      assert BigEndian(modeAndPerms, 1) == [modeAndPerms];
    }
    hide EncField, EncFields, PackMode;
    var _ := WriteText(w, path);
    w.WriteByte(modeAndPerms);
    Enc2(TEXT, U8, Chunk(path), Number(modeAndPerms));
    ConcatAssociates(start, EncField(TEXT, Chunk(path)), [modeAndPerms]);
  }

  method WriteReadHandleArgs(w: DataWriter, handle: u32, dataLen: u32, offset: u64)
    requires w.Valid()
    modifies w, w.stream, w.buffer
    ensures w.Valid()
    ensures w.Written() == old(w.Written()) + EncFields([U32, U32, U64], ArgFields(ReadHandle(handle, dataLen, offset)))
  {
    ghost var start := w.Written();
    w.WriteU32(handle);
    w.WriteU32(dataLen);
    w.WriteU64(offset);
    Enc3(U32, U32, U64, Number(handle), Number(dataLen), Number(offset));
    Concat3(start, BigEndian(handle, 4), BigEndian(dataLen, 4), BigEndian(offset, 8));
  }

  method WriteWriteHandleArgs(w: DataWriter, handle: u32, offset: u64, dataLen: u32)
    requires w.Valid()
    modifies w, w.stream, w.buffer
    ensures w.Valid()
    ensures w.Written() == old(w.Written()) + EncFields([U32, U64, U32], ArgFields(WriteHandle(handle, offset, dataLen)))
  {
    ghost var start := w.Written();
    w.WriteU32(handle);
    w.WriteU64(offset);
    w.WriteU32(dataLen);
    Enc3(U32, U64, U32, Number(handle), Number(offset), Number(dataLen));
    Concat3(start, BigEndian(handle, 4), BigEndian(offset, 8), BigEndian(dataLen, 4));
  }

  method WriteTruncateHandleArgs(w: DataWriter, handle: u32, newLength: u64)
    requires w.Valid()
    modifies w, w.stream, w.buffer
    ensures w.Valid()
    ensures w.Written() == old(w.Written()) + EncFields([U32, U64], ArgFields(TruncateHandle(handle, newLength)))
  {
    ghost var start := w.Written();
    w.WriteU32(handle);
    w.WriteU64(newLength);
    Enc2(U32, U64, Number(handle), Number(newLength));
    ConcatAssociates(start, BigEndian(handle, 4), BigEndian(newLength, 8));
  }

  method WriteSetFileTimeArgs(w: DataWriter, path: Text, accessTime: i64, writeTime: i64)
    requires w.Valid()
    modifies w, w.stream, w.buffer
    ensures w.Valid()
    ensures w.Written() == old(w.Written()) + EncFields([TEXT, U64, U64], ArgFields(SetFileTime(path, accessTime, writeTime)))
  {
    ghost var start := w.Written();
    hide EncFields, BigEndian, ToUnsigned;
    var a, m := ToUnsigned(accessTime), ToUnsigned(writeTime);
    var _ := WriteText(w, path);
    w.WriteU64(a);
    w.WriteU64(m);
    Enc3(TEXT, U64, U64, Chunk(path), Number(a), Number(m));
    Concat3(start, EncField(TEXT, Chunk(path)), BigEndian(a, 8), BigEndian(m, 8));
  }

  /** The argument struct of each request type. */
  method WriteArgs(w: DataWriter, h: Head)
    requires w.Valid()
    modifies w, w.stream, w.buffer
    ensures w.Valid()
    ensures |ArgKinds(TypeByte(h))| == |ArgFields(h)|
    ensures w.Written() == old(w.Written()) + EncFields(ArgKinds(TypeByte(h)), ArgFields(h))
  {
    match h {
      case MoveEntry(f, t, o) => WriteMoveEntryArgs(w, f, t, o);
      case OpenHandle(p, m, r, wr) => WriteOpenHandleArgs(w, p, m, r, wr);
      case CloseHandle(handle) =>
        w.WriteU32(handle);
        Enc1(U32, Number(handle));
      case ReadHandle(hd, n, o) => WriteReadHandleArgs(w, hd, n, o);
      case WriteHandle(hd, o, n) => WriteWriteHandleArgs(w, hd, o, n);
      case TruncateHandle(hd, n) => WriteTruncateHandleArgs(w, hd, n);
      case SetFileTime(p, a, m) => WriteSetFileTimeArgs(w, p, a, m);
      case GetDiskStats =>
        assert w.Written() + [] == w.Written();
      case _ =>
        var _ := WriteText(w, h.path);
        Enc1(TEXT, Chunk(h.path));
    }
  }

  /** The client half of sending: type byte, arguments, payload, flush. */
  method SendRequest(w: DataWriter, r: Request)
    requires w.Valid() && r.Valid()
    modifies w, w.stream, w.buffer
    ensures w.Valid() && w.bufferBytesFilled == 0
    ensures w.stream.sent == old(w.Written()) + EncRequest(r)
  {
    ghost var start := w.Written();
    w.WriteByte(TypeByte(r.head));
    WriteArgs(w, r.head);
    w.WriteBytes(r.payload);
    ghost var args := EncFields(ArgKinds(TypeByte(r.head)), ArgFields(r.head));
    Concat3(start, [TypeByte(r.head)], args, r.payload);
    ConcatAssociates([TypeByte(r.head)], args, r.payload);
    w.Flush();
  }

  method WriteStat(w: DataWriter, s: FileStat)
    requires w.Valid()
    modifies w, w.stream, w.buffer
    ensures w.Valid() && w.Written() == old(w.Written()) + EncFields(STAT_KINDS, StatFields(s))
  {
    ghost var start := w.Written();
    w.WriteU16(s.mode);
    w.WriteU64(s.size);
    w.WriteU64(s.accessTime);
    w.WriteU64(s.writeTime);
    Enc4(U16, U64, U64, U64, Number(s.mode), Number(s.size), Number(s.accessTime), Number(s.writeTime));
    Concat3(start + BigEndian(s.mode, 2), BigEndian(s.size, 8), BigEndian(s.accessTime, 8), BigEndian(s.writeTime, 8));
    ConcatAssociates(start, BigEndian(s.mode, 2), BigEndian(s.size, 8) + (BigEndian(s.accessTime, 8) + BigEndian(s.writeTime, 8)));
  }

  method WriteDisk(w: DataWriter, d: DiskStats)
    requires w.Valid()
    modifies w, w.stream, w.buffer
    ensures w.Valid()
    ensures w.Written() == old(w.Written()) + EncFields([U64, U64, U64], ReplyFields(Disk(d)))
  {
    ghost var start := w.Written();
    w.WriteU64(d.freeBytes);
    w.WriteU64(d.availableBytes);
    w.WriteU64(d.totalBytes);
    Enc3(U64, U64, U64, Number(d.freeBytes), Number(d.availableBytes), Number(d.totalBytes));
    Concat3(start, BigEndian(d.freeBytes, 8), BigEndian(d.availableBytes, 8), BigEndian(d.totalBytes, 8));
  }

  // ----- reading -----

  /** What reading did to the reader, against the pure parse of what was unread before. */
  ghost predicate Followed<T(!new)>(r: DataReader, o: Outcome<T>, p: Parsed<T>)
    reads r, r.stream, r.buffer
  {
    && r.Valid()
    && match p
       case Got(v, rest) => o == Value(v) && r.Unread() == rest
       case Short => o.Eof? && r.Unread() == []
       case Unknown => o.BadType?
  }

  method ReadText(r: DataReader) returns (o: Outcome<Text>)
    requires r.Valid()
    modifies r, r.stream, r.buffer
    ensures r.Valid() && !o.BadType?
    ensures var p := ParseField(TEXT, old(r.Unread()));
            if p.Got? then o.Value? && p.value == Chunk(o.value) && r.Unread() == p.rest else o.Eof? && r.Unread() == []
  {
    Pow256Values();
    var length :- r.ReadU16();
    var data :- r.ReadBytes(length);
    return Value(data);
  }

  method ReadNumber(r: DataReader, width: nat) returns (o: Outcome<nat>)
    requires r.Valid() && (width == 1 || width == 2 || width == 4 || width == 8)
    modifies r, r.stream, r.buffer
    ensures r.Valid() && !o.BadType?
    ensures var p := ParseField(Num(width), old(r.Unread()));
            if p.Got? then o.Value? && p.value == Number(o.value) && r.Unread() == p.rest else o.Eof? && r.Unread() == []
    ensures o.Value? ==> o.value < Pow256(width)
  {
    FromBigEndianRoundTrip(if width <= |r.Unread()| then r.Unread()[..width] else []);
    if width == 1 {
      var b :- r.ReadByte();
      assert old(r.Unread())[..1][..0] == [];
      return Value(b);
    } else if width == 2 {
      var v :- r.ReadU16();
      return Value(v);
    } else if width == 4 {
      var v :- r.ReadU32();
      return Value(v);
    } else {
      var v :- r.ReadU64();
      return Value(v);
    }
  }

  method ReadMoveEntryArgs(r: DataReader) returns (o: Outcome<Head>)
    requires r.Valid()
    modifies r, r.stream, r.buffer
    ensures Followed(r, o, ParseArgs(7, old(r.Unread())))
  {
    hide ParseField, ParseFields;
    Pow256Values();
    ParseNext([TEXT, TEXT, U8], r.Unread());
    var fromPath :- ReadText(r);
    assert [TEXT, TEXT, U8][1..] == [TEXT, U8];
    ParseNext([TEXT, U8], r.Unread());
    var toPath :- ReadText(r);
    assert [TEXT, U8][1..] == [U8];
    ParseNext([U8], r.Unread());
    var flag :- ReadNumber(r, 1);
    assert [U8][1..] == [];
    ParseNone(r.Unread());
    return Value(MoveEntry(fromPath, toPath, flag != 0));
  }

  method ReadOpenHandleArgs(r: DataReader) returns (o: Outcome<Head>)
    requires r.Valid()
    modifies r, r.stream, r.buffer
    ensures Followed(r, o, ParseArgs(8, old(r.Unread())))
  {
    hide ParseField, ParseFields;
    Pow256Values();
    ParseNext([TEXT, U8], r.Unread());
    var path :- ReadText(r);
    assert [TEXT, U8][1..] == [U8];
    ParseNext([U8], r.Unread());
    var modeAndPerms :- ReadNumber(r, 1);
    assert [U8][1..] == [];
    ParseNone(r.Unread());
    return Value(OpenHandle(path, UnpackMode(modeAndPerms).0, UnpackMode(modeAndPerms).1, UnpackMode(modeAndPerms).2));
  }

  method ReadCloseHandleArgs(r: DataReader) returns (o: Outcome<Head>)
    requires r.Valid()
    modifies r, r.stream, r.buffer
    ensures Followed(r, o, ParseArgs(9, old(r.Unread())))
  {
    hide ParseField, ParseFields;
    Pow256Values();
    ParseNext([U32], r.Unread());
    var handle :- ReadNumber(r, 4);
    assert [U32][1..] == [];
    ParseNone(r.Unread());
    return Value(CloseHandle(handle));
  }

  method ReadReadHandleArgs(r: DataReader) returns (o: Outcome<Head>)
    requires r.Valid()
    modifies r, r.stream, r.buffer
    ensures Followed(r, o, ParseArgs(10, old(r.Unread())))
  {
    hide ParseField, ParseFields;
    Pow256Values();
    ParseNext([U32, U32, U64], r.Unread());
    var handle :- ReadNumber(r, 4);
    assert [U32, U32, U64][1..] == [U32, U64];
    ParseNext([U32, U64], r.Unread());
    var dataLen :- ReadNumber(r, 4);
    assert [U32, U64][1..] == [U64];
    ParseNext([U64], r.Unread());
    var offset :- ReadNumber(r, 8);
    assert [U64][1..] == [];
    ParseNone(r.Unread());
    return Value(ReadHandle(handle, dataLen, offset));
  }

  method ReadWriteHandleArgs(r: DataReader) returns (o: Outcome<Head>)
    requires r.Valid()
    modifies r, r.stream, r.buffer
    ensures Followed(r, o, ParseArgs(11, old(r.Unread())))
  {
    hide ParseField, ParseFields;
    Pow256Values();
    ParseNext([U32, U64, U32], r.Unread());
    var handle :- ReadNumber(r, 4);
    assert [U32, U64, U32][1..] == [U64, U32];
    ParseNext([U64, U32], r.Unread());
    var offset :- ReadNumber(r, 8);
    assert [U64, U32][1..] == [U32];
    ParseNext([U32], r.Unread());
    var dataLen :- ReadNumber(r, 4);
    assert [U32][1..] == [];
    ParseNone(r.Unread());
    return Value(WriteHandle(handle, offset, dataLen));
  }

  method ReadTruncateHandleArgs(r: DataReader) returns (o: Outcome<Head>)
    requires r.Valid()
    modifies r, r.stream, r.buffer
    ensures Followed(r, o, ParseArgs(12, old(r.Unread())))
  {
    hide ParseField, ParseFields;
    Pow256Values();
    ParseNext([U32, U64], r.Unread());
    var handle :- ReadNumber(r, 4);
    assert [U32, U64][1..] == [U64];
    ParseNext([U64], r.Unread());
    var newLength :- ReadNumber(r, 8);
    assert [U64][1..] == [];
    ParseNone(r.Unread());
    return Value(TruncateHandle(handle, newLength));
  }

  method ReadSetFileTimeArgs(r: DataReader) returns (o: Outcome<Head>)
    requires r.Valid()
    modifies r, r.stream, r.buffer
    ensures Followed(r, o, ParseArgs(13, old(r.Unread())))
  {
    hide ParseField, ParseFields;
    Pow256Values();
    ParseNext([TEXT, U64, U64], r.Unread());
    var path :- ReadText(r);
    assert [TEXT, U64, U64][1..] == [U64, U64];
    ParseNext([U64, U64], r.Unread());
    var accessTime :- ReadNumber(r, 8);
    assert [U64, U64][1..] == [U64];
    ParseNext([U64], r.Unread());
    var writeTime :- ReadNumber(r, 8);
    assert [U64][1..] == [];
    ParseNone(r.Unread());
    return Value(SetFileTime(path, ToSigned(accessTime), ToSigned(writeTime)));
  }

  method ReadPathArgs(r: DataReader, kind: byte) returns (o: Outcome<Head>)
    requires r.Valid() && kind <= 6
    modifies r, r.stream, r.buffer
    ensures Followed(r, o, ParseArgs(kind, old(r.Unread())))
  {
    hide ParseField, ParseFields;
    Pow256Values();
    ParseNext([TEXT], r.Unread());
    var path :- ReadText(r);
    assert [TEXT][1..] == [];
    ParseNone(r.Unread());
    return Value(BuildHead(kind, [Chunk(path)]));
  }

  /** The daemon's reading of one request head: the type byte, then that type's arguments. */
  method ReceiveHead(r: DataReader) returns (o: Outcome<Head>)
    requires r.Valid()
    modifies r, r.stream, r.buffer
    ensures Followed(r, o, ParseHead(old(r.Unread())))
  {
    var kind :- r.ReadByte();
    if kind > 14 {
      return BadType;
    }
    if kind <= 6 {
      o := ReadPathArgs(r, kind);
    } else if kind == 7 {
      o := ReadMoveEntryArgs(r);
    } else if kind == 8 {
      o := ReadOpenHandleArgs(r);
    } else if kind == 9 {
      o := ReadCloseHandleArgs(r);
    } else if kind == 10 {
      o := ReadReadHandleArgs(r);
    } else if kind == 11 {
      o := ReadWriteHandleArgs(r);
    } else if kind == 12 {
      o := ReadTruncateHandleArgs(r);
    } else if kind == 13 {
      o := ReadSetFileTimeArgs(r);
    } else {
      o := Value(GetDiskStats);
    }
  }

  // ----- replies as the client reads them -----

  /** The entries whose stat succeeded, in order: what the client hands to its caller. */
  function OnlyListed(es: seq<Entry>): seq<Entry> {
    if es == [] then []
    else (if es[0].Listed? then [es[0]] else []) + OnlyListed(es[1..])
  }

  lemma {:induction false} OnlyListedSnoc(es: seq<Entry>, e: Entry)
    ensures OnlyListed(es + [e]) == OnlyListed(es) + (if e.Listed? then [e] else [])
  {
    var last := if e.Listed? then [e] else [];
    if es == [] {
      assert [] + [e] == [e] && [e][1..] == [];
    } else {
      var first := if es[0].Listed? then [es[0]] else [];
      assert (es + [e])[1..] == es[1..] + [e];
      OnlyListedSnoc(es[1..], e);
      ConcatAssociates(first, OnlyListed(es[1..]), last);
    }
  }

  /** `seen` followed by whatever the rest parses to. */
  ghost function Resume(seen: seq<Entry>, p: Parsed<seq<Entry>>): Parsed<seq<Entry>> {
    match p
    case Short => Short
    case Unknown => Unknown
    case Got(es, rest) => Got(seen + es, rest)
  }

  lemma AtStart(p: Parsed<seq<Entry>>)
    ensures Resume([], p) == p
  {
    assert p.Got? ==> [] + p.value == p.value;
  }

  lemma AtTerminator(seen: seq<Entry>, rest: bytes)
    ensures Resume(seen, ParseEntries([NO_MORE_ENTRIES] + rest)) == Got(seen, rest)
  {
    var bs := [NO_MORE_ENTRIES] + rest;
    assert bs[1..] == rest;
    assert ParseEntries(bs) == Got([], rest);
    assert seen + [] == seen;
  }

  lemma AtSkipped(seen: seq<Entry>, st: Status, rest: bytes)
    requires st != SUCCESS && st != NO_MORE_ENTRIES
    ensures Resume(seen, ParseEntries([st] + rest)) == Resume(seen + [Skipped(st)], ParseEntries(rest))
  {
    var bs, p := [st] + rest, ParseEntries(rest);
    assert bs[1..] == rest;
    if p.Got? {
      ConcatAssociates(seen, [Skipped(st)], p.value);
    }
  }

  lemma AtListed(seen: seq<Entry>, rest: bytes)
    ensures var p := ParseFields(ENTRY_KINDS, rest);
            Resume(seen, ParseEntries([SUCCESS] + rest)) ==
            if p.Got? then Resume(seen + [BuildEntry(p.value)], ParseEntries(p.rest)) else Short
  {
    var bs, p := [SUCCESS] + rest, ParseFields(ENTRY_KINDS, rest);
    assert bs[1..] == rest;
    if p.Got? && ParseEntries(p.rest).Got? {
      ConcatAssociates(seen, [BuildEntry(p.value)], ParseEntries(p.rest).value);
    }
  }

  method ReadStat(r: DataReader) returns (o: Outcome<FileStat>)
    requires r.Valid()
    modifies r, r.stream, r.buffer
    ensures r.Valid() && !o.BadType?
    ensures var p := ParseFields(STAT_KINDS, old(r.Unread()));
            if p.Got? then o.Value? && p.value == StatFields(o.value) && r.Unread() == p.rest else o.Eof? && r.Unread() == []
  {
    hide ParseField, ParseFields;
    Pow256Values();
    ParseNext(STAT_KINDS, r.Unread());
    var mode :- ReadNumber(r, 2);
    assert STAT_KINDS[1..] == [U64, U64, U64];
    ParseNext([U64, U64, U64], r.Unread());
    var size :- ReadNumber(r, 8);
    assert [U64, U64, U64][1..] == [U64, U64];
    ParseNext([U64, U64], r.Unread());
    var accessTime :- ReadNumber(r, 8);
    assert [U64, U64][1..] == [U64];
    ParseNext([U64], r.Unread());
    var writeTime :- ReadNumber(r, 8);
    assert [U64][1..] == [];
    ParseNone(r.Unread());
    return Value(FileStat(mode, size, accessTime, writeTime));
  }

  method ReadListedEntry(r: DataReader) returns (o: Outcome<Entry>)
    requires r.Valid()
    modifies r, r.stream, r.buffer
    ensures r.Valid() && !o.BadType?
    ensures var p := ParseFields(ENTRY_KINDS, old(r.Unread()));
            if p.Got? then o == Value(BuildEntry(p.value)) && r.Unread() == p.rest else o.Eof? && r.Unread() == []
    ensures o.Value? ==> o.value.Listed?
  {
    ParseNext(ENTRY_KINDS, r.Unread());
    assert ENTRY_KINDS[1..] == STAT_KINDS;
    var fileName :- ReadText(r);
    var stat :- ReadStat(r);
    assert [Chunk(fileName)] + StatFields(stat) == EntryFields(fileName, stat);
    EntryConforms(Listed(fileName, stat));
    return Value(Listed(fileName, stat));
  }

  /** The client's reading of a reply to anything but a listing: the status byte and, on success,
      whatever this request type brings. */
  method ReceiveReply(r: DataReader, head: Head) returns (o: Outcome<Reply>)
    requires r.Valid() && !head.ListDirectory?
    modifies r, r.stream, r.buffer
    ensures Followed(r, o, ParseReply(head, old(r.Unread())))
  {
    var status :- r.ReadByte();
    if status != SUCCESS {
      return Value(Done(status));
    }
    if head.StatFile? {
      o := ReceiveStat(r, head);
    } else if head.OpenHandle? {
      o := ReceiveHandle(r, head);
    } else if head.ReadHandle? {
      o := ReceiveData(r, head);
    } else if head.GetDiskStats? {
      o := ReceiveDisk(r, head);
    } else {
      assert ParseFields([], r.Unread()) == Got([], r.Unread());
      o := Value(Done(SUCCESS));
    }
  }

  /** The fields behind a success byte. */
  function ParseBody(head: Head, bs: bytes): Parsed<Reply> {
    var (fs, rest) :- ParseFields(ReplyKinds(head), bs);
    Got(BuildReply(head, fs), rest)
  }

  method ReceiveStat(r: DataReader, head: Head) returns (o: Outcome<Reply>)
    requires r.Valid() && head.StatFile?
    modifies r, r.stream, r.buffer
    ensures Followed(r, o, ParseBody(head, old(r.Unread())))
  {
    var stat :- ReadStat(r);
    ReplyConforms(head, Statted(stat));
    return Value(Statted(stat));
  }

  method ReceiveHandle(r: DataReader, head: Head) returns (o: Outcome<Reply>)
    requires r.Valid() && head.OpenHandle?
    modifies r, r.stream, r.buffer
    ensures Followed(r, o, ParseBody(head, old(r.Unread())))
  {
    hide ParseField, ParseFields;
    Pow256Values();
    ParseNext([U32], r.Unread());
    var handle :- ReadNumber(r, 4);
    assert [U32][1..] == [];
    ParseNone(r.Unread());
    ReplyConforms(head, Opened(handle));
    return Value(Opened(handle));
  }

  method ReceiveData(r: DataReader, head: Head) returns (o: Outcome<Reply>)
    requires r.Valid() && head.ReadHandle?
    modifies r, r.stream, r.buffer
    ensures Followed(r, o, ParseBody(head, old(r.Unread())))
  {
    ParseNext([BLOB], r.Unread());
    assert [BLOB][1..] == [];
    var bytesRead :- r.ReadU32();
    var data :- r.ReadBytes(bytesRead);
    return Value(Data(data));
  }

  method ReceiveDisk(r: DataReader, head: Head) returns (o: Outcome<Reply>)
    requires r.Valid() && head.GetDiskStats?
    modifies r, r.stream, r.buffer
    ensures Followed(r, o, ParseBody(head, old(r.Unread())))
  {
    hide ParseField, ParseFields;
    Pow256Values();
    ParseNext([U64, U64, U64], r.Unread());
    var free :- ReadNumber(r, 8);
    assert [U64, U64, U64][1..] == [U64, U64];
    ParseNext([U64, U64], r.Unread());
    var available :- ReadNumber(r, 8);
    assert [U64, U64][1..] == [U64];
    ParseNext([U64], r.Unread());
    var total :- ReadNumber(r, 8);
    assert [U64][1..] == [];
    ParseNone(r.Unread());
    ReplyConforms(head, Disk(DiskStats(free, available, total)));
    return Value(Disk(DiskStats(free, available, total)));
  }
}
