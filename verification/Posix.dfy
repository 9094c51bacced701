/** The device's files as the daemon's system calls see them: names, file contents and the
    descriptor table, after the System Interfaces volume of POSIX.1-2017. */
module Posix {
  import opened Wire
  import opened Messages
  import opened TimedCache
  import opened Paths

  datatype OpenFile = OpenFile(ino: nat, offset: nat, readable: bool, writable: bool, seekable: bool)

  /** Names refer to file contents through an inode, so that open descriptors survive
      renaming and removal. */
  datatype Fs = Fs(names: map<bytes, nat>, content: map<nat, bytes>, fds: map<nat, OpenFile>, dirs: set<bytes>) {
    predicate Valid() {
      && names.Keys !! dirs
      && (forall p :: p in names ==> names[p] in content)
      && (forall p, q :: p in names && q in names && names[p] == names[q] ==> p == q)
      && (forall d :: d in fds ==> d < 0x8000_0000 && fds[d].ino in content)
    }
  }

  /** The content of a descriptor's file. */
  function FileOf(fs: Fs, h: nat): (f: bytes)
    requires fs.Valid() && h in fs.fds
  {
    fs.content[fs.fds[h].ino]
  }

  // ----- errno -----

  const ENOENT := 2
  const EACCES := 13
  const EEXIST := 17
  const ENOTDIR := 20
  const EISDIR := 21
  const ENOTEMPTY := 39

  function StatusFromErrno(errno: int): Status {
    if errno == EACCES then ACCESS_DENIED
    else if errno == ENOENT then FILE_NOT_FOUND
    else if errno == EEXIST then FILE_EXISTS
    else if errno == ENOTDIR then NOT_A_DIRECTORY
    else if errno == EISDIR then NOT_A_FILE
    else if errno == ENOTEMPTY then DIRECTORY_NOT_EMPTY
    else GENERIC_FAILURE
  }

  /** No failure can be mistaken for a success or for the end of a listing. */
  lemma ErrnoNeverSucceeds(errno: int)
    ensures StatusFromErrno(errno) != SUCCESS
    ensures StatusFromErrno(errno) != NO_MORE_ENTRIES
  {
  }

  // ----- reading and writing at an offset -----

  function Zeros(n: nat): (z: bytes)
    ensures |z| == n && forall i :: 0 <= i < n ==> z[i] == 0
  {
    seq(n, _ => 0)
  }

  function Pad(f: bytes, n: nat): bytes {
    if |f| < n then f + Zeros(n - |f|) else f
  }

  /** The bytes of `f` from `off`, at most `n` of them. */
  function ReadAt(f: bytes, off: nat, n: nat): bytes {
    if off >= |f| then [] else if off + n <= |f| then f[off..off + n] else f[off..]
  }

  /** `f` with `d` written at `off`: zero-padded up to there if needed, extended if needed. */
  function Splice(f: bytes, off: nat, d: bytes): bytes {
    if d == [] then f
    else
      var p := Pad(f, off);
      p[..off] + d + (if off + |d| < |p| then p[off + |d|..] else [])
  }

  function Resize(f: bytes, n: nat): bytes {
    if n <= |f| then f[..n] else Pad(f, n)
  }

  /** A length change, byte by byte: the old bytes as far as they go, zeros behind them. */
  lemma ResizeAt(f: bytes, n: nat)
    ensures |Resize(f, n)| == n
    ensures forall i :: 0 <= i < n ==> Resize(f, n)[i] == if i < |f| then f[i] else 0
  {
  }

  /** A read, byte by byte: from the offset on, as many bytes as asked for and there are. */
  lemma ReadAtBytes(f: bytes, off: nat, n: nat)
    ensures |ReadAt(f, off, n)| == if |f| <= off then 0 else if |f| < off + n then |f| - off else n
    ensures forall i :: 0 <= i < |ReadAt(f, off, n)| ==> off + i < |f| && ReadAt(f, off, n)[i] == f[off + i]
  {
  }

  /** Byte `i` of the spliced file, described without slices. */
  lemma SpliceAt(f: bytes, off: nat, d: bytes)
    requires d != []
    ensures |Splice(f, off, d)| == if off + |d| > |f| then off + |d| else |f|
    ensures forall i :: 0 <= i < |Splice(f, off, d)| ==>
              Splice(f, off, d)[i] == if off <= i < off + |d| then d[i - off] else if i < |f| then f[i] else 0
  {
  }

  /** Two short writes in a row are one long write. */
  lemma SpliceSplit(f: bytes, off: nat, a: bytes, b: bytes)
    ensures Splice(Splice(f, off, a), off + |a|, b) == Splice(f, off, a + b)
  {
    if a == [] {
      assert a + b == b;
    } else if b == [] {
      assert a + b == a;
    } else {
      var g := Splice(f, off, a);
      SpliceAt(f, off, a);
      SpliceAt(g, off + |a|, b);
      SpliceAt(f, off, a + b);
      var l, r := Splice(g, off + |a|, b), Splice(f, off, a + b);
      assert |l| == |r|;
      forall i | 0 <= i < |l| ensures l[i] == r[i] {
      }
    }
  }

  /** Two short reads in a row are one long read. */
  lemma ReadSplit(f: bytes, off: nat, k: nat, n: nat)
    requires k <= n && (k > 0 ==> off + k <= |f|)
    ensures ReadAt(f, off, n) == ReadAt(f, off, k) + ReadAt(f, off + k, n - k)
    ensures |ReadAt(f, off, k)| == k
  {
  }

  /** Reading back what was just written. */
  lemma ReadAfterWrite(f: bytes, off: nat, d: bytes)
    requires d != []
    ensures ReadAt(Splice(f, off, d), off, |d|) == d
  {
    SpliceAt(f, off, d);
    var s := Splice(f, off, d);
    assert s[off..off + |d|] == d;
  }

  /** A write leaves every range it does not touch readable as before. */
  lemma ReadElsewhere(f: bytes, off: nat, d: bytes, at: nat, n: nat)
    requires at + n <= |f| && (at + n <= off || off + |d| <= at)
    ensures ReadAt(Splice(f, off, d), at, n) == ReadAt(f, at, n)
  {
    if d != [] {
      SpliceAt(f, off, d);
      var s := Splice(f, off, d);
      assert n > 0 ==> s[at..at + n] == f[at..at + n];
    }
  }

  // ----- what each request does -----

  datatype Exchanged = Exchanged(request: Request, reply: Reply)

  /** `lseek` to an absolute offset: the descriptor must be open on something seekable and
      the offset must fit a signed 64-bit value. */
  predicate SeekOk(fs: Fs, h: nat, off: nat) {
    h in fs.fds && fs.fds[h].seekable && off < 0x8000_0000_0000_0000
  }

  function SetOffset(fs: Fs, h: nat, off: nat): (r: Fs)
    requires h in fs.fds
    ensures fs.Valid() ==> r.Valid()
  {
    fs.(fds := fs.fds[h := fs.fds[h].(offset := off)])
  }

  lemma SetOffsetFacts(fs: Fs, h: nat, off: nat)
    requires fs.Valid() && h in fs.fds
    ensures var r := SetOffset(fs, h, off);
            && r.Valid() && h in r.fds && FileOf(r, h) == FileOf(fs, h)
            && r.fds[h].offset == off && r.fds[h].readable == fs.fds[h].readable
  {
  }

  lemma SetOffsetTwice(fs: Fs, h: nat, a: nat, b: nat)
    requires h in fs.fds
    ensures SetOffset(SetOffset(fs, h, a), h, b) == SetOffset(fs, h, b)
  {
    var x, y := SetOffset(SetOffset(fs, h, a), h, b).fds, SetOffset(fs, h, b).fds;
    assert x == y;
  }

  function SetContent(fs: Fs, ino: nat, f: bytes): (r: Fs)
    ensures fs.Valid() ==> r.Valid()
  {
    fs.(content := fs.content[ino := f])
  }

  /** The open flags the daemon derives from the access bits and the mode. */
  datatype Flags = Flags(readable: bool, writable: bool, creat: bool, trunc: bool, excl: bool)

  function FlagsFor(mode: OpenMode, readAccess: bool, writeAccess: bool): Flags {
    Flags(readAccess, writeAccess,
          mode == CREATE_IF_NOT_EXIST || mode == CREATE_OR_TRUNCATE || mode == CREATE_ALWAYS,
          mode == TRUNCATE || mode == CREATE_OR_TRUNCATE,
          mode == CREATE_ALWAYS)
  }

  /** What the environment decides about an `open`: whether it refuses it (permissions, a missing
      parent, a directory, no room), which descriptor and inode numbers it hands out, and
      whether the file supports seeking. */
  datatype OpenChoice = OpenChoice(refusal: int, fd: nat, ino: nat, seekable: bool)

  /** `open` reports EEXIST for no other reason than an exclusive creation of a name that exists. */
  predicate FairChoice(fs: Fs, c: OpenChoice) {
    && c.refusal != EEXIST
    && (c.refusal == 0 ==> c.fd !in fs.fds && c.fd < 0x8000_0000 && c.ino !in fs.content)
  }

  /** `open`: refused, EEXIST, EISDIR, ENOENT, or a fresh descriptor. */
  function OpenCall(fs: Fs, p: bytes, fl: Flags, c: OpenChoice): (r: (Fs, int))
    requires fs.Valid() && FairChoice(fs, c)
    ensures r.0.Valid()
    ensures r.1 != 0 ==> r.0 == fs
    ensures r.1 == 0 ==>
              && r.0.fds.Keys == fs.fds.Keys + {c.fd}
              && (forall d :: d in fs.fds ==> r.0.fds[d] == fs.fds[d])
              && r.0.fds[c.fd].readable == fl.readable && r.0.fds[c.fd].writable == fl.writable
              && p in r.0.names && r.0.names[p] == r.0.fds[c.fd].ino
  {
    if c.refusal != 0 then (fs, c.refusal)
    else if p in fs.dirs then (fs, if fl.creat && fl.excl then EEXIST else EISDIR)
    else if p in fs.names then
      if fl.creat && fl.excl then (fs, EEXIST)
      else
        var ino := fs.names[p];
        var f := if fl.trunc then [] else fs.content[ino];
        var file := OpenFile(ino, 0, fl.readable, fl.writable, c.seekable);
        (Fs(fs.names, fs.content[ino := f], fs.fds[c.fd := file], fs.dirs), 0)
    else if !fl.creat then (fs, ENOENT)
    else
      var file := OpenFile(c.ino, 0, fl.readable, fl.writable, c.seekable);
      (Fs(fs.names[p := c.ino], fs.content[c.ino := []], fs.fds[c.fd := file], fs.dirs), 0)
  }

  // ----- names -----

  /** `q` lies in the directory `p`, at any depth. */
  predicate Inside(p: bytes, q: bytes) {
    GetFullPath(p, []) < q
  }

  /** Where a path inside directory `f` goes when `f` is renamed to `t`. */
  function Moved(f: bytes, t: bytes, q: bytes): (r: bytes)
    requires Inside(f, q)
    ensures Inside(t, r) && r == GetFullPath(t, q[|GetFullPath(f, [])|..])
  {
    GetFullPath(t, []) + q[|GetFullPath(f, [])|..]
  }

  lemma MovedInjective(f: bytes, t: bytes, a: bytes, b: bytes)
    requires Inside(f, a) && Inside(f, b) && Moved(f, t, a) == Moved(f, t, b)
    ensures a == b
  {
    var n, d := |GetFullPath(f, [])|, GetFullPath(t, []);
    assert a[n..] == Moved(f, t, a)[|d|..] && b[n..] == Moved(f, t, b)[|d|..];
    assert a == a[..n] + a[n..] && b == b[..n] + b[n..];
  }

  /** Something has this name. */
  predicate Exists(fs: Fs, p: bytes) {
    p in fs.names || p in fs.dirs
  }

  /** Nothing lies in the directory `p`. */
  predicate Empty(fs: Fs, p: bytes) {
    && (forall q :: q in fs.names ==> !Inside(p, q))
    && (forall q :: q in fs.dirs ==> !Inside(p, q))
  }

  /** The entries every directory has: itself and its parent. */
  const DOT: bytes := [46]
  const DOT_DOT: bytes := [46, 46]

  predicate IsDots(name: bytes) {
    name == DOT || name == DOT_DOT
  }

  /** A path spelled through such an entry; what it names is not modelled. */
  predicate Dotted(p: bytes) {
    var n := |p|;
    n >= 2 && p[n - 1] == 46 && (p[n - 2] == SLASH || (n >= 3 && p[n - 2] == 46 && p[n - 3] == SLASH))
  }

  lemma DotsAreDotted(d: bytes, n: bytes)
    requires IsDots(n)
    ensures Dotted(GetFullPath(d, n))
  {
    var p, base := GetFullPath(d, n), GetFullPath(d, []);
    assert p == base + n && base[|base| - 1] == SLASH;
  }

  /** A path up to its first separator. */
  function First(s: bytes): (r: bytes)
    ensures SLASH !in r && r <= s && (r == s || s[|r|] == SLASH)
  {
    if s == [] || s[0] == SLASH then []
    else
      assert [s[0]] + s[1..] == s;
      [s[0]] + First(s[1..])
  }

  /** The names of what lies directly in the directory `p`. */
  function Children(fs: Fs, p: bytes): set<bytes> {
    set q | q in fs.names.Keys + fs.dirs && Inside(p, q) :: First(q[|GetFullPath(p, [])|..])
  }

  /** A child is the next step on the way to something inside the directory; what exists under a
      name joined to the directory is a child by that name; and an empty directory has none. */
  lemma ChildMeaning(fs: Fs, p: bytes, n: bytes)
    ensures n in Children(fs, p) ==> exists q :: Exists(fs, q) && (q == GetFullPath(p, n) || GetFullPath(p, n) + [SLASH] <= q)
    ensures n != [] && SLASH !in n && Exists(fs, GetFullPath(p, n)) ==> n in Children(fs, p)
    ensures Children(fs, p) == {} <==> Empty(fs, p)
  {
    var d := GetFullPath(p, []);
    if n in Children(fs, p) {
      var q :| q in fs.names.Keys + fs.dirs && Inside(p, q) && First(q[|d|..]) == n;
      assert q == d + q[|d|..] && GetFullPath(p, n) == d + n;
      assert n != q[|d|..] ==> (d + n) + [SLASH] <= q;
      assert Exists(fs, q);
    }
    if n != [] && SLASH !in n && Exists(fs, GetFullPath(p, n)) {
      var q := GetFullPath(p, n);
      assert q == d + n && q[|d|..] == n;
      FirstOfName(n);
      assert q in fs.names.Keys + fs.dirs && Inside(p, q);
    }
    if !Empty(fs, p) {
      var q :| q in fs.names.Keys + fs.dirs && Inside(p, q);
      assert First(q[|d|..]) in Children(fs, p);
    }
  }

  lemma {:induction false} FirstOfName(n: bytes)
    requires SLASH !in n
    ensures First(n) == n
  {
    if n != [] {
      assert n == [n[0]] + n[1..];
      FirstOfName(n[1..]);
    }
  }

  /** Everything `readdir` reports, each name once. */
  ghost predicate Lists(fs: Fs, p: bytes, names: seq<bytes>) {
    && (forall n :: n in names <==> IsDots(n) || n in Children(fs, p))
    && (forall i, j :: 0 <= i < j < |names| ==> names[i] != names[j])
  }

  /** One reported entry for each name: listed with its stat, or skipped. */
  ghost predicate Describes(fs: Fs, p: bytes, names: seq<bytes>, es: seq<Entry>) {
    && |es| == |names|
    && forall i :: 0 <= i < |es| && es[i].Listed? ==>
         es[i].name == names[i] && StatServed(fs, GetFullPath(p, names[i]), Statted(es[i].stat))
  }

  ghost predicate ListingServed(fs: Fs, p: bytes, es: seq<Entry>) {
    && (p in fs.dirs || !Empty(fs, p))
    && exists names: seq<bytes> :: Lists(fs, p, names) && Describes(fs, p, names, es)
  }

  function NamesListed(es: seq<Entry>): set<bytes> {
    set e | e in es && e.Listed? :: e.name
  }

  /** What a listing delivers: only entries of the directory, none twice, each with its own stat; one
      report for every entry; and all of them if none was skipped. */
  lemma ListingComplete(fs: Fs, p: bytes, es: seq<Entry>)
    requires ListingServed(fs, p, es)
    ensures |es| == |{DOT, DOT_DOT} + Children(fs, p)|
    ensures NamesListed(es) <= {DOT, DOT_DOT} + Children(fs, p)
    ensures forall i, j :: 0 <= i < j < |es| && es[i].Listed? && es[j].Listed? ==> es[i].name != es[j].name
    ensures forall e :: e in es && e.Listed? ==> StatServed(fs, GetFullPath(p, e.name), Statted(e.stat))
    ensures (forall e :: e in es ==> e.Listed?) ==> NamesListed(es) == {DOT, DOT_DOT} + Children(fs, p)
  {
    hide Children, StatServed, Empty;
    var names: seq<bytes> :| Lists(fs, p, names) && Describes(fs, p, names, es);
    var all := {DOT, DOT_DOT} + Children(fs, p);
    SizeOfDistinct(names, all);
    forall e | e in es && e.Listed? ensures e.name in all && StatServed(fs, GetFullPath(p, e.name), Statted(e.stat)) {
      var i :| 0 <= i < |es| && es[i] == e;
      assert names[i] in names;
    }
    if forall e :: e in es ==> e.Listed? {
      forall n | n in all ensures n in NamesListed(es) {
        var i :| 0 <= i < |names| && names[i] == n;
        assert es[i] in es;
      }
    }
  }

  lemma {:induction false} SizeOfDistinct(names: seq<bytes>, all: set<bytes>)
    requires forall n :: n in names <==> n in all
    requires forall i, j :: 0 <= i < j < |names| ==> names[i] != names[j]
    ensures |names| == |all|
  {
    if names == [] {
      assert all == {};
    } else {
      var last := names[|names| - 1];
      SizeOfDistinct(names[..|names| - 1], all - {last});
      assert |all| == |all - {last}| + 1;
    }
  }

  /** `rename` is possible: a file replaces at most a file, a directory at most an empty directory,
      and no directory moves into itself. */
  predicate CanRename(fs: Fs, f: bytes, t: bytes) {
    if f in fs.names then t !in fs.dirs
    else f in fs.dirs && (f == t || (t !in fs.names && Empty(fs, t) && !Inside(f, t)))
  }

  /** The device after a `rename` of a file, or of a directory with everything inside it. */
  function Renamed(fs: Fs, f: bytes, t: bytes): Fs {
    if f == t then fs
    else if f in fs.names then fs.(names := (fs.names - {f})[t := fs.names[f]])
    else fs.(names := MovedNames(fs.names, f, t), dirs := MovedDirs(fs.dirs, f, t))
  }

  function MovedNames(names: map<bytes, nat>, f: bytes, t: bytes): map<bytes, nat> {
    MovedApart(names, f, t);
    (map q | q in names && !Inside(f, q) :: names[q]) + (map q | q in names && Inside(f, q) :: Moved(f, t, q) := names[q])
  }

  function MovedDirs(dirs: set<bytes>, f: bytes, t: bytes): set<bytes> {
    (set q | q in dirs && q != f && !Inside(f, q)) + {t} + (set q | q in dirs && Inside(f, q) :: Moved(f, t, q))
  }

  lemma MovedApart(names: map<bytes, nat>, f: bytes, t: bytes)
    ensures forall a, b :: a in names && b in names && Inside(f, a) && Inside(f, b) && Moved(f, t, a) == Moved(f, t, b) ==> a == b
  {
    forall a, b | a in names && b in names && Inside(f, a) && Inside(f, b) && Moved(f, t, a) == Moved(f, t, b)
      ensures a == b
    {
      MovedInjective(f, t, a, b);
    }
  }

  /** Where a name of the moved tree came from. */
  lemma MovedNameFrom(fs: Fs, f: bytes, t: bytes, p: bytes) returns (q: bytes)
    requires p in MovedNames(fs.names, f, t)
    ensures q in fs.names && MovedNames(fs.names, f, t)[p] == fs.names[q]
    ensures p == if Inside(f, q) then Moved(f, t, q) else q
  {
    hide Inside, Moved;
    MovedApart(fs.names, f, t);
    if q' :| q' in fs.names && Inside(f, q') && Moved(f, t, q') == p {
      q := q';
    } else {
      q := p;
    }
  }

  lemma MovedNamesApart(fs: Fs, f: bytes, t: bytes)
    requires fs.Valid() && Empty(fs, t)
    ensures var after := MovedNames(fs.names, f, t);
            && (forall p :: p in after ==> after[p] in fs.content)
            && (forall p, q :: p in after && q in after && after[p] == after[q] ==> p == q)
  {
    var after := MovedNames(fs.names, f, t);
    hide MovedNames, Inside, Moved, Empty;
    forall p | p in after ensures after[p] in fs.content {
      var x := MovedNameFrom(fs, f, t, p);
    }
    forall p, q | p in after && q in after && after[p] == after[q] ensures p == q {
      var x := MovedNameFrom(fs, f, t, p);
      var y := MovedNameFrom(fs, f, t, q);
    }
  }

  /** Where a directory of the moved tree came from. */
  lemma MovedDirFrom(fs: Fs, f: bytes, t: bytes, p: bytes) returns (q: bytes)
    requires p in MovedDirs(fs.dirs, f, t) && p != t
    ensures q in fs.dirs && q != f && p == if Inside(f, q) then Moved(f, t, q) else q
  {
    hide Inside, Moved;
    if q' :| q' in fs.dirs && q' != f && Inside(f, q') && Moved(f, t, q') == p {
      q := q';
    } else {
      NotInItself(f);
      q := p;
    }
  }

  lemma NotInItself(p: bytes)
    ensures !Inside(p, p)
  {
  }

  lemma MovedTreeApart(fs: Fs, f: bytes, t: bytes)
    requires fs.Valid() && Empty(fs, t) && t !in fs.names
    ensures MovedNames(fs.names, f, t).Keys !! MovedDirs(fs.dirs, f, t)
  {
    hide MovedNames, MovedDirs, Inside, Moved;
    NotInItself(t);
    forall p | p in MovedNames(fs.names, f, t) ensures p !in MovedDirs(fs.dirs, f, t) {
      var x := MovedNameFrom(fs, f, t, p);
      if p != t && p in MovedDirs(fs.dirs, f, t) {
        var y := MovedDirFrom(fs, f, t, p);
        if Inside(f, x) && Inside(f, y) {
          MovedInjective(f, t, x, y);
        }
        assert false;
      }
    }
  }

  /** A rename changes no content: every surviving name still leads to the file it led to, no two
      names share one, and no file and directory share a name. */
  lemma RenamedValid(fs: Fs, f: bytes, t: bytes)
    requires fs.Valid() && CanRename(fs, f, t)
    ensures Renamed(fs, f, t).Valid()
  {
    hide MovedNames, MovedDirs, Inside, Empty;
    if f != t && f !in fs.names {
      MovedNamesApart(fs, f, t);
      MovedTreeApart(fs, f, t);
    }
  }

  /** A renamed file is found under its new name alone, and everything else stays where it was. */
  lemma RenameMovesFile(fs: Fs, f: bytes, t: bytes, q: bytes)
    requires CanRename(fs, f, t) && f != t && f in fs.names
    ensures var after := Renamed(fs, f, t);
            && t in after.names && after.names[t] == fs.names[f] && f !in after.names && after.dirs == fs.dirs
            && (q != f && q != t ==> (q in after.names <==> q in fs.names) && (q in fs.names ==> after.names[q] == fs.names[q]))
  {
    hide CanRename;
  }

  /** Every file and directory inside a renamed directory is found at its place under the new path,
      nothing is left at or inside the old one, and everything outside both stays where it was. */
  lemma RenameMovesDirectory(fs: Fs, f: bytes, t: bytes, q: bytes)
    requires fs.Valid() && CanRename(fs, f, t) && f != t && f in fs.dirs
    ensures var after := Renamed(fs, f, t);
            && t in after.dirs && (q == f || Inside(f, q) ==> !Exists(after, q))
            && (Inside(f, q) && q in fs.names ==> Moved(f, t, q) in after.names && after.names[Moved(f, t, q)] == fs.names[q])
            && (Inside(f, q) && q in fs.dirs ==> Moved(f, t, q) in after.dirs)
            && (q != f && q != t && !Inside(f, q) && !Inside(t, q) ==>
                (q in after.names <==> q in fs.names) && (q in fs.names ==> after.names[q] == fs.names[q])
                && (q in after.dirs <==> q in fs.dirs))
  {
    if q == f || Inside(f, q) {
      DirectoryGone(fs, f, t, q);
    }
    NamesMoved(fs.names, f, t, q);
    DirsMoved(fs.dirs, f, t, q);
    hide Inside, Moved, MovedNames, MovedDirs, Exists, Empty;
  }

  lemma NamesMoved(names: map<bytes, nat>, f: bytes, t: bytes, q: bytes)
    ensures var after := MovedNames(names, f, t);
            && (Inside(f, q) && q in names ==> Moved(f, t, q) in after && after[Moved(f, t, q)] == names[q])
            && (!Inside(f, q) && !Inside(t, q) ==> (q in after <==> q in names) && (q in names ==> after[q] == names[q]))
  {
    MovedApart(names, f, t);
    MovedLandInside(f, t);
    hide Inside, Moved;
  }

  lemma MovedLandInside(f: bytes, t: bytes)
    ensures forall x :: Inside(f, x) ==> Inside(t, Moved(f, t, x))
  {
  }

  lemma DirsMoved(dirs: set<bytes>, f: bytes, t: bytes, q: bytes)
    ensures var after := MovedDirs(dirs, f, t);
            && t in after && (Inside(f, q) && q in dirs ==> Moved(f, t, q) in after)
            && (q != f && q != t && !Inside(f, q) && !Inside(t, q) ==> (q in after <==> q in dirs))
  {
    MovedLandInside(f, t);
    hide Inside, Moved;
  }

  lemma DirectoryGone(fs: Fs, f: bytes, t: bytes, q: bytes)
    requires fs.Valid() && CanRename(fs, f, t) && f != t && f in fs.dirs && (q == f || Inside(f, q))
    ensures !Exists(Renamed(fs, f, t), q)
  {
    hide MovedNames, MovedDirs, Inside, Moved;
    if q in MovedNames(fs.names, f, t) {
      var x := MovedNameFrom(fs, f, t, q);
      if Inside(f, x) { OutOfTheWay(f, t, x); }
      assert false;
    }
    if q in MovedDirs(fs.dirs, f, t) {
      var y := MovedDirFrom(fs, f, t, q);
      if Inside(f, y) { OutOfTheWay(f, t, y); }
      assert false;
    }
  }

  /** A file that moves out of a directory lands in it again only if one directory holds the other. */
  lemma OutOfTheWay(f: bytes, t: bytes, x: bytes)
    requires Inside(f, x)
    ensures Moved(f, t, x) == f || Inside(f, Moved(f, t, x)) ==> Inside(t, x) || Inside(f, t)
  {
    var a, b, q := GetFullPath(f, []), GetFullPath(t, []), Moved(f, t, x);
    if a < q {
      assert a == q[..|a|] && b == q[..|b|];
      if |b| <= |a| {
        assert b == a[..|b|] && a == x[..|a|];
      } else {
        assert a == b[..|a|] && a[|a| - 1] == SLASH;
      }
    }
  }

  /** What a request about names and metadata does: only a removal, a move or a new directory changes
      the tree, and only when it succeeds. A stat finds exactly what is there. */
  ghost predicate NamingServed(fs: Fs, head: Head, reply: Reply, fs': Fs) {
    match head
    case RemoveFile(p) =>
      if reply == Done(SUCCESS) then p in fs.names && fs' == fs.(names := fs.names - {p}) else fs' == fs
    case MoveEntry(f, t, overwrite) =>
      if reply == Done(SUCCESS) then (overwrite || !Exists(fs, t)) && CanRename(fs, f, t) && fs' == Renamed(fs, f, t)
      else fs' == fs
    case CreateDirectory(p) =>
      if reply == Done(SUCCESS) then !Exists(fs, p) && fs' == fs.(dirs := fs.dirs + {p}) else fs' == fs
    case RemoveDirectory(p) =>
      if reply == Done(SUCCESS) then p in fs.dirs && Empty(fs, p) && fs' == fs.(dirs := fs.dirs - {p}) else fs' == fs
    case CheckRemoveFile(p) => fs' == fs && (GetParentPath(p).None? ==> reply == Done(ACCESS_DENIED))
    case CheckRemoveDirectory(p) =>
      && fs' == fs && (GetParentPath(p).None? ==> reply == Done(ACCESS_DENIED))
      && (reply == Done(SUCCESS) ==> Empty(fs, p))
    case StatFile(p) => fs' == fs && StatServed(fs, p, reply)
    case ListDirectory(p) => fs' == fs && (reply.Listing? ==> ListingServed(fs, p, reply.entries))
    case _ => fs' == fs
  }

  /** A stat succeeds only for what exists, tells files and directories apart and reports a file's
      length; it answers "not found" only for what does not exist. */
  ghost predicate StatServed(fs: Fs, p: bytes, reply: Reply) {
    !Dotted(p) ==>
      && (reply.Statted? ==> Exists(fs, p) && (IsDirectoryMode(reply.stat.mode) <==> p in fs.dirs))
      && (reply.Statted? && fs.Valid() && p in fs.names ==> reply.stat.size == |fs.content[fs.names[p]]|)
      && (reply == Done(FILE_NOT_FOUND) ==> !Exists(fs, p))
  }

  /** The file type in the top four bits of the mode. */
  predicate IsDirectoryMode(mode: u16) {
    mode / 0x1000 == 4
  }

  lemma DirectoryModes(mode: u16)
    ensures IsDirectoryMode(mode) <==> 0x4000 <= mode < 0x5000
  {
  }

  lemma NamingKeeps(fs: Fs, head: Head, reply: Reply, fs': Fs)
    requires NamingServed(fs, head, reply, fs')
    ensures fs'.content == fs.content && fs'.fds == fs.fds
  {
  }

  /** One request acting on the device, with every reply it may produce. */
  ghost predicate Serves(fs: Fs, r: Request, reply: Reply, fs': Fs) {
    && Fits(r.head, reply)
    && fs'.Valid()
    && match r.head
       case OpenHandle(p, m, ra, wa) =>
         if !ra && !wa then fs' == fs && reply == Done(GENERIC_FAILURE)
         else
           exists c: OpenChoice :: fs.Valid() && FairChoice(fs, c) &&
             var out := OpenCall(fs, p, FlagsFor(m, ra, wa), c);
             fs' == out.0 && reply == if out.1 == 0 then Opened(c.fd) else Done(StatusFromErrno(out.1))
       case CloseHandle(h) =>
         fs' == fs.(fds := fs.fds - {h}) && reply == Done(SUCCESS)
       case ReadHandle(h, n, off) =>
         && fs'.names == fs.names && fs'.content == fs.content && fs'.dirs == fs.dirs
         && fs'.fds.Keys == fs.fds.Keys
         && (forall d :: d in fs.fds ==> fs'.fds[d] == fs.fds[d].(offset := fs'.fds[d].offset))
         && (reply.Data? ==> ReadServed(fs, h, n, off, reply.content))
       case WriteHandle(h, off, n) =>
         if !SeekOk(fs, h, off) then fs' == fs && reply.Done? && reply.status != SUCCESS
         else WriteServed(fs, h, off, r.payload, reply, fs')
       case TruncateHandle(h, n) =>
         if reply == Done(SUCCESS) then
           fs.Valid() && h in fs.fds && fs.fds[h].writable &&
           fs' == SetContent(fs, fs.fds[h].ino, Resize(FileOf(fs, h), n))
         else fs' == fs
       case _ => NamingServed(fs, r.head, reply, fs')
  }

  ghost predicate ReadServed(fs: Fs, h: nat, n: nat, off: nat, data: bytes) {
    && fs.Valid() && SeekOk(fs, h, off) && (fs.fds[h].readable || n == 0)
    && data == ReadAt(FileOf(fs, h), off, n)
  }

  /** A successful write splices the whole payload in; a failed one some prefix of it. Only the
      content of the descriptor's file and the descriptor's offset change. */
  ghost predicate WriteServed(fs: Fs, h: nat, off: nat, payload: bytes, reply: Reply, fs': Fs) {
    exists k: nat :: k <= |payload| && Wrote(fs, h, off, payload[..k], fs') &&
      reply.Done? && (reply.status == SUCCESS ==> k == |payload|)
  }

  ghost predicate Wrote(fs: Fs, h: nat, off: nat, written: bytes, fs': Fs) {
    && fs.Valid() && h in fs.fds
    && (written != [] ==> fs.fds[h].writable)
    && fs' == SetOffset(SetContent(fs, fs.fds[h].ino, Splice(FileOf(fs, h), off, written)), h, off + |written|)
  }

  /** Nothing written yet: only the offset moved. */
  lemma WroteNothing(fs: Fs, h: nat, off: nat)
    requires fs.Valid() && h in fs.fds
    ensures Wrote(fs, h, off, [], SetOffset(fs, h, off))
  {
    var ino := fs.fds[h].ino;
    assert fs.content[ino := fs.content[ino]] == fs.content;
  }

  lemma WroteOffset(fs: Fs, h: nat, off: nat, written: bytes, fs': Fs)
    requires Wrote(fs, h, off, written, fs')
    ensures h in fs'.fds && fs'.fds[h].offset == off + |written|
  {
  }

  /** A further short write extends what has been written. */
  lemma WroteMore(fs: Fs, h: nat, off: nat, a: bytes, fs1: Fs, b: bytes, fs2: Fs)
    requires Wrote(fs, h, off, a, fs1) && Wrote(fs1, h, off + |a|, b, fs2)
    ensures Wrote(fs, h, off, a + b, fs2)
  {
    hide *;
    WroteRequires(fs, h, off, a, fs1);
    WroteRequires(fs1, h, off + |a|, b, fs2);
    var ino, f := fs.fds[h].ino, FileOf(fs, h);
    SpliceSplit(f, off, a, b);
    var g, g2 := Splice(f, off, a), Splice(f, off, a + b);
    WroteParts(fs, h, off, a, fs1);
    WroteParts(fs1, h, off + |a|, b, fs2);
    assert fs.content[ino := g][ino := g2] == fs.content[ino := g2];
    var o1, o2 := fs.fds[h].(offset := off + |a|), fs.fds[h].(offset := off + |a + b|);
    assert fs.fds[h := o1][h := o2] == fs.fds[h := o2];
    WroteFromParts(fs, h, off, a + b, fs2);
  }

  lemma WroteRequires(fs: Fs, h: nat, off: nat, written: bytes, fs': Fs)
    requires Wrote(fs, h, off, written, fs')
    ensures fs.Valid() && h in fs.fds && (written != [] ==> fs.fds[h].writable)
  {
  }

  lemma WroteFromParts(fs: Fs, h: nat, off: nat, written: bytes, fs': Fs)
    requires fs.Valid() && h in fs.fds && (written != [] ==> fs.fds[h].writable)
    requires fs'.names == fs.names && fs'.dirs == fs.dirs
    requires fs'.content == fs.content[fs.fds[h].ino := Splice(FileOf(fs, h), off, written)]
    requires fs'.fds == fs.fds[h := fs.fds[h].(offset := off + |written|)]
    ensures Wrote(fs, h, off, written, fs')
  {
  }

  /** A write, component by component. */
  lemma WroteParts(fs: Fs, h: nat, off: nat, written: bytes, fs': Fs)
    requires Wrote(fs, h, off, written, fs')
    ensures fs.Valid() && h in fs.fds && h in fs'.fds
    ensures fs'.names == fs.names && fs'.dirs == fs.dirs
    ensures fs'.content == fs.content[fs.fds[h].ino := Splice(FileOf(fs, h), off, written)]
    ensures fs'.fds == fs.fds[h := fs.fds[h].(offset := off + |written|)]
    ensures fs'.Valid() && FileOf(fs', h) == Splice(FileOf(fs, h), off, written)
  {
  }

  /** How much payload the daemon takes off the stream behind a head: none if its seek fails. */
  function Takes(fs: Fs, head: Head): nat {
    if head.WriteHandle? && SeekOk(fs, head.handle, head.offset) then head.dataLen else 0
  }

  lemma ServedReading(fs: Fs, head: Head, reply: Reply, at: nat, fs': Fs)
    requires fs.Valid() && head.ReadHandle? && Fits(head, reply)
    requires fs' == fs || (head.handle in fs.fds && fs' == SetOffset(fs, head.handle, at))
    requires reply.Data? ==> ReadServed(fs, head.handle, head.dataLen, head.offset, reply.content)
    ensures Serves(fs, Request(head, []), reply, fs')
  {
  }

  /** A write whose seek fails changes nothing, whatever its payload. */
  lemma ServedUnsought(fs: Fs, head: Head, reply: Reply)
    requires fs.Valid() && head.WriteHandle? && !SeekOk(fs, head.handle, head.offset)
    requires reply.Done? && reply.status != SUCCESS
    ensures forall payload: bytes :: Serves(fs, Request(head, payload), reply, fs)
  {
  }

  lemma SeekRequires(fs: Fs, h: nat, off: nat)
    requires SeekOk(fs, h, off)
    ensures h in fs.fds
  {
  }

  lemma ServedWriting(fs: Fs, head: Head, payload: bytes, k: nat, reply: Reply, fs': Fs)
    requires head.WriteHandle? && SeekOk(fs, head.handle, head.offset) && fs'.Valid()
    requires k <= |payload| && Wrote(fs, head.handle, head.offset, payload[..k], fs')
    requires reply.Done? && (reply.status == SUCCESS ==> k == |payload|)
    ensures Serves(fs, Request(head, payload), reply, fs')
  {
  }

  lemma ServedNaming(fs: Fs, head: Head, reply: Reply, fs': Fs)
    requires Fits(head, reply) && fs'.Valid() && NamingServed(fs, head, reply, fs')
    requires !head.OpenHandle? && !head.CloseHandle? && !head.ReadHandle? && !head.WriteHandle? && !head.TruncateHandle?
    ensures Serves(fs, Request(head, []), reply, fs')
  {
  }

  lemma ServedOpening(fs: Fs, head: Head, c: OpenChoice, fs': Fs, errno: int)
    requires fs.Valid() && head.OpenHandle? && (head.readAccess || head.writeAccess) && FairChoice(fs, c)
    requires (fs', errno) == OpenCall(fs, head.path, FlagsFor(head.mode, head.readAccess, head.writeAccess), c)
    ensures errno == 0 ==> Serves(fs, Request(head, []), Opened(c.fd), fs')
    ensures errno != 0 ==> Serves(fs, Request(head, []), Done(StatusFromErrno(errno)), fs')
  {
    ErrnoNeverSucceeds(errno);
  }

  // ----- over a whole log -----

  /** `states` are the device before, between and after serving the logged requests in order. */
  ghost predicate Trace(states: seq<Fs>, log: seq<Exchanged>) {
    && |states| == |log| + 1
    && (forall i :: 0 <= i < |states| ==> states[i].Valid())
    && forall i :: 0 <= i < |log| ==> Serves(states[i], log[i].request, log[i].reply, states[i + 1])
  }

  lemma TraceOne(states: seq<Fs>, log: seq<Exchanged>, x: Exchanged, fs': Fs)
    requires Trace(states, log) && Serves(states[|log|], x.request, x.reply, fs')
    ensures Trace(states + [fs'], log + [x])
  {
    hide Serves, Fs.Valid;
    ServesValid(states[|log|], x.request, x.reply, fs');
    var more, longer := states + [fs'], log + [x];
    forall i | 0 <= i < |longer| ensures Serves(more[i], longer[i].request, longer[i].reply, more[i + 1]) {
      if i < |log| {
        assert more[i] == states[i] && more[i + 1] == states[i + 1] && longer[i] == log[i];
      }
    }
  }

  lemma TraceLength(states: seq<Fs>, log: seq<Exchanged>)
    requires Trace(states, log)
    ensures |states| == |log| + 1
  {
  }

  lemma TracePrefix(states: seq<Fs>, log: seq<Exchanged>, n: nat)
    requires Trace(states, log) && n <= |log|
    ensures Trace(states[..n + 1], log[..n])
  {
    hide Serves, Fs.Valid;
    forall i | 0 <= i < n ensures Serves(states[..n + 1][i], log[..n][i].request, log[..n][i].reply, states[..n + 1][i + 1]) {
      assert Serves(states[i], log[i].request, log[i].reply, states[i + 1]);
    }
  }

  lemma ServesValid(fs: Fs, r: Request, reply: Reply, fs': Fs)
    requires Serves(fs, r, reply, fs')
    ensures fs'.Valid()
  {
  }

  /** What an answered request means for the file `ino` with content `f`: a successful write splices
      its payload in, a successful length change resizes, an open that truncates empties. */
  function Effect(fs: Fs, x: Exchanged, ino: nat, f: bytes): bytes {
    match x.request.head
    case WriteHandle(h, off, _) =>
      if x.reply == Done(SUCCESS) && Refers(fs, h, ino) then Splice(f, off, x.request.payload) else f
    case TruncateHandle(h, n) =>
      if x.reply == Done(SUCCESS) && Refers(fs, h, ino) then Resize(f, n) else f
    case OpenHandle(p, m, ra, wa) =>
      if x.reply.Opened? && p in fs.names && fs.names[p] == ino && FlagsFor(m, ra, wa).trunc then [] else f
    case _ => f
  }

  predicate Refers(fs: Fs, h: nat, ino: nat) {
    h in fs.fds && fs.fds[h].ino == ino
  }

  /** A write to the file that was begun and failed: it may have left any prefix of its payload. */
  predicate Torn(fs: Fs, x: Exchanged, ino: nat) {
    && x.request.head.WriteHandle? && x.reply != Done(SUCCESS) && Refers(fs, x.request.head.handle, ino)
    && SeekOk(fs, x.request.head.handle, x.request.head.offset)
  }

  /** Every request but a torn write has exactly its effect on every file. */
  lemma ServedEffect(fs: Fs, x: Exchanged, fs': Fs, ino: nat)
    requires fs.Valid() && Serves(fs, x.request, x.reply, fs') && ino in fs.content && !Torn(fs, x, ino)
    ensures ino in fs'.content && fs'.content[ino] == Effect(fs, x, ino, fs.content[ino])
  {
    var r := x.request;
    match r.head
    case WriteHandle(h, off, _) =>
      if SeekOk(fs, h, off) {
        WriteEffect(fs, x, fs', ino);
      }
    case OpenHandle(p, m, ra, wa) =>
      if ra || wa {
        OpenEffect(fs, x, fs', ino);
      }
    case TruncateHandle(_, _) =>
    case CloseHandle(_) =>
    case ReadHandle(_, _, _) =>
    case _ => NamingKeeps(fs, r.head, x.reply, fs');
  }

  lemma WriteEffect(fs: Fs, x: Exchanged, fs': Fs, ino: nat)
    requires fs.Valid() && ino in fs.content && !Torn(fs, x, ino) && x.request.head.WriteHandle?
    requires SeekOk(fs, x.request.head.handle, x.request.head.offset)
    requires WriteServed(fs, x.request.head.handle, x.request.head.offset, x.request.payload, x.reply, fs')
    ensures ino in fs'.content && fs'.content[ino] == Effect(fs, x, ino, fs.content[ino])
  {
    hide Wrote, Fs.Valid, Splice;
    var h, off, payload := x.request.head.handle, x.request.head.offset, x.request.payload;
    var k: nat :| k <= |payload| && Wrote(fs, h, off, payload[..k], fs') && x.reply.Done? && (x.reply.status == SUCCESS ==> k == |payload|);
    WroteParts(fs, h, off, payload[..k], fs');
    if x.reply == Done(SUCCESS) {
      assert payload[..k] == payload;
    }
  }

  lemma OpenEffect(fs: Fs, x: Exchanged, fs': Fs, ino: nat)
    requires fs.Valid() && ino in fs.content && x.request.head.OpenHandle?
    requires x.request.head.readAccess || x.request.head.writeAccess
    requires Serves(fs, x.request, x.reply, fs')
    ensures ino in fs'.content && fs'.content[ino] == Effect(fs, x, ino, fs.content[ino])
  {
  }

  /** The file's content as the log says it must be after request `j`, counted from state `k`. */
  function Replay(states: seq<Fs>, log: seq<Exchanged>, ino: nat, k: nat, j: nat): bytes
    requires k <= j <= |log| <= |states| && k < |states| && ino in states[k].content
  {
    if j == k then states[k].content[ino]
    else Effect(states[j - 1], log[j - 1], ino, Replay(states, log, ino, k, j - 1))
  }

  /** In every run of the device, whatever other files are opened, closed, written, renamed or
      removed: a file holds exactly what the answered requests on it say, as long as no write to it
      fails half-way. */
  lemma {:induction false} ContentReplays(states: seq<Fs>, log: seq<Exchanged>, ino: nat, k: nat, j: nat)
    requires Trace(states, log) && k <= j <= |log| && ino in states[k].content
    requires forall i :: k <= i < j ==> !Torn(states[i], log[i], ino)
    ensures ino in states[j].content && states[j].content[ino] == Replay(states, log, ino, k, j)
  {
    hide Serves, Fs.Valid, Torn, Effect;
    if k < j {
      ContentReplays(states, log, ino, k, j - 1);
      ServedEffect(states[j - 1], log[j - 1], states[j], ino);
    }
  }

  /** A read is answered from the replayed file: exactly the requested window, never more. */
  lemma ReadReplays(states: seq<Fs>, log: seq<Exchanged>, ino: nat, k: nat, j: nat)
    requires Trace(states, log) && k <= j < |log| && ino in states[k].content
    requires forall i :: k <= i < j ==> !Torn(states[i], log[i], ino)
    requires log[j].request.head.ReadHandle? && log[j].reply.Data? && Refers(states[j], log[j].request.head.handle, ino)
    ensures var r := log[j].request.head;
            && log[j].reply.content == ReadAt(Replay(states, log, ino, k, j), r.offset, r.dataLen)
            && |log[j].reply.content| <= r.dataLen
  {
    ContentReplays(states, log, ino, k, j);
    var r := log[j].request.head;
    ReadIsServed(states[j], log[j].request, log[j].reply, states[j + 1]);
  }

  lemma ReadIsServed(fs: Fs, r: Request, reply: Reply, fs': Fs)
    requires r.head.ReadHandle? && reply.Data? && Serves(fs, r, reply, fs')
    ensures fs.Valid() && r.head.handle in fs.fds
    ensures reply.content == ReadAt(FileOf(fs, r.head.handle), r.head.offset, r.head.dataLen)
    ensures |reply.content| <= r.head.dataLen
  {
  }

  /** Requests that leave the file `ino` alone: writes and length changes of other files, opens that
      do not truncate this one, and everything else. */
  predicate Spares(fs: Fs, head: Head, ino: nat) {
    match head
    case WriteHandle(h, _, _) => !Refers(fs, h, ino)
    case TruncateHandle(h, _) => !Refers(fs, h, ino)
    case OpenHandle(p, m, ra, wa) => p in fs.names && fs.names[p] == ino ==> !FlagsFor(m, ra, wa).trunc
    case _ => true
  }

  lemma {:induction false} SparedReplay(states: seq<Fs>, log: seq<Exchanged>, ino: nat, k: nat, m: nat, j: nat)
    requires k <= m <= j <= |log| < |states| && ino in states[k].content
    requires forall i :: m <= i < j ==> Spares(states[i], log[i].request.head, ino)
    ensures Replay(states, log, ino, k, j) == Replay(states, log, ino, k, m)
  {
    if m < j {
      SparedReplay(states, log, ino, k, m, j - 1);
    }
  }

  /** A successful write and a later read of the same file, through any descriptors, with any
      requests between them that spare the file: exactly the requested window of the file as it was
      before the write with the payload spliced in, never more than asked. */
  lemma ReadSeesWrite(states: seq<Fs>, log: seq<Exchanged>, ino: nat, k: nat, j: nat)
    requires Trace(states, log) && k < j < |log|
    requires log[k].request.head.WriteHandle? && log[k].reply == Done(SUCCESS) && Refers(states[k], log[k].request.head.handle, ino)
    requires log[j].request.head.ReadHandle? && log[j].reply.Data? && Refers(states[j], log[j].request.head.handle, ino)
    requires forall i :: k < i < j ==> Spares(states[i], log[i].request.head, ino)
    ensures ino in states[k].content
    ensures var w, r := log[k].request, log[j].request.head;
            && log[j].reply.content == ReadAt(Splice(states[k].content[ino], w.head.offset, w.payload), r.offset, r.dataLen)
            && |log[j].reply.content| <= r.dataLen
  {
    hide Serves, Fs.Valid, Spares, Torn, Splice, Effect;
    RefersTo(states[k], log[k].request.head.handle, ino);
    NotTorn(states[k], log[k], ino);
    SparedRead(states, log, ino, k, j);
    WriteReplays(states, log, ino, k);
  }

  /** A read after a request and others that spare the file: it sees what the request left. */
  lemma SparedRead(states: seq<Fs>, log: seq<Exchanged>, ino: nat, k: nat, j: nat)
    requires Trace(states, log) && k < j < |log| && ino in states[k].content && !Torn(states[k], log[k], ino)
    requires log[j].request.head.ReadHandle? && log[j].reply.Data? && Refers(states[j], log[j].request.head.handle, ino)
    requires forall i :: k < i < j ==> Spares(states[i], log[i].request.head, ino)
    ensures var r := log[j].request.head;
            && |log| < |states| && log[j].reply.content == ReadAt(Replay(states, log, ino, k, k + 1), r.offset, r.dataLen)
            && |log[j].reply.content| <= r.dataLen
  {
    hide *;
    TraceLength(states, log);
    SparedReplay(states, log, ino, k, k + 1, j);
    forall i | k <= i < j ensures !Torn(states[i], log[i], ino) {
      NotTorn(states[i], log[i], ino);
    }
    ReadReplays(states, log, ino, k, j);
  }

  /** The same after a successful length change: the old bytes as far as they and the new length go,
      and zeros behind them. */
  lemma ReadSeesLength(states: seq<Fs>, log: seq<Exchanged>, ino: nat, k: nat, j: nat)
    requires Trace(states, log) && k < j < |log|
    requires log[k].request.head.TruncateHandle? && log[k].reply == Done(SUCCESS) && Refers(states[k], log[k].request.head.handle, ino)
    requires log[j].request.head.ReadHandle? && log[j].reply.Data? && Refers(states[j], log[j].request.head.handle, ino)
    requires forall i :: k < i < j ==> Spares(states[i], log[i].request.head, ino)
    ensures ino in states[k].content
    ensures ReadsResized(states[k].content[ino], log[k].request.head.newLength, log[j].request.head.offset,
                         log[j].request.head.dataLen, log[j].reply.content)
  {
    hide Serves, Fs.Valid, Spares, Torn, Splice, Effect;
    RefersTo(states[k], log[k].request.head.handle, ino);
    NotTorn(states[k], log[k], ino);
    SparedRead(states, log, ino, k, j);
    LengthReplays(states, log, ino, k);
    hide ReadsResized, ReadAt, Resize, Replay, Trace;
    ResizedBytes(states[k].content[ino], log[k].request.head.newLength, log[j].request.head.offset, log[j].request.head.dataLen);
  }

  /** `d` is what a read of `len` bytes at `off` finds in a file `f` whose length has become `n`. */
  predicate ReadsResized(f: bytes, n: nat, off: nat, len: nat, d: bytes) {
    && |d| == (if n <= off then 0 else if n < off + len then n - off else len)
    && forall i :: 0 <= i < |d| ==> d[i] == if off + i < |f| then f[off + i] else 0
  }

  lemma ResizedBytes(f: bytes, n: nat, off: nat, len: nat)
    ensures ReadsResized(f, n, off, len, ReadAt(Resize(f, n), off, len))
  {
    ResizeAt(f, n);
    ReadAtBytes(Resize(f, n), off, len);
    hide Resize, ReadAt;
  }

  lemma LengthReplays(states: seq<Fs>, log: seq<Exchanged>, ino: nat, k: nat)
    requires k < |log| <= |states| && ino in states[k].content
    requires log[k].request.head.TruncateHandle? && log[k].reply == Done(SUCCESS) && Refers(states[k], log[k].request.head.handle, ino)
    ensures Replay(states, log, ino, k, k + 1) == Resize(states[k].content[ino], log[k].request.head.newLength)
  {
    assert Replay(states, log, ino, k, k) == states[k].content[ino];
  }

  lemma NotTorn(fs: Fs, x: Exchanged, ino: nat)
    ensures Spares(fs, x.request.head, ino) || x.reply == Done(SUCCESS) ==> !Torn(fs, x, ino)
  {
  }

  lemma WriteReplays(states: seq<Fs>, log: seq<Exchanged>, ino: nat, k: nat)
    requires k < |log| <= |states| && ino in states[k].content
    requires log[k].request.head.WriteHandle? && log[k].reply == Done(SUCCESS) && Refers(states[k], log[k].request.head.handle, ino)
    ensures Replay(states, log, ino, k, k + 1) == Splice(states[k].content[ino], log[k].request.head.offset, log[k].request.payload)
  {
    assert Replay(states, log, ino, k, k) == states[k].content[ino];
  }

  lemma RefersTo(fs: Fs, h: nat, ino: nat)
    requires fs.Valid() && Refers(fs, h, ino)
    ensures ino in fs.content
  {
  }

  /** A descriptor keeps its file, under any name and through any request, until it is closed. */
  lemma {:induction false} HandleKeepsFile(states: seq<Fs>, log: seq<Exchanged>, h: nat, ino: nat, k: nat, j: nat)
    requires Trace(states, log) && k <= j <= |log| && Refers(states[k], h, ino)
    requires forall i :: k <= i < j && log[i].request.head.CloseHandle? ==> log[i].request.head.handle != h
    ensures Refers(states[j], h, ino)
  {
    hide Fs.Valid, Serves, Refers;
    if k < j {
      HandleKeepsFile(states, log, h, ino, k, j - 1);
      ServedKeepsHandle(states[j - 1], log[j - 1].request, log[j - 1].reply, states[j], h, ino);
    }
  }

  lemma ServedKeepsHandle(fs: Fs, r: Request, reply: Reply, fs': Fs, h: nat, ino: nat)
    requires fs.Valid() && Serves(fs, r, reply, fs') && Refers(fs, h, ino)
    requires r.head.CloseHandle? ==> r.head.handle != h
    ensures Refers(fs', h, ino)
  {
    if r.head.WriteHandle? && SeekOk(fs, r.head.handle, r.head.offset) {
      var k: nat :| k <= |r.payload| && Wrote(fs, r.head.handle, r.head.offset, r.payload[..k], fs');
      WroteParts(fs, r.head.handle, r.head.offset, r.payload[..k], fs');
    }
  }

  // ----- some reply is always possible -----

  /** Whatever the device's state and the request, some reply and some next state are allowed. */
  lemma AlwaysServed(fs: Fs, r: Request) returns (reply: Reply, fs': Fs)
    requires fs.Valid()
    ensures Serves(fs, r, reply, fs')
  {
    reply, fs' := Done(GENERIC_FAILURE), fs;
    match r.head
    case OpenHandle(p, m, ra, wa) =>
      if ra || wa {
        var c := OpenChoice(24, 0, 0, false); // EMFILE
        assert FairChoice(fs, c) && OpenCall(fs, p, FlagsFor(m, ra, wa), c) == (fs, 24);
      }
    case CloseHandle(h) =>
      reply, fs' := Done(SUCCESS), fs.(fds := fs.fds - {h});
    case CheckRemoveFile(p) => reply := Done(ACCESS_DENIED);
    case CheckRemoveDirectory(p) => reply := Done(ACCESS_DENIED);
    case WriteHandle(h, off, _) =>
      if SeekOk(fs, h, off) {
        fs' := SetOffset(fs, h, off);
        WroteNothing(fs, h, off);
        ServedWriting(fs, r.head, r.payload, 0, reply, fs');
      }
    case _ =>
  }
}
