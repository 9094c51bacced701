/** Paths as cache keys: the separator and trailing-slash part of the conversion from Windows
    paths, joining, and the parent of an entry. */
module Paths {
  import opened Wire
  import opened TimedCache

  const SLASH: byte := 47
  const BACKSLASH: byte := 92

  predicate EndsWith(p: bytes, b: byte) {
    p != [] && p[|p| - 1] == b
  }

  function GetFullPath(dirPath: bytes, fileName: bytes): bytes {
    (if EndsWith(dirPath, SLASH) then dirPath else dirPath + [SLASH]) + fileName
  }

  /** `find_last_of`, by scanning from the back. */
  function FindLast(p: bytes, b: byte): (r: Option<nat>)
    ensures r.Some? ==> r.value < |p| && p[r.value] == b && forall i :: r.value < i < |p| ==> p[i] != b
    ensures r.None? ==> forall i :: 0 <= i < |p| ==> p[i] != b
  {
    if p == [] then None
    else if p[|p| - 1] == b then Some(|p| - 1)
    else FindLast(p[..|p| - 1], b)
  }

  function GetParentPath(path: bytes): Option<bytes> {
    var p := if EndsWith(path, SLASH) then path[..|path| - 1] else path;
    match FindLast(p, SLASH)
    case None => None
    case Some(i) => if i == 0 then None else Some(p[..i])
  }

  function Slashed(p: bytes): (r: bytes)
    ensures |r| == |p| && forall i :: 0 <= i < |p| ==> r[i] == if p[i] == BACKSLASH then SLASH else p[i]
  {
    seq(|p|, i requires 0 <= i < |p| => if p[i] == BACKSLASH then SLASH else p[i])
  }

  /** The key of a Windows path: separators replaced, one trailing slash dropped unless it is
      the whole path. */
  function ToUnix(winPath: bytes): bytes {
    var p := Slashed(winPath);
    if |p| > 1 && EndsWith(p, SLASH) then p[..|p| - 1] else p
  }

  /** A proper entry name: not empty, no separators. */
  predicate IsName(n: bytes) {
    n != [] && SLASH !in n && BACKSLASH !in n
  }

  /** The Windows path of entry `n` of directory `d`. */
  function Join(d: bytes, n: bytes): bytes {
    (if EndsWith(d, BACKSLASH) || EndsWith(d, SLASH) then d else d + [BACKSLASH]) + n
  }

  predicate IsRoot(d: bytes) {
    Slashed(d) == [] || Slashed(d) == [SLASH]
  }

  lemma FindLastName(p: bytes, n: bytes)
    requires EndsWith(p, SLASH) && SLASH !in n
    ensures FindLast(p + n, SLASH) == Some(|p| - 1)
  {
    var r := FindLast(p + n, SLASH);
    assert (p + n)[|p| - 1] == SLASH;
    assert forall i :: |p| <= i < |p + n| ==> (p + n)[i] == n[i - |p|];
  }

  /** The key of an entry, without the conversion. */
  lemma JoinKey(d: bytes, n: bytes)
    requires IsName(n)
    ensures ToUnix(Join(d, n)) == GetFullPath(Slashed(d), n)
  {
    assert Slashed(Join(d, n)) == GetFullPath(Slashed(d), n);
    var k := GetFullPath(Slashed(d), n);
    assert k[|k| - 1] == n[|n| - 1];
  }

  /** Invalidation reaches a directory exactly when it is not the root: the parent computed from
      an entry's key is the key under which the directory's listing is cached. */
  lemma ParentIsDirectoryKey(d: bytes, n: bytes)
    requires IsName(n)
    ensures GetParentPath(ToUnix(Join(d, n))) == if IsRoot(d) then None else Some(ToUnix(d))
  {
    JoinKey(d, n);
    var u := Slashed(d);
    var base := if EndsWith(u, SLASH) then u else u + [SLASH];
    var k := base + n;
    assert k[|k| - 1] == n[|n| - 1];
    FindLastName(base, n);
    assert k[..|base| - 1] == base[..|base| - 1];
    if EndsWith(u, SLASH) {
      assert |u| > 1 ==> ToUnix(d) == u[..|u| - 1];
    } else {
      assert base[..|u|] == u;
    }
  }

  /** A directory path with two separators at its end. */
  predicate DoubledEnd(d: bytes) {
    var u := Slashed(d);
    |u| > 1 && u[|u| - 1] == SLASH && u[|u| - 2] == SLASH
  }

  /** The key under which a listing stores an entry's stat is the key a later stat looks up,
      unless the listed path ended in a doubled separator. */
  lemma ListedEntryKey(d: bytes, n: bytes)
    requires IsName(n)
    ensures GetFullPath(ToUnix(d), n) == ToUnix(Join(d, n)) <==> !DoubledEnd(d)
  {
    JoinKey(d, n);
    var u := Slashed(d);
    if |u| > 1 && EndsWith(u, SLASH) {
      assert u == u[..|u| - 1] + [SLASH];
      if DoubledEnd(d) {
        assert |GetFullPath(ToUnix(d), n)| == |u| - 1 + |n|;
      }
    }
  }

  /** "desktop.ini" */
  const DESKTOP_INI: bytes := [100, 101, 115, 107, 116, 111, 112, 46, 105, 110, 105]

  predicate IsDesktopIni(p: bytes) {
    |p| >= |DESKTOP_INI| && p[|p| - |DESKTOP_INI|..] == DESKTOP_INI
  }

  /** The refused name, letter by letter, at the end of any path and of no other. */
  lemma DesktopIniSpelled(d: bytes, p: bytes)
    ensures |DESKTOP_INI| == |"desktop.ini"| && forall i :: 0 <= i < |DESKTOP_INI| ==> DESKTOP_INI[i] == "desktop.ini"[i] as int
    ensures IsDesktopIni(d + DESKTOP_INI)
    ensures IsDesktopIni(p) ==> exists front: bytes :: p == front + DESKTOP_INI
  {
    if IsDesktopIni(p) {
      assert p == p[..|p| - |DESKTOP_INI|] + DESKTOP_INI;
    }
  }
}
