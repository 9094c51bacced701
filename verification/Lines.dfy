/** Text arriving in chunks: complete lines, the unfinished rest, and searching for newlines. */
module Lines {
  import opened Wire

  const NEWLINE := '\n'

  /** `std::string::find` for one character: its first position from `from` on, or -1. */
  function Find(s: string, c: char, from: nat): (r: int)
    requires from <= |s|
    ensures r == -1 || from <= r < |s|
    ensures r == -1 ==> forall i :: from <= i < |s| ==> s[i] != c
    ensures r != -1 ==> s[r] == c && forall i :: from <= i < r ==> s[i] != c
    decreases |s| - from
  {
    if from == |s| then -1 else if s[from] == c then from else Find(s, c, from + 1)
  }

  /** The complete lines of a text, without their newlines. */
  function Complete(s: string): seq<string>
    decreases |s|
  {
    var i := Find(s, NEWLINE, 0);
    if i == -1 then [] else [s[..i]] + Complete(s[i + 1..])
  }

  /** What follows the last newline. */
  function Rest(s: string): string
    decreases |s|
  {
    var i := Find(s, NEWLINE, 0);
    if i == -1 then s else Rest(s[i + 1..])
  }

  predicate StartsWith(s: string, prefix: string) {
    prefix <= s
  }

  predicate EndsWith(s: string, c: char) {
    s != "" && s[|s| - 1] == c
  }

  lemma FindUnique(s: string, c: char, from: nat, i: nat)
    requires from <= i < |s| && s[i] == c && forall j :: from <= j < i ==> s[j] != c
    ensures Find(s, c, from) == i
  {
  }

  /** The next line of a text, found in place or at the front of what is left. */
  lemma NextLine(s: string, from: nat)
    requires from <= |s|
    ensures var next := Find(s, NEWLINE, from);
            && (next == -1 ==> Complete(s[from..]) == [] && Rest(s[from..]) == s[from..])
            && (next != -1 ==> Complete(s[from..]) == [s[from..next]] + Complete(s[next + 1..])
                               && Rest(s[from..]) == Rest(s[next + 1..]))
  {
    var next, t := Find(s, NEWLINE, from), s[from..];
    if next != -1 {
      FindUnique(t, NEWLINE, 0, next - from);
      assert t[..next - from] == s[from..next] && t[next - from + 1..] == s[next + 1..];
    } else {
      assert Find(t, NEWLINE, 0) == -1;
    }
  }

  /** A chunk that arrives later completes the unfinished rest. */
  lemma {:induction false} Appending(s: string, t: string)
    ensures Complete(s + t) == Complete(s) + Complete(Rest(s) + t)
    ensures Rest(s + t) == Rest(Rest(s) + t)
    decreases |s|
  {
    var i := Find(s, NEWLINE, 0);
    if i == -1 {
      assert [] + Complete(s + t) == Complete(s + t);
    } else {
      FindUnique(s + t, NEWLINE, 0, i);
      assert (s + t)[..i] == s[..i] && (s + t)[i + 1..] == s[i + 1..] + t;
      Appending(s[i + 1..], t);
      ConcatAssociates([s[..i]], Complete(s[i + 1..]), Complete(Rest(s) + t));
    }
  }

  /** Lines, each closed by a newline. */
  function Closed(lines: seq<string>): string {
    if lines == [] then "" else lines[0] + "\n" + Closed(lines[1..])
  }

  /** The complete lines and the rest are the text, cut at its newlines and nowhere else. */
  lemma {:induction false} LinesAreTheText(s: string)
    ensures Closed(Complete(s)) + Rest(s) == s
    ensures NEWLINE !in Rest(s) && forall l :: l in Complete(s) ==> NEWLINE !in l
    decreases |s|
  {
    hide Complete, Rest, Find;
    NextLine(s, 0);
    assert s[0..] == s;
    var i := Find(s, NEWLINE, 0);
    if i != -1 {
      LinesAreTheText(s[i + 1..]);
      var line, more := s[..i], Complete(s[i + 1..]);
      assert s[0..i] == line && ([line] + more)[1..] == more;
      assert s == (line + "\n") + s[i + 1..];
      ConcatAssociates(line + "\n", Closed(more), Rest(s));
    }
  }

  function Concat(chunks: seq<string>): string {
    if chunks == [] then "" else Concat(chunks[..|chunks| - 1]) + chunks[|chunks| - 1]
  }
}
