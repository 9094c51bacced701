/** The table printed by `adb devices`, and the tracker that mounts what it lists. */
module Devices {
  import opened Wire
  import opened Lines

  const HEADER := "List of devices attached"
  const AUTHORIZED := "device"

  /** The serial a line of the table announces, or nothing. */
  function SerialOf(text: string): set<string> {
    var line := if EndsWith(text, '\r') then text[..|text| - 1] else text;
    if line == HEADER || line == "" then {}
    else
      var tab := Find(line, '\t', 0);
      if tab == -1 then {}
      else if line[tab + 1..] == AUTHORIZED then {line[..tab]} else {}
  }

  function Serials(lines: seq<string>): set<string> {
    if lines == [] then {} else Serials(lines[..|lines| - 1]) + SerialOf(lines[|lines| - 1])
  }

  lemma {:induction false} SerialsJoin(a: seq<string>, b: seq<string>)
    ensures Serials(a + b) == Serials(a) + Serials(b)
  {
    hide SerialOf;
    if b == [] {
      assert a + b == a;
    } else {
      var whole := a + b;
      assert whole[..|whole| - 1] == a + b[..|b| - 1];
      SerialsJoin(a, b[..|b| - 1]);
    }
  }

  lemma SerialsNone()
    ensures Serials([]) == {}
  {
  }

  lemma SerialsOne(line: string)
    ensures Serials([line]) == SerialOf(line)
  {
    assert [line][..0] == [];
  }

  /** What the loop does with one line: drop a carriage return, skip what is not a device. */
  method AddLine(text: string, serials: set<string>) returns (r: set<string>)
    ensures r == serials + SerialOf(text)
  {
    r := serials;
    var line := text;
    if EndsWith(line, '\r') {
      line := line[..|line| - 1];
    }
    if line != HEADER && line != "" {
      var tab := Find(line, '\t', 0);
      if tab != -1 {
        var serial, status := line[..tab], line[tab + 1..];
        if status == AUTHORIZED {
          r := r + {serial};
        }
      }
    }
  }

  /** The parsing loop: find a newline, cut the line, look at it. */
  method ListAuthorizedDevices(output: string) returns (serials: set<string>)
    ensures serials == Serials(Complete(output))
  {
    hide *;
    serials := {};
    ghost var seen: seq<string> := [];
    SerialsNone();
    var prev := -1;
    assert output[0..] == output && [] + Complete(output) == Complete(output);
    var next := Find(output, NEWLINE, 0);
    while next != -1
      invariant -1 <= prev < |output| && next == Find(output, NEWLINE, prev + 1)
      invariant Complete(output) == seen + Complete(output[prev + 1..])
      invariant serials == Serials(seen)
      decreases |output| - prev
    {
      NextLine(output, prev + 1);
      var line := output[prev + 1..next];
      ConcatAssociates(seen, [line], Complete(output[next + 1..]));
      SerialsJoin(seen, [line]);
      SerialsOne(line);
      serials := AddLine(line, serials);
      seen := seen + [line];
      prev := next;
      next := Find(output, NEWLINE, prev + 1);
    }
    NextLine(output, prev + 1);
    assert seen + [] == seen;
  }

  // ----- printed tables -----

  /** A line of the table: a device, or anything without a tab (the header, blank lines, notices). */
  datatype Row = Device(serial: string, status: string) | Notice(text: string)

  predicate Plain(s: string) {
    '\n' !in s && '\r' !in s
  }

  predicate RowOk(r: Row) {
    match r
    case Device(serial, status) => Plain(serial) && Plain(status) && '\t' !in serial
    case Notice(text) => Plain(text) && '\t' !in text
  }

  function RowText(r: Row): string {
    match r
    case Device(serial, status) => serial + "\t" + status
    case Notice(text) => text
  }

  /** What a line holds before its newline besides the row. */
  function Cr(crlf: bool): string {
    if crlf then "\r" else ""
  }

  function Print(rows: seq<Row>, crlf: bool): string {
    if rows == [] then ""
    else Print(rows[..|rows| - 1], crlf) + ((RowText(rows[|rows| - 1]) + Cr(crlf)) + "\n")
  }

  /** The serials a table lists as authorized. */
  function Listed(rows: seq<Row>): set<string> {
    set r | r in rows && r.Device? && r.status == AUTHORIZED :: r.serial
  }

  lemma RowPlain(r: Row)
    requires RowOk(r)
    ensures Plain(RowText(r))
  {
  }

  /** The carriage return is dropped if there is one, and only then. */
  lemma CrDropped(line: string, crlf: bool)
    requires Plain(line)
    ensures var text := line + Cr(crlf);
            EndsWith(text, '\r') == crlf && (if crlf then text[..|text| - 1] else text) == line
  {
    var text := line + Cr(crlf);
    if crlf {
      assert text[..|text| - 1] == line;
    } else {
      assert text == line;
    }
  }

  lemma DeviceLine(serial: string, status: string)
    requires '\t' !in serial
    ensures var line := serial + "\t" + status;
            && Find(line, '\t', 0) == |serial| && line[..|serial|] == serial && line[|serial| + 1..] == status
            && line != HEADER && line != ""
  {
    var line := serial + "\t" + status;
    assert line[|serial|] == '\t';
    assert forall j :: 0 <= j < |serial| ==> line[j] == serial[j] && serial[j] in serial;
    FindUnique(line, '\t', 0, |serial|);
    assert '\t' in line && '\t' !in HEADER;
  }

  lemma RowSerial(r: Row, crlf: bool)
    requires RowOk(r)
    ensures SerialOf(RowText(r) + Cr(crlf)) == if r.Device? && r.status == AUTHORIZED then {r.serial} else {}
  {
    RowPlain(r);
    CrDropped(RowText(r), crlf);
    match r {
      case Device(serial, status) => DeviceLine(serial, status);
      case Notice(notice) => assert Find(notice, '\t', 0) == -1;
    }
  }

  lemma LineAlone(line: string)
    requires NEWLINE !in line
    ensures Complete(line + "\n") == [line] && Rest(line + "\n") == ""
  {
    var end := line + "\n";
    assert end[|line|] == '\n' && forall j :: 0 <= j < |line| ==> end[j] == line[j] && line[j] in line;
    FindUnique(end, NEWLINE, 0, |line|);
    assert end[..|line|] == line && end[|line| + 1..] == "";
    assert Find("", NEWLINE, 0) == -1;
    assert Complete("") == [];
  }

  /** One more line at the end of a text that ends with a newline. */
  lemma OneMoreLine(s: string, line: string)
    requires Rest(s) == "" && NEWLINE !in line
    ensures Complete(s + (line + "\n")) == Complete(s) + [line] && Rest(s + (line + "\n")) == ""
  {
    hide *;
    Appending(s, line + "\n");
    assert "" + (line + "\n") == line + "\n";
    LineAlone(line);
  }

  /** For every printed table, with either line ending, the parser's answer is exactly the serials
      whose status is the authorized one. */
  lemma {:induction false} TableParsed(rows: seq<Row>, crlf: bool)
    requires forall r :: r in rows ==> RowOk(r)
    ensures Rest(Print(rows, crlf)) == "" && Serials(Complete(Print(rows, crlf))) == Listed(rows)
  {
    if rows == [] {
      assert Find("", NEWLINE, 0) == -1;
    } else {
      var front, last := rows[..|rows| - 1], rows[|rows| - 1];
      var line := RowText(last) + Cr(crlf);
      TableParsed(front, crlf);
      RowSerial(last, crlf);
      RowPlain(last);
      assert NEWLINE !in line;
      OneMoreLine(Print(front, crlf), line);
      SerialsJoin(Complete(Print(front, crlf)), [line]);
      SerialsOne(line);
      ListedLast(rows);
    }
  }

  lemma ListedLast(rows: seq<Row>)
    requires rows != []
    ensures var last := rows[|rows| - 1];
            Listed(rows) == Listed(rows[..|rows| - 1]) + (if last.Device? && last.status == AUTHORIZED then {last.serial} else {})
  {
    assert forall r :: r in rows <==> r in rows[..|rows| - 1] || r == rows[|rows| - 1];
  }

  // ----- the tracker, for any type of serial -----

  datatype Tracker<S> = Tracker(mounted: set<S>, failed: set<S>)

  /** Serials an update tries to connect. */
  function Tried<S>(t: Tracker<S>, listed: set<S>): set<S> {
    listed - t.mounted - t.failed
  }

  function Updated<S>(t: Tracker<S>, listed: set<S>, connects: set<S>): Tracker<S> {
    Tracker((t.mounted + Tried(t, listed) * connects) * listed, t.failed + (Tried(t, listed) - connects))
  }

  class DeviceTracker<S(==)> {
    var instances: set<S>
    var failedToConnect: set<S>

    constructor ()
      ensures Value() == Tracker({}, {})
    {
      instances, failedToConnect := {}, {};
    }

    ghost function Value(): Tracker<S>
      reads this
    {
      Tracker(instances, failedToConnect)
    }

    /** Tries to connect every listed device that is neither mounted nor known to fail, in any
        order. `connects` are the serials whose connection succeeds. */
    method ConnectNew(devices: set<S>, connects: set<S>)
      modifies this
      ensures instances == old(instances) + Tried(old(Value()), devices) * connects
      ensures failedToConnect == old(failedToConnect) + (Tried(old(Value()), devices) - connects)
    {
      ghost var mounted, failed, tried := instances, failedToConnect, Tried(Value(), devices);
      ghost var done: set<S> := {};
      var left := devices;
      while left != {}
        invariant forall x :: x in done <==> x in tried && x !in left
        invariant forall x :: x in left ==> x in devices
        invariant forall x :: x in instances <==> x in mounted || (x in done && x in connects)
        invariant forall x :: x in failedToConnect <==> x in failed || (x in done && x !in connects)
        decreases |left|
      {
        var serial :| serial in left;
        left := left - {serial};
        if serial !in instances && serial !in failedToConnect {
          done := done + {serial};
          if serial in connects {
            instances := instances + {serial};
          } else {
            failedToConnect := failedToConnect + {serial};
          }
        }
      }
    }

    /** Unmounts what is not listed any more. */
    method DropUnlisted(devices: set<S>)
      modifies this`instances
      ensures instances == old(instances) * devices
    {
      var toRemove := set serial | serial in instances && serial !in devices;
      while toRemove != {}
        invariant toRemove <= instances && instances - toRemove == old(instances) * devices
        decreases |toRemove|
      {
        var serial :| serial in toRemove;
        toRemove, instances := toRemove - {serial}, instances - {serial};
      }
    }

    method UpdateConnectedDevices(devices: set<S>, connects: set<S>)
      modifies this
      ensures Value() == Updated(old(Value()), devices, connects)
    {
      ConnectNew(devices, connects);
      DropUnlisted(devices);
    }
  }

  /** The tracker after a sequence of updates, each given its listed and its connecting serials. */
  function AfterUpdates<S>(updates: seq<(set<S>, set<S>)>): Tracker<S> {
    if updates == [] then Tracker({}, {})
    else
      var (listed, connects) := updates[|updates| - 1];
      Updated(AfterUpdates(updates[..|updates| - 1]), listed, connects)
  }

  /** What one update does to a serial: it is mounted afterwards exactly if it is listed and either was
      mounted or, never having failed, connects now; it has failed exactly if it had or fails now. */
  lemma UpdateOutcome<S>(t: Tracker<S>, listed: set<S>, connects: set<S>, serial: S)
    ensures var after := Updated(t, listed, connects);
            && (serial in after.mounted <==>
                serial in listed && (serial in t.mounted || (serial !in t.failed && serial in connects)))
            && (serial in after.failed <==>
                serial in t.failed || (serial in listed && serial !in t.mounted && serial !in connects))
  {
  }

  /** After every update, what is mounted is listed, and what is listed is mounted or has failed. */
  lemma UpdateReconciles<S>(updates: seq<(set<S>, set<S>)>)
    requires updates != []
    ensures var t, listed := AfterUpdates(updates), updates[|updates| - 1].0;
            t.mounted <= listed <= t.mounted + t.failed
  {
  }

  /** A serial that failed once is never tried again. */
  lemma {:induction false} FailedNeverRetried<S>(updates: seq<(set<S>, set<S>)>, i: nat, j: nat, serial: S)
    requires i < j < |updates|
    requires serial in Tried(AfterUpdates(updates[..i]), updates[i].0) && serial !in updates[i].1
    ensures serial in AfterUpdates(updates[..j]).failed
    ensures serial !in Tried(AfterUpdates(updates[..j]), updates[j].0)
    decreases j
  {
    var upTo := updates[..j];
    assert upTo[..|upTo| - 1] == updates[..j - 1] && upTo[|upTo| - 1] == updates[j - 1];
    if i < j - 1 {
      FailedNeverRetried(updates, i, j - 1, serial);
    }
  }
}
