/** The two client caches under every interleaving of threads: look-ups run at any time, outside
    the request lock; fills and two-step invalidations run inside it, around the request. A request
    is served as one step inside its lock, which the exchange guarantees as long as every write is
    sought successfully or carries no data (`Exchange.ExchangeIsAtomic`); after a write that is
    refused with data nothing is said about what a reply brings. */
module Coherence {
  import opened Wire
  import opened Messages
  import opened TimedCache
  import opened Paths

  /** What the device would answer: a stat for each existing path and the statted names of each
      directory. */
  datatype Device = Device(stats: map<bytes, FileStat>, listings: map<bytes, seq<bytes>>)

  /** Operations of this client, on Windows paths. `Other` stands for writes, length changes and
      every other request that touches neither cache, `RefusedWrite` for a write with data whose seek
      fails. */
  datatype Op =
    | Remove(path: bytes)
    | MakeDirectory(path: bytes)
    | Move(fromPath: bytes, toPath: bytes)
    | SetTime(path: bytes)
    | Open(path: bytes, creating: bool)
    | Other
    | RefusedWrite

  datatype Target = StatKey(key: bytes) | DirKey(key: bytes)

  function ParentTarget(key: bytes): seq<Target> {
    match GetParentPath(key)
    case Some(parent) => [DirKey(parent)]
    case None => []
  }

  function EntryTargets(path: bytes): seq<Target> {
    [StatKey(ToUnix(path))] + ParentTarget(ToUnix(path))
  }

  /** Invalidations before the request is sent, in order. */
  function Before(op: Op): seq<Target> {
    match op
    case Remove(p) => EntryTargets(p)
    case MakeDirectory(p) => EntryTargets(p)
    case Move(f, t) => EntryTargets(f) + EntryTargets(t)
    case SetTime(p) => [StatKey(ToUnix(p))]
    case _ => []
  }

  /** Invalidations after the reply has been read. */
  function Behind(op: Op): seq<Target> {
    if op.Open? && op.creating then ParentTarget(ToUnix(op.path)) else []
  }

  /** A cached value and how many requests this client had made when it was fetched. */
  datatype Entry<T> = Entry(value: T, epoch: nat)

  datatype Holder =
    | Free
    | Clearing(op: Op, todo: seq<Target>, armed: bool)   // invalidating, request not sent yet
    | Settling(op: Op, todo: seq<Target>, armed: bool)   // request served, invalidating, then return
    | Statting(key: bytes)
    | Reading(key: bytes)                                // a directory listing
    | Filling(stats: seq<(bytes, FileStat)>, dir: Option<(bytes, seq<bytes>)>, epoch: nat)

  /** `log` and `history` record the requests served and the device before, between and after. */
  datatype State = State(
    holder: Holder,
    stats: map<bytes, Entry<FileStat>>,
    dirs: map<bytes, Entry<seq<bytes>>>,
    log: seq<Op>,
    history: seq<Device>)
  {
    function Epoch(): nat { |log| }

    /** No write has left its payload in the stream. */
    predicate InStep() { RefusedWrite !in log }

    function Present(t: Target): bool {
      match t
      case StatKey(k) => k in stats
      case DirKey(k) => k in dirs
    }

    function Erased(t: Target): State {
      match t
      case StatKey(k) => this.(stats := stats - {k})
      case DirKey(k) => this.(dirs := dirs - {k})
    }
  }

  datatype Step =
    | Begin(op: Op)                    // take the lock for an operation
    | Check                            // first half of `invalidate`: is the key there?
    | Erase                            // second half, only if it was
    | Execute(device: Device)          // the request is served; the device becomes anything
    | Return
    | BeginStat(path: bytes)
    | BeginList(path: bytes)
    | FetchStat(stat: FileStat, epoch: nat)   // the answer is a stat, served after `epoch` requests
    | FetchList(stats: seq<(bytes, FileStat)>, names: seq<bytes>, epoch: nat)
    | GiveUp                           // an error reply, or the second look-up hit
    | FillStat(kept: set<bytes>)       // store one stat; the clean-up may drop anything
    | FillDir(kept: set<bytes>)
    | LookupStat(key: bytes)           // any thread, any time
    | LookupDir(key: bytes)

  predicate Init(s: State) {
    s.holder == Free && s.stats == map[] && s.dirs == map[] && s.log == [] && |s.history| == 1
  }

  function Restrict<T>(m: map<bytes, T>, kept: set<bytes>): map<bytes, T> {
    map k | k in m && k in kept :: m[k]
  }

  /** The device's present stats. */
  predicate Reports(now: Device, stats: seq<(bytes, FileStat)>) {
    forall p :: p in stats ==> p.0 in now.stats && now.stats[p.0] == p.1
  }

  ghost predicate Next(s: State, step: Step, t: State) {
    match step
    case Begin(op) => s.holder == Free && t == s.(holder := Clearing(op, Before(op), false))
    case Check =>
      && (s.holder.Clearing? || s.holder.Settling?) && s.holder.todo != [] && !s.holder.armed
      && t == s.(holder := if s.Present(s.holder.todo[0]) then s.holder.(armed := true)
                           else s.holder.(todo := s.holder.todo[1..]))
    case Erase =>
      && (s.holder.Clearing? || s.holder.Settling?) && s.holder.todo != [] && s.holder.armed
      && t == s.Erased(s.holder.todo[0]).(holder := s.holder.(todo := s.holder.todo[1..], armed := false))
    case Execute(device) =>
      && s.holder.Clearing? && s.holder.todo == []
      && t == s.(holder := Settling(s.holder.op, Behind(s.holder.op), false),
                 log := s.log + [s.holder.op], history := s.history + [device])
    case Return =>
      && ((s.holder.Settling? && s.holder.todo == []) || (s.holder.Filling? && s.holder.stats == [] && s.holder.dir.None?))
      && t == s.(holder := Free)
    case BeginStat(p) => s.holder == Free && t == s.(holder := Statting(ToUnix(p)))
    case BeginList(p) => s.holder == Free && t == s.(holder := Reading(ToUnix(p)))
    case FetchStat(stat, epoch) =>
      && s.holder.Statting? && |s.history| > 0
      && (s.InStep() ==> epoch == s.Epoch() && Reports(s.history[|s.history| - 1], [(s.holder.key, stat)]))
      && t == s.(holder := Filling([(s.holder.key, stat)], None, epoch))
    case FetchList(stats, names, epoch) =>
      && s.holder.Reading? && |s.history| > 0
      && var now := s.history[|s.history| - 1];
      && (s.InStep() ==>
          epoch == s.Epoch() && Reports(now, stats) && s.holder.key in now.listings && now.listings[s.holder.key] == names)
      && t == s.(holder := Filling(stats, Some((s.holder.key, names)), epoch))
    case GiveUp => (s.holder.Statting? || s.holder.Reading?) && t == s.(holder := Free)
    case FillStat(kept) =>
      && s.holder.Filling? && s.holder.stats != []
      && var (k, v) := s.holder.stats[0];
      && t == s.(holder := s.holder.(stats := s.holder.stats[1..]),
                 stats := Restrict(s.stats[k := Entry(v, s.holder.epoch)], kept))
    case FillDir(kept) =>
      && s.holder.Filling? && s.holder.stats == [] && s.holder.dir.Some?
      && var (k, v) := s.holder.dir.value;
      && t == s.(holder := s.holder.(dir := None), dirs := Restrict(s.dirs[k := Entry(v, s.holder.epoch)], kept))
    case LookupStat(k) => t == s
    case LookupDir(k) => t == s
  }

  datatype Run = Run(states: seq<State>, steps: seq<Step>) {
    ghost predicate Valid() {
      && |states| == |steps| + 1 && Init(states[0])
      && forall i :: 0 <= i < |steps| ==> Next(states[i], steps[i], states[i + 1])
    }
  }

  // ----- the invariant -----

  predicate Touches(op: Op, t: Target) {
    t in Before(op) || t in Behind(op)
  }

  /** The holder still has to clear this target before it may go on. */
  predicate Pending(s: State, t: Target) {
    (s.holder.Clearing? || s.holder.Settling?) && t in s.holder.todo
  }

  /** How many requests' operations have returned to their callers. */
  function Returned(s: State): nat {
    if s.holder.Settling? && |s.log| > 0 then |s.log| - 1 else |s.log|
  }

  ghost predicate StatsFresh(s: State) {
    forall k :: k in s.stats ==>
      && s.stats[k].epoch < |s.history|
      && (k in s.history[s.stats[k].epoch].stats && s.history[s.stats[k].epoch].stats[k] == s.stats[k].value)
      && forall i :: s.stats[k].epoch <= i < |s.log| ==> StatKey(k) !in Before(s.log[i])
  }

  ghost predicate DirsFresh(s: State) {
    forall d :: d in s.dirs ==>
      && s.dirs[d].epoch < |s.history|
      && (d in s.history[s.dirs[d].epoch].listings && s.history[s.dirs[d].epoch].listings[d] == s.dirs[d].value)
      && forall i :: s.dirs[d].epoch <= i < |s.log| && Touches(s.log[i], DirKey(d)) ==>
           i >= Returned(s) && Pending(s, DirKey(d))
  }

  /** What the lock holder has achieved so far. */
  ghost predicate HolderInv(s: State) {
    match s.holder
    case Clearing(op, todo, _) =>
      forall t :: t in Before(op) && t !in todo ==> !s.Present(t)
    case Settling(op, todo, _) =>
      && |s.log| > 0 && s.log[|s.log| - 1] == op
    case Filling(stats, dir, epoch) =>
      && |s.history| > 0 && epoch == s.Epoch()
      && var now := s.history[|s.history| - 1];
      && Reports(now, stats)
      && (dir.Some? ==> dir.value.0 in now.listings && now.listings[dir.value.0] == dir.value.1)
    case _ => true
  }

  ghost predicate Inv(s: State) {
    s.InStep() && |s.history| == |s.log| + 1 && StatsFresh(s) && DirsFresh(s) && HolderInv(s)
  }

  lemma CheckKeeps(s: State, t: State)
    requires Inv(s) && Next(s, Check, t)
    ensures Inv(t)
  {
    hide Before, Behind;
    var todo := s.holder.todo;
    assert forall x :: x in todo <==> x == todo[0] || x in todo[1..];
  }

  /** Entries that stay keep being fresh as long as no pending target is forgotten. */
  lemma FreshCarries(s: State, t: State)
    requires StatsFresh(s) && DirsFresh(s) && t.log == s.log && t.history == s.history
    requires t.stats.Keys <= s.stats.Keys && forall k :: k in t.stats ==> t.stats[k] == s.stats[k]
    requires t.dirs.Keys <= s.dirs.Keys && forall d :: d in t.dirs ==> t.dirs[d] == s.dirs[d]
    requires forall d :: d in t.dirs && Pending(s, DirKey(d)) ==> Pending(t, DirKey(d)) && Returned(t) == Returned(s)
    ensures StatsFresh(t) && DirsFresh(t)
  {
    hide Before, Behind;
  }

  lemma ErasedKeeps(s: State, x: Target)
    ensures var t := s.Erased(x);
            && t.stats.Keys <= s.stats.Keys && (forall k :: k in t.stats ==> t.stats[k] == s.stats[k])
            && t.dirs.Keys <= s.dirs.Keys && (forall d :: d in t.dirs ==> t.dirs[d] == s.dirs[d] && DirKey(d) != x)
            && !t.Present(x) && (forall y :: !s.Present(y) ==> !t.Present(y))
            && t.log == s.log && t.history == s.history && t.holder == s.holder
  {
  }

  lemma EraseHolder(s: State, e: State, t: State)
    requires HolderInv(s) && (s.holder.Clearing? || s.holder.Settling?) && s.holder.todo != []
    requires e.log == s.log && !e.Present(s.holder.todo[0]) && (forall y :: !s.Present(y) ==> !e.Present(y))
    requires t == e.(holder := s.holder.(todo := s.holder.todo[1..], armed := false))
    ensures HolderInv(t)
  {
    hide Before, Behind;
    var todo := s.holder.todo;
    assert forall x :: x in todo <==> x == todo[0] || x in todo[1..];
    assert forall y :: e.Present(y) == t.Present(y);
  }

  lemma EraseKeeps(s: State, t: State)
    requires Inv(s) && Next(s, Erase, t)
    ensures Inv(t)
  {
    var todo := s.holder.todo;
    assert forall x :: x in todo <==> x == todo[0] || x in todo[1..];
    ErasedKeeps(s, todo[0]);
    hide Before, Behind, State.Erased;
    var e := s.Erased(todo[0]);
    FreshCarries(s, t);
    EraseHolder(s, e, t);
  }

  /** Steps that change neither cache nor log. */
  predicate HolderOnly(step: Step) {
    !step.Check? && !step.Erase? && !step.Execute? && !step.FillStat? && !step.FillDir?
  }

  lemma HolderStepHolder(s: State, step: Step, t: State)
    requires s.InStep() && HolderInv(s) && Next(s, step, t) && HolderOnly(step)
    ensures HolderInv(t)
  {
    hide Before, Behind;
  }

  lemma HolderStepFrame(s: State, step: Step, t: State)
    requires Next(s, step, t) && HolderOnly(step)
    ensures t == s.(holder := t.holder)
    ensures forall x :: Pending(s, x) ==> Pending(t, x) && Returned(t) == Returned(s)
  {
    hide Before, Behind, HolderInv;
  }

  lemma HolderStepKeeps(s: State, step: Step, t: State)
    requires Inv(s) && Next(s, step, t) && HolderOnly(step)
    ensures Inv(t)
  {
    hide Next, Before, Behind, HolderInv, Pending;
    HolderStepFrame(s, step, t);
    HolderStepHolder(s, step, t);
    FreshCarries(s, t);
  }

  lemma ExecuteKeeps(s: State, step: Step, t: State)
    requires Inv(s) && Next(s, step, t) && step.Execute? && t.InStep()
    ensures Inv(t)
  {
    hide Before, Behind;
    var op := s.holder.op;
    forall k | k in t.stats ensures StatKey(k) !in Before(op) {
      assert StatKey(k) in Before(op) ==> !s.Present(StatKey(k));
    }
    forall d | d in t.dirs ensures DirKey(d) !in Before(op) {
      assert DirKey(d) in Before(op) ==> !s.Present(DirKey(d));
    }
  }

  lemma FillStatKeeps(s: State, step: Step, t: State)
    requires Inv(s) && Next(s, step, t) && step.FillStat?
    ensures Inv(t)
  {
    hide Before, Behind;
    assert s.holder.stats[0] in s.holder.stats;
  }

  lemma FillDirKeeps(s: State, step: Step, t: State)
    requires Inv(s) && Next(s, step, t) && step.FillDir?
    ensures Inv(t)
  {
    hide Before, Behind;
  }

  /** The invariant survives every step but a write that is refused with data. */
  lemma StepKeeps(s: State, step: Step, t: State)
    requires Inv(s) && Next(s, step, t) && t.InStep()
    ensures Inv(t)
  {
    hide Next, Inv;
    match step {
      case Check => CheckKeeps(s, t);
      case Erase => EraseKeeps(s, t);
      case Execute(_) => ExecuteKeeps(s, step, t);
      case FillStat(_) => FillStatKeeps(s, step, t);
      case FillDir(_) => FillDirKeeps(s, step, t);
      case Begin(_) => HolderStepKeeps(s, step, t);
      case Return => HolderStepKeeps(s, step, t);
      case BeginStat(_) => HolderStepKeeps(s, step, t);
      case BeginList(_) => HolderStepKeeps(s, step, t);
      case FetchStat(_, _) => HolderStepKeeps(s, step, t);
      case FetchList(_, _, _) => HolderStepKeeps(s, step, t);
      case GiveUp => HolderStepKeeps(s, step, t);
      case LookupStat(_) => HolderStepKeeps(s, step, t);
      case LookupDir(_) => HolderStepKeeps(s, step, t);
    }
  }

  lemma LogGrows(s: State, step: Step, t: State)
    requires Next(s, step, t)
    ensures s.log <= t.log
  {
    hide Before, Behind;
  }

  lemma {:induction false} RunKeeps(run: Run, i: nat)
    requires run.Valid() && i < |run.states| && run.states[i].InStep()
    ensures Inv(run.states[i])
  {
    if i > 0 {
      LogGrows(run.states[i - 1], run.steps[i - 1], run.states[i]);
      RunKeeps(run, i - 1);
      assert Next(run.states[i - 1], run.steps[i - 1], run.states[i]);
      StepKeeps(run.states[i - 1], run.steps[i - 1], run.states[i]);
    }
  }

  // ----- every run -----

  /** Some operation of this client acts on exactly this key's entry. */
  predicate ActsOn(op: Op, key: bytes) {
    match op
    case Remove(p) => ToUnix(p) == key
    case MakeDirectory(p) => ToUnix(p) == key
    case Move(f, t) => ToUnix(f) == key || ToUnix(t) == key
    case SetTime(p) => ToUnix(p) == key
    case _ => false
  }

  lemma ActingIsInvalidated(op: Op, key: bytes)
    ensures ActsOn(op, key) <==> StatKey(key) in Before(op)
  {
    if op.Move? {
      EntryTargetsOf(op.fromPath, key);
      EntryTargetsOf(op.toPath, key);
    } else if op.Remove? || op.MakeDirectory? {
      EntryTargetsOf(op.path, key);
    }
  }

  lemma EntryTargetsOf(path: bytes, key: bytes)
    ensures StatKey(key) in EntryTargets(path) <==> ToUnix(path) == key
    ensures DirKey(key) in EntryTargets(path) <==> GetParentPath(ToUnix(path)) == Some(key)
  {
    var rest := ParentTarget(ToUnix(path));
    assert forall x :: x in EntryTargets(path) <==> x == StatKey(ToUnix(path)) || x in rest;
  }

  /** In every interleaving in which no write has been refused with data, a cached stat was fetched
      after the last remove, create-directory, move or set-time this client performed on exactly that
      path. Without the proviso the exchange can answer otherwise: `Exchange.StrandedBytesAgeStat`. */
  lemma StatNewerThanLastChange(run: Run, i: nat, key: bytes, j: nat)
    requires run.Valid() && i < |run.states| && run.states[i].InStep() && key in run.states[i].stats
    requires j < |run.states[i].log| && ActsOn(run.states[i].log[j], key)
    ensures j < run.states[i].stats[key].epoch
  {
    RunKeeps(run, i);
    ActingIsInvalidated(run.states[i].log[j], key);
  }

  /** The path's stat on the device only changed when this client acted on exactly that path. */
  ghost predicate OnlyOwnChanges(s: State, key: bytes) {
    |s.history| == |s.log| + 1 &&
    forall j :: 0 <= j < |s.log| && !ActsOn(s.log[j], key) ==> SameStat(s.history[j], s.history[j + 1], key)
  }

  predicate SameStat(a: Device, b: Device, key: bytes) {
    (key in a.stats <==> key in b.stats) && (key in a.stats ==> a.stats[key] == b.stats[key])
  }

  lemma {:induction false} StatCarries(s: State, key: bytes, e: nat, n: nat)
    requires OnlyOwnChanges(s, key) && e <= n < |s.history|
    requires forall j :: e <= j < |s.log| ==> !ActsOn(s.log[j], key)
    ensures SameStat(s.history[e], s.history[n], key)
  {
    if e < n {
      StatCarries(s, key, e, n - 1);
      assert SameStat(s.history[n - 1], s.history[n], key);
    }
  }

  /** Then a cached stat is never stale: every look-up hit, at any moment of any interleaving,
      is the device's present stat. */
  lemma CachedStatIsCurrent(run: Run, i: nat, key: bytes)
    requires run.Valid() && i < |run.states| && run.states[i].InStep()
    requires key in run.states[i].stats && OnlyOwnChanges(run.states[i], key)
    ensures var s := run.states[i];
            var now := s.history[|s.history| - 1];
            key in now.stats && now.stats[key] == s.stats[key].value
  {
    RunKeeps(run, i);
    var s := run.states[i];
    var e := s.stats[key].epoch;
    forall j | e <= j < |s.log| ensures !ActsOn(s.log[j], key) {
      ActingIsInvalidated(s.log[j], key);
    }
    StatCarries(s, key, e, |s.log|);
  }

  /** An operation that creates, removes or moves entry `n` of directory `d`. */
  predicate ChangesEntry(op: Op, d: bytes, n: bytes) {
    match op
    case Remove(p) => p == Join(d, n)
    case MakeDirectory(p) => p == Join(d, n)
    case Move(f, t) => f == Join(d, n) || t == Join(d, n)
    case Open(p, creating) => creating && p == Join(d, n)
    case _ => false
  }

  /** Such an operation clears the directory's listing exactly when the directory is not the root,
      except that a move also clears it when its other path has the directory as parent. */
  lemma ChangeIsInvalidated(op: Op, d: bytes, n: bytes)
    requires IsName(n) && ChangesEntry(op, d, n)
    ensures Touches(op, DirKey(ToUnix(d))) <==> !IsRoot(d) || (op.Move? && OtherParent(op, Join(d, n)) == Some(ToUnix(d)))
  {
    ParentIsDirectoryKey(d, n);
    if op.Move? {
      EntryTargetsOf(op.fromPath, ToUnix(d));
      EntryTargetsOf(op.toPath, ToUnix(d));
    } else {
      EntryTargetsOf(Join(d, n), ToUnix(d));
    }
  }

  /** The parent of the path at the other end of a move. */
  function OtherParent(op: Op, path: bytes): Option<bytes>
    requires op.Move?
  {
    GetParentPath(ToUnix(if op.fromPath == path then op.toPath else op.fromPath))
  }

  /** The exception is real: a move within the root whose target is spelled with a doubled separator
      clears the root's listing. */
  lemma DoubledSeparatorClearsRoot()
    ensures ChangesEntry(Move(Join(ROOT, A), [BACKSLASH, BACKSLASH, 98]), ROOT, A) && IsRoot(ROOT)
    ensures Touches(Move(Join(ROOT, A), [BACKSLASH, BACKSLASH, 98]), DirKey(ToUnix(ROOT)))
  {
    var t: bytes := [BACKSLASH, BACKSLASH, 98];
    assert Slashed(t) == [SLASH, SLASH, 98] && Slashed(ROOT) == [SLASH];
    var key: bytes := [SLASH, SLASH, 98];
    assert FindLast(key, SLASH) == Some(1);
    assert key[..1] == [SLASH];
    ChangeIsInvalidated(Move(Join(ROOT, A), t), ROOT, A);
  }

  /** Under the same proviso, for every directory other than the root: once a create, remove, move or creating open of one
      of its entries has returned, no listing of it is served from names fetched before. */
  lemma ListingNewerThanReturnedChange(run: Run, i: nat, d: bytes, n: bytes, j: nat)
    requires run.Valid() && i < |run.states| && run.states[i].InStep() && IsName(n) && !IsRoot(d)
    requires ToUnix(d) in run.states[i].dirs
    requires j < Returned(run.states[i]) && ChangesEntry(run.states[i].log[j], d, n)
    ensures j < run.states[i].dirs[ToUnix(d)].epoch
  {
    RunKeeps(run, i);
    ChangeIsInvalidated(run.states[i].log[j], d, n);
  }

  // ----- the root -----

  const ROOT: bytes := [BACKSLASH]
  const A: bytes := [97]

  function Last(run: Run): State
    requires |run.states| > 0
  {
    run.states[|run.states| - 1]
  }

  lemma Extend(run: Run, step: Step, t: State) returns (longer: Run)
    requires run.Valid() && |run.states| > 0 && Next(Last(run), step, t)
    ensures longer.Valid() && |longer.states| > 0 && Last(longer) == t
  {
    hide Next;
    longer := Run(run.states + [t], run.steps + [step]);
    forall i | 0 <= i < |longer.steps| ensures Next(longer.states[i], longer.steps[i], longer.states[i + 1]) {
      if i < |run.steps| {
        assert Next(run.states[i], run.steps[i], run.states[i + 1]);
      }
    }
  }

  /** Fetching and caching the listing of the directory with key `key`. */
  lemma CacheListing(s: State, path: bytes, names: seq<bytes>) returns (run: Run)
    requires Init(s) && ToUnix(path) in s.history[0].listings && s.history[0].listings[ToUnix(path)] == names
    ensures run.Valid() && |run.states| > 0
    ensures Last(run) == s.(dirs := map[ToUnix(path) := Entry(names, 0)])
  {
    var key := ToUnix(path);
    run := Run([s], []);
    assert run.Valid();
    hide Run.Valid, ToUnix;
    run := Extend(run, BeginList(path), s.(holder := Reading(key)));
    run := Extend(run, FetchList([], names, 0), s.(holder := Filling([], Some((key, names)), 0)));
    var filled := map[key := Entry(names, 0)];
    assert Restrict(s.dirs[key := Entry(names, 0)], {key}) == filled;
    run := Extend(run, FillDir({key}), s.(holder := Filling([], None, 0), dirs := filled));
    run := Extend(run, Return, s.(dirs := filled));
  }

  /** An operation whose only target is absent runs from start to return. */
  lemma RunOperation(run: Run, op: Op, x: Target, device: Device) returns (longer: Run)
    requires run.Valid() && |run.states| > 0 && Last(run).holder == Free
    requires Before(op) == [x] && Behind(op) == [] && !Last(run).Present(x)
    ensures longer.Valid() && |longer.states| > 0
    ensures var s := Last(run); Last(longer) == s.(log := s.log + [op], history := s.history + [device])
  {
    var s := Last(run);
    hide Run.Valid, Before, Behind;
    longer := Extend(run, Begin(op), s.(holder := Clearing(op, [x], false)));
    assert [x][1..] == [];
    longer := Extend(longer, Check, s.(holder := Clearing(op, [], false)));
    longer := Extend(longer, Execute(device),
      s.(holder := Settling(op, [], false), log := s.log + [op], history := s.history + [device]));
    longer := Extend(longer, Return, s.(log := s.log + [op], history := s.history + [device]));
  }

  /** The same does not hold of the root: a concrete run lists the root, creates an entry in it,
      returns, and every later look-up is still served the names fetched before. */
  lemma RootListingStaysStale(before: Device, after: Device) returns (run: Run)
    requires [SLASH] in before.listings
    ensures run.Valid() && |run.states| > 0
    ensures Last(run).InStep() && Returned(Last(run)) == 1 && ChangesEntry(Last(run).log[0], ROOT, A) && IsName(A)
    ensures ToUnix(ROOT) in Last(run).dirs && Last(run).dirs[ToUnix(ROOT)] == Entry(before.listings[[SLASH]], 0)
  {
    assert Slashed(ROOT) == [SLASH];
    ParentIsDirectoryKey(ROOT, A);
    var op := MakeDirectory(Join(ROOT, A));
    var x := StatKey(ToUnix(Join(ROOT, A)));
    assert Before(op) == [x];
    assert ToUnix(ROOT) == [SLASH];
    hide Run.Valid, ToUnix, Join, Before;
    run := CacheListing(State(Free, map[], map[], [], [before]), ROOT, before.listings[[SLASH]]);
    run := RunOperation(run, op, x, after);
  }
}
