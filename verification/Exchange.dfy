/** Many client threads sharing one connection: every interleaving of taking the request lock,
    encoding, sending, the daemon's decoding and replying, and reading the reply back. */
module Exchange {
  import opened Wire
  import opened Messages
  import opened Posix
  import opened TimedCache
  import opened Paths

  /** What the daemon's one thread is doing: collecting a head, collecting a write payload,
      pushing out a reply (and flushing before it loops), or dead after an unknown type byte. */
  datatype DaemonPhase =
    | Heading(taken: bytes)
    | Loading(head: Head, body: bytes)
    | Replying(left: bytes)
    | Dead

  /** The request lock. Its holder has bytes still to write and reply bytes already read. */
  datatype Lock =
    | Free
    | Held(thread: nat, request: Request, unsent: bytes, got: bytes)

  datatype Answer = Answer(thread: nat, request: Request, reply: Reply)

  /** The four buffers, the two directions of the stream, the device, and three logs: what the
      daemon served, the device before, between and after, and what each thread was told. */
  datatype State = State(
    lock: Lock,
    clientOut: bytes, upstream: bytes, daemonIn: bytes,
    daemon: DaemonPhase,
    daemonOut: bytes, downstream: bytes, clientIn: bytes,
    fs: Fs, served: seq<Exchanged>, history: seq<Fs>, answers: seq<Answer>)

  datatype Step =
    | Acquire(thread: nat, request: Request)  // take the lock, choose a request
    | ClientPut(n: nat)                       // write into the client's buffer
    | ClientSend(n: nat)                      // spill, flush or bypass: buffer to stream
    | DaemonFill(n: nat)                      // read ahead: stream to buffer
    | DaemonHead(n: nat)                      // take head bytes; the head may still be incomplete
    | DaemonRefuseSeek(reply: Reply)          // a write whose seek fails: reply, payload untouched
    | DaemonSeek                              // a write whose seek succeeds: go on to its payload
    | DaemonLoad(n: nat)                      // take payload bytes
    | DaemonServe(reply: Reply, fs: Fs)       // act on the complete request and start the reply
    | DaemonPut(n: nat)                       // write into the daemon's buffer
    | DaemonSend(n: nat)                      // buffer to stream
    | DaemonLoop                              // everything flushed: back to the top of the loop
    | ClientFill(n: nat)                      // stream to the client's read buffer
    | ClientTake(n: nat)                      // take reply bytes; the reply may still be incomplete
    | Release                                 // the reply is complete: return it, drop the lock

  predicate Init(s: State) {
    && s.lock == Free && Quiet(s) && s.daemon == Heading([])
    && s.served == [] && s.answers == [] && s.history == [s.fs] && s.fs.Valid()
  }

  /** All four buffers and both stream directions are empty. */
  predicate Quiet(s: State) {
    && s.clientOut == [] && s.upstream == [] && s.daemonIn == []
    && s.daemonOut == [] && s.downstream == [] && s.clientIn == []
  }

  /** The whole request collected by the daemon, if it has one. */
  function Collected(s: State): Parsed<Request> {
    match s.daemon
    case Heading(taken) =>
      var p := ParseHead(taken);
      if p.Got? && !p.value.WriteHandle? then Got(Request(p.value, []), []) else Short
    case Loading(head, body) =>
      if |body| == PayloadLength(head) then Got(Request(head, body), []) else Short
    case _ => Short
  }

  ghost predicate Next(s: State, step: Step, t: State) {
    match step
    case Acquire(thread, r) =>
      s.lock == Free && r.Valid() && t == s.(lock := Held(thread, r, EncRequest(r), []))
    case ClientPut(n) =>
      && s.lock.Held? && n <= |s.lock.unsent|
      && t == s.(lock := s.lock.(unsent := s.lock.unsent[n..]), clientOut := s.clientOut + s.lock.unsent[..n])
    case ClientSend(n) =>
      && n <= |s.clientOut|
      && t == s.(clientOut := s.clientOut[n..], upstream := s.upstream + s.clientOut[..n])
    case DaemonFill(n) =>
      && n <= |s.upstream|
      && t == s.(upstream := s.upstream[n..], daemonIn := s.daemonIn + s.upstream[..n])
    case DaemonHead(n) =>
      && s.daemon.Heading? && 0 < n <= |s.daemonIn| && ParseHead(s.daemon.taken).Short?
      && var taken := s.daemon.taken + s.daemonIn[..n];
      && (ParseHead(taken).Got? ==> ParseHead(taken).rest == [])
      && t == s.(daemonIn := s.daemonIn[n..], daemon := if ParseHead(taken).Unknown? then Dead else Heading(taken))
    case DaemonRefuseSeek(reply) =>
      && WriteHeadReady(s)
      && var head := ParseHead(s.daemon.taken).value;
      && !SeekOk(s.fs, head.handle, head.offset) && reply.Done? && reply.status != SUCCESS
      && t == s.(daemon := Replying(EncReply(head, reply)),
                 served := s.served + [Exchanged(Request(head, []), reply)], history := s.history + [s.fs])
    case DaemonSeek =>
      && WriteHeadReady(s)
      && var head := ParseHead(s.daemon.taken).value;
      && SeekOk(s.fs, head.handle, head.offset)
      && t == s.(daemon := Loading(head, []))
    case DaemonLoad(n) =>
      && s.daemon.Loading? && n <= |s.daemonIn| && |s.daemon.body| + n <= PayloadLength(s.daemon.head)
      && t == s.(daemonIn := s.daemonIn[n..], daemon := s.daemon.(body := s.daemon.body + s.daemonIn[..n]))
    case DaemonServe(reply, fs) =>
      && Collected(s).Got?
      && var r := Collected(s).value;
      && Serves(s.fs, r, reply, fs)
      && t == s.(fs := fs, daemon := Replying(EncReply(r.head, reply)),
                 served := s.served + [Exchanged(r, reply)], history := s.history + [fs])
    case DaemonPut(n) =>
      && s.daemon.Replying? && n <= |s.daemon.left|
      && t == s.(daemon := Replying(s.daemon.left[n..]), daemonOut := s.daemonOut + s.daemon.left[..n])
    case DaemonSend(n) =>
      && n <= |s.daemonOut|
      && t == s.(daemonOut := s.daemonOut[n..], downstream := s.downstream + s.daemonOut[..n])
    case DaemonLoop =>
      s.daemon == Replying([]) && s.daemonOut == [] && t == s.(daemon := Heading([]))
    case ClientFill(n) =>
      && n <= |s.downstream|
      && t == s.(downstream := s.downstream[n..], clientIn := s.clientIn + s.downstream[..n])
    case ClientTake(n) =>
      && ClientWaiting(s) && 0 < n <= |s.clientIn| && ParseReply(s.lock.request.head, s.lock.got).Short?
      && var got := s.lock.got + s.clientIn[..n];
      && (ParseReply(s.lock.request.head, got).Got? ==> ParseReply(s.lock.request.head, got).rest == [])
      && t == s.(clientIn := s.clientIn[n..], lock := s.lock.(got := got))
    case Release =>
      && ClientWaiting(s)
      && var p := ParseReply(s.lock.request.head, s.lock.got);
      && p.Got?
      && t == s.(lock := Free, answers := s.answers + [Answer(s.lock.thread, s.lock.request, p.value)])
  }

  predicate WriteHeadReady(s: State) {
    && s.daemon.Heading? && ParseHead(s.daemon.taken).Got? && ParseHead(s.daemon.taken).value.WriteHandle?
  }

  /** The client has flushed its request before it starts to read. */
  predicate ClientWaiting(s: State) {
    s.lock.Held? && s.lock.unsent == [] && s.clientOut == []
  }

  /** The hypothesis of the protocol: a write either seeks successfully or carries no data. */
  predicate SeekHypothesis(s: State, step: Step) {
    step.DaemonRefuseSeek? && s.daemon.Heading? && ParseHead(s.daemon.taken).Got?
    ==> PayloadLength(ParseHead(s.daemon.taken).value) == 0
  }

  datatype Run = Run(states: seq<State>, steps: seq<Step>) {
    ghost predicate Valid()
      ensures Valid() ==> |states| == |steps| + 1
    {
      && |states| == |steps| + 1 && Init(states[0])
      && forall i :: 0 <= i < |steps| ==> Next(states[i], steps[i], states[i + 1])
    }

    function Last(): State
      requires |states| > 0
    {
      states[|states| - 1]
    }

    predicate SeeksSucceed() {
      |states| == |steps| + 1 && forall i :: 0 <= i < |steps| ==> SeekHypothesis(states[i], steps[i])
    }
  }

  // ----- the invariant -----

  /** Request bytes between the daemon's hands and the client's. */
  function Rising(s: State): bytes {
    s.daemonIn + (s.upstream + (s.clientOut + if s.lock.Held? then s.lock.unsent else []))
  }

  /** Reply bytes between the client's hands and the daemon's. */
  function Falling(s: State): bytes {
    s.clientIn + (s.downstream + (s.daemonOut + if s.daemon.Replying? then s.daemon.left else []))
  }

  function Exchanges(answers: seq<Answer>): (log: seq<Exchanged>)
    ensures |log| == |answers|
  {
    seq(|answers|, i requires 0 <= i < |answers| => Exchanged(answers[i].request, answers[i].reply))
  }

  /** A request is on its way: nothing of a reply exists yet. */
  predicate Asking(s: State) {
    && s.lock.Held? && s.lock.request.Valid() && s.lock.got == [] && Falling(s) == []
    && s.served == Exchanges(s.answers)
    && match s.daemon
       case Heading(taken) => taken + Rising(s) == EncRequest(s.lock.request) && |taken| <= |EncHead(s.lock.request.head)|
       case Loading(head, body) =>
         head == s.lock.request.head && head.WriteHandle? && body + Rising(s) == s.lock.request.payload
       case Replying(left) => Rising(s) == EncRequest(s.lock.request)
       case Dead => false
  }

  /** The daemon has served the holder's request and `reply` is on its way. */
  predicate Answering(s: State, reply: Reply) {
    && s.lock.Held? && s.lock.request.Valid() && Rising(s) == []
    && Fits(s.lock.request.head, reply)
    && s.served == Exchanges(s.answers) + [Exchanged(s.lock.request, reply)]
    && s.lock.got + Falling(s) == EncReply(s.lock.request.head, reply)
    && (s.daemon == Heading([]) || s.daemon.Replying?)
  }

  predicate Resting(s: State) {
    && s.lock == Free && Quiet(s) && s.served == Exchanges(s.answers)
    && (s.daemon == Heading([]) || s.daemon == Replying([]))
  }

  ghost predicate Inv(s: State) {
    Resting(s) || Asking(s) || exists reply: Reply :: Answering(s, reply)
  }

  // ----- moving bytes along -----

  lemma Move(a: bytes, b: bytes, n: nat, c: bytes)
    requires n <= |b|
    ensures (a + b[..n]) + (b[n..] + c) == a + (b + c)
  {
    assert b == b[..n] + b[n..];
  }

  lemma MoveLast(a: bytes, b: bytes, n: nat)
    requires n <= |b|
    ensures (a + b[..n]) + b[n..] == a + b
  {
    assert b == b[..n] + b[n..];
  }

  lemma FourEmpty(a: bytes, b: bytes, c: bytes, d: bytes)
    requires a + (b + (c + d)) == []
    ensures a == [] && b == [] && c == [] && d == []
  {
    assert |a| + (|b| + (|c| + |d|)) == 0;
  }

  /** Pure transport leaves what is in flight unchanged. */
  lemma Transport(s: State, step: Step, t: State)
    requires Next(s, step, t)
    requires step.ClientPut? || step.ClientSend? || step.DaemonFill? || step.DaemonPut? || step.DaemonSend? || step.ClientFill?
    ensures Rising(t) == Rising(s) && Falling(t) == Falling(s)
  {
    var unsent := if s.lock.Held? then s.lock.unsent else [];
    var left := if s.daemon.Replying? then s.daemon.left else [];
    match step {
      case ClientPut(n) => MoveLast(s.clientOut, unsent, n);
      case ClientSend(n) => Move(s.upstream, s.clientOut, n, unsent);
      case DaemonFill(n) => Move(s.daemonIn, s.upstream, n, s.clientOut + unsent);
      case DaemonPut(n) => MoveLast(s.daemonOut, left, n);
      case DaemonSend(n) => Move(s.downstream, s.daemonOut, n, left);
      case ClientFill(n) => Move(s.clientIn, s.downstream, n, s.daemonOut + left);
    }
  }

  lemma TransportKeeps(s: State, step: Step, t: State)
    requires Inv(s) && Next(s, step, t)
    requires step.ClientPut? || step.ClientSend? || step.DaemonFill? || step.DaemonPut? || step.DaemonSend? || step.ClientFill?
    ensures Inv(t)
  {
    Transport(s, step, t);
    hide ParseHead, ParseReply, Serves, Collected, EncReply, EncRequest, EncHead, SeekOk, Fits;
    if Resting(s) {
      assert Quiet(t);
      assert Resting(t);
    } else if Asking(s) {
      if step.DaemonPut? {
        FourEmpty(s.clientIn, s.downstream, s.daemonOut, s.daemon.left);
      }
      assert Asking(t);
    } else {
      var reply: Reply :| Answering(s, reply);
      assert Answering(t, reply);
    }
  }

  lemma AcquireKeeps(s: State, step: Step, t: State)
    requires Inv(s) && Next(s, step, t) && step.Acquire?
    ensures Inv(t)
  {
    FreeRests(s);
    hide EncRequest, Asking, Resting, Answering;
    AcquireAsks(s, step.thread, step.request);
  }

  lemma FreeRests(s: State)
    requires Inv(s) && s.lock == Free
    ensures Resting(s)
  {
  }

  lemma AcquireAsks(s: State, thread: nat, r: Request)
    requires Resting(s) && r.Valid()
    ensures Asking(s.(lock := Held(thread, r, EncRequest(r), [])))
  {
    var enc := EncRequest(r);
    hide EncRequest, EncHead;
    assert [] + ([] + ([] + enc)) == enc && [] + enc == enc;
  }

  /** A part of the holder's head is recognised exactly when it is the whole head. */
  lemma HeadWithin(r: Request, taken: bytes, rest: bytes)
    requires taken + rest == EncRequest(r) && |taken| <= |EncHead(r.head)|
    ensures |taken| < |EncHead(r.head)| ==> ParseHead(taken).Short?
    ensures |taken| == |EncHead(r.head)| ==> rest == r.payload && ParseHead(taken) == Got(r.head, [])
  {
    var e, all := EncHead(r.head), EncRequest(r);
    var q := e[|taken|..];
    assert taken == all[..|taken|] && e == all[..|e|];
    assert taken + q == e;
    HeadPrefixFree(r.head, taken, q);
    if |taken| == |e| {
      assert rest == all[|e|..] && r.payload == all[|e|..];
    }
  }

  /** Taking head bytes never runs past the holder's head. */
  lemma HeadTaken(r: Request, taken: bytes, rest: bytes)
    requires taken + rest == EncRequest(r)
    requires ParseHead(taken).Got? ==> ParseHead(taken).rest == []
    ensures |taken| <= |EncHead(r.head)|
  {
    var e, all := EncHead(r.head), EncRequest(r);
    if |taken| > |e| {
      var extra := taken[|e|..];
      assert taken == all[..|taken|] && e == all[..|e|];
      assert taken == e + extra;
      HeadRoundTrip(r.head, extra);
    }
  }

  lemma HeadKeeps(s: State, step: Step, t: State)
    requires Inv(s) && Next(s, step, t) && step.DaemonHead?
    ensures Inv(t)
  {
    var n := step.n;
    if Asking(s) {
      var tail := s.upstream + (s.clientOut + s.lock.unsent);
      Move(s.daemon.taken, s.daemonIn, n, tail);
      var taken := s.daemon.taken + s.daemonIn[..n];
      HeadTaken(s.lock.request, taken, Rising(t));
      HeadWithin(s.lock.request, taken, Rising(t));
      assert Asking(t);
    } else {
      NoRising(s);
    }
  }

  /** Outside `Asking` the daemon has nothing to read. */
  lemma NoRising(s: State)
    requires Inv(s) && !Asking(s)
    ensures s.daemonIn == [] && !WriteHeadReady(s) && Collected(s).Short? && !s.daemon.Loading?
  {
    if !Resting(s) {
      FourEmpty(s.daemonIn, s.upstream, s.clientOut, s.lock.unsent);
    }
  }

  /** Outside `Answering` the client has nothing to read. */
  lemma NoFalling(s: State)
    requires Inv(s) && (Resting(s) || Asking(s))
    ensures s.clientIn == [] && s.downstream == [] && s.daemonOut == [] && (s.daemon.Replying? ==> s.daemon.left == [])
  {
    if Asking(s) {
      FourEmpty(s.clientIn, s.downstream, s.daemonOut, if s.daemon.Replying? then s.daemon.left else []);
    }
  }

  lemma SeekKeeps(s: State, step: Step, t: State)
    requires Inv(s) && Next(s, step, t) && step.DaemonSeek?
    ensures Inv(t)
  {
    if Asking(s) {
      HeadWithin(s.lock.request, s.daemon.taken, Rising(s));
      assert [] + Rising(t) == Rising(t);
      assert Asking(t);
    } else {
      NoRising(s);
    }
  }

  lemma LoadKeeps(s: State, step: Step, t: State)
    requires Inv(s) && Next(s, step, t) && step.DaemonLoad?
    ensures Inv(t)
  {
    if Asking(s) {
      Move(s.daemon.body, s.daemonIn, step.n, s.upstream + (s.clientOut + s.lock.unsent));
      assert Asking(t);
    } else {
      NoRising(s);
    }
  }

  /** The collected request is the holder's, to the last byte. */
  lemma CollectedIsRequest(s: State)
    requires Asking(s) && Collected(s).Got?
    ensures Collected(s).value == s.lock.request && Rising(s) == []
  {
    var r := s.lock.request;
    if s.daemon.Heading? {
      HeadWithin(r, s.daemon.taken, Rising(s));
    } else {
      assert |s.daemon.body| + |Rising(s)| == |r.payload|;
      assert s.daemon.body + [] == s.daemon.body;
    }
  }

  lemma ReplyStarts(s: State, t: State, reply: Reply)
    requires Asking(s) && !s.daemon.Replying? && Rising(s) == [] && Fits(s.lock.request.head, reply)
    requires t == s.(fs := t.fs, history := t.history, daemon := Replying(EncReply(s.lock.request.head, reply)),
                     served := s.served + [Exchanged(s.lock.request, reply)])
    ensures Answering(t, reply)
  {
    NoFalling(s);
    var enc := EncReply(s.lock.request.head, reply);
    assert [] + ([] + ([] + ([] + enc))) == enc;
  }

  lemma ServeKeeps(s: State, step: Step, t: State)
    requires Inv(s) && Next(s, step, t) && step.DaemonServe?
    ensures Inv(t) && Asking(s) && t.served == s.served + [Exchanged(s.lock.request, step.reply)]
  {
    if Asking(s) {
      CollectedIsRequest(s);
      ReplyStarts(s, t, step.reply);
    } else {
      NoRising(s);
    }
  }

  /** A failing seek answers the holder's own request and leaves exactly its payload unread;
      the discipline survives if and only if that payload is empty. */
  lemma RefusedSeek(s: State, step: Step, t: State)
    requires Inv(s) && Next(s, step, t) && step.DaemonRefuseSeek?
    ensures Asking(s) && s.lock.request.head.WriteHandle?
    ensures !SeekOk(s.fs, s.lock.request.head.handle, s.lock.request.head.offset)
    ensures Rising(t) == s.lock.request.payload && |Rising(t)| == s.lock.request.head.dataLen
    ensures t.served == s.served + [Exchanged(Request(s.lock.request.head, []), step.reply)]
    ensures Inv(t) <==> s.lock.request.head.dataLen == 0
    ensures SeekHypothesis(s, step) <==> s.lock.request.head.dataLen == 0
  {
    if !Asking(s) {
      NoRising(s);
    }
    HeadWithin(s.lock.request, s.daemon.taken, Rising(s));
    if s.lock.request.head.dataLen == 0 {
      assert s.lock.request == Request(s.lock.request.head, []);
      ReplyStarts(s, t, step.reply);
      assert Inv(t);
    } else {
      assert |t.served| == |Exchanges(t.answers)| + 1;
      assert !Asking(t);
    }
  }

  lemma LoopKeeps(s: State, step: Step, t: State)
    requires Inv(s) && Next(s, step, t) && step.DaemonLoop?
    ensures Inv(t)
  {
    if Resting(s) {
      assert Resting(t);
    } else if Asking(s) {
      assert [] + Rising(t) == Rising(t);
      assert Asking(t);
    } else {
      var reply: Reply :| Answering(s, reply);
      assert Falling(t) == Falling(s);
      assert Answering(t, reply);
    }
  }

  lemma TakeKeeps(s: State, step: Step, t: State)
    requires Inv(s) && Next(s, step, t) && step.ClientTake?
    ensures Inv(t)
  {
    if Asking(s) {
      NoFalling(s);
    } else {
      var reply: Reply :| Answering(s, reply);
      var tail := s.downstream + (s.daemonOut + if s.daemon.Replying? then s.daemon.left else []);
      Move(s.lock.got, s.clientIn, step.n, tail);
      assert Answering(t, reply);
    }
  }

  /** The reply a thread returns is the one the daemon made for its own request. */
  lemma ReleaseKeeps(s: State, step: Step, t: State)
    requires Inv(s) && Next(s, step, t) && step.Release?
    ensures Inv(t) && Resting(t)
    ensures s.served == Exchanges(t.answers)
    ensures t.answers[|s.answers|] == Answer(s.lock.thread, s.lock.request, s.served[|s.answers|].reply)
  {
    var head := s.lock.request.head;
    if !Asking(s) {
      var reply: Reply :| Answering(s, reply);
      ReplyPrefixFree(head, reply, s.lock.got, Falling(s));
      FourEmpty(s.clientIn, s.downstream, s.daemonOut, if s.daemon.Replying? then s.daemon.left else []);
      FourEmpty(s.daemonIn, s.upstream, s.clientOut, s.lock.unsent);
      assert Exchanges(t.answers) == Exchanges(s.answers) + [Exchanged(s.lock.request, reply)];
    }
  }

  lemma StepKeeps(s: State, step: Step, t: State)
    requires Inv(s) && Next(s, step, t) && SeekHypothesis(s, step)
    ensures Inv(t)
  {
    hide *;
    match step {
      case Acquire(_, _) => AcquireKeeps(s, step, t);
      case DaemonHead(_) => HeadKeeps(s, step, t);
      case DaemonRefuseSeek(_) => RefusedSeek(s, step, t);
      case DaemonSeek => SeekKeeps(s, step, t);
      case DaemonLoad(_) => LoadKeeps(s, step, t);
      case DaemonServe(_, _) => ServeKeeps(s, step, t);
      case DaemonLoop => LoopKeeps(s, step, t);
      case ClientTake(_) => TakeKeeps(s, step, t);
      case Release => ReleaseKeeps(s, step, t);
      case _ => TransportKeeps(s, step, t);
    }
  }

  // ----- every run -----

  /** The device's history is a run of the requests served. */
  ghost predicate Recorded(s: State) {
    Trace(s.history, s.served) && s.history[|s.served|] == s.fs
  }

  lemma InitHolds(s: State)
    requires Init(s)
    ensures Inv(s) && Recorded(s)
  {
    assert Resting(s);
  }

  /** The invariant, and the device's history as the run of the requests served so far. */
  lemma {:induction false} RunKeeps(run: Run, i: nat)
    requires run.Valid() && run.SeeksSucceed() && i < |run.states|
    ensures Inv(run.states[i]) && Recorded(run.states[i])
  {
    hide Next, Inv, Recorded, SeekHypothesis, Init;
    if i == 0 {
      InitHolds(run.states[0]);
    } else {
      RunKeeps(run, i - 1);
      var s, step, t := run.states[i - 1], run.steps[i - 1], run.states[i];
      assert Next(s, step, t) && SeekHypothesis(s, step);
      StepKeeps(s, step, t);
      DeviceFollows(s, step, t);
    }
  }

  /** Also without the hypothesis: a refused write serves its head and nothing of its payload. */
  lemma DeviceFollows(s: State, step: Step, t: State)
    requires Next(s, step, t) && Recorded(s)
    ensures Recorded(t)
  {
    hide Serves, Fs.Valid, ParseHead;
    if step.DaemonServe? {
      TraceOne(s.history, s.served, Exchanged(Collected(s).value, step.reply), t.fs);
    } else if step.DaemonRefuseSeek? {
      var head := ParseHead(s.daemon.taken).value;
      ServedUnsought(s.fs, head, step.reply);
      TraceOne(s.history, s.served, Exchanged(Request(head, []), step.reply), t.fs);
    }
  }

  /** In every interleaving in which each write seeks successfully or carries no data: whenever
      the lock is free all buffers and both stream directions are empty, and what the threads
      were told is, request by request, exactly what the device served, in that order. */
  lemma LockFreeMeansQuiet(run: Run, i: nat)
    requires run.Valid() && run.SeeksSucceed() && i < |run.states| && run.states[i].lock == Free
    ensures Quiet(run.states[i])
    ensures Trace(run.states[i].history, Exchanges(run.states[i].answers))
    ensures run.states[i].history[|run.states[i].answers|] == run.states[i].fs
  {
    RunKeeps(run, i);
  }

  /** Each thread gets the daemon's reply to its own request. */
  lemma OwnReply(run: Run, i: nat)
    requires run.Valid() && run.SeeksSucceed() && i < |run.steps| && run.steps[i].Release?
    ensures var s, t := run.states[i], run.states[i + 1];
            && s.lock.Held? && s.served == Exchanges(t.answers)
            && t.answers == s.answers + [Answer(s.lock.thread, s.lock.request, s.served[|s.answers|].reply)]
  {
    RunKeeps(run, i);
    assert Next(run.states[i], run.steps[i], run.states[i + 1]);
    ReleaseKeeps(run.states[i], run.steps[i], run.states[i + 1]);
  }

  /** What the threads were told is what the device served first, whoever holds the lock now. */
  lemma AnswersWereServed(run: Run, i: nat)
    requires run.Valid() && run.SeeksSucceed() && i < |run.states|
    ensures var s := run.states[i];
            && |s.answers| < |s.history|
            && Trace(s.history[..|s.answers| + 1], Exchanges(s.answers))
  {
    RunKeeps(run, i);
    var s := run.states[i];
    TracePrefix(s.history, s.served, |s.answers|);
    assert s.served[..|s.answers|] == Exchanges(s.answers);
  }

  /** The device when the request answered as number `m` was served. */
  function At(s: State, m: nat): Fs {
    if m < |s.history| then s.history[m] else s.fs
  }

  /** What the threads observe: in every such interleaving a read is answered with exactly the
      requested window of the file as the answered requests on it, of all threads and through any
      descriptors, leave it, counted from any earlier point, unless a write to it failed half-way. */
  lemma ReadAnswersReplay(run: Run, i: nat, ino: nat, k: nat, j: nat)
    requires run.Valid() && run.SeeksSucceed() && i < |run.states|
    requires k <= j < |run.states[i].answers| && ino in At(run.states[i], k).content
    requires forall m :: k <= m < j ==> !Torn(At(run.states[i], m), Exchanges(run.states[i].answers)[m], ino)
    requires var r := run.states[i].answers[j];
             r.request.head.ReadHandle? && r.reply.Data? && Refers(At(run.states[i], j), r.request.head.handle, ino)
    ensures |run.states[i].answers| < |run.states[i].history|
    ensures var s := run.states[i];
            var r := s.answers[j];
            && r.reply.content == ReadAt(Replay(s.history[..|s.answers| + 1], Exchanges(s.answers), ino, k, j),
                                         r.request.head.offset, r.request.head.dataLen)
            && |r.reply.content| <= r.request.head.dataLen
  {
    AnswersWereServed(run, i);
    hide Run.Valid, Run.SeeksSucceed, Trace, Fs.Valid, Torn, ReadAt, Refers;
    var s := run.states[i];
    ReadReplays(s.history[..|s.answers| + 1], Exchanges(s.answers), ino, k, j);
  }

  /** In particular: after a successful write, with any requests of any threads between them that
      spare the file, a read of the same file through any descriptor returns exactly the requested
      window of the file as it was before the write with the payload spliced in. */
  lemma ReadAnswersWrite(run: Run, i: nat, ino: nat, k: nat, j: nat)
    requires run.Valid() && run.SeeksSucceed() && i < |run.states|
    requires k < j < |run.states[i].answers|
    requires var w := run.states[i].answers[k];
             w.request.head.WriteHandle? && w.reply == Done(SUCCESS) && Refers(At(run.states[i], k), w.request.head.handle, ino)
    requires var r := run.states[i].answers[j];
             r.request.head.ReadHandle? && r.reply.Data? && Refers(At(run.states[i], j), r.request.head.handle, ino)
    requires forall m :: k < m < j ==> Spares(At(run.states[i], m), run.states[i].answers[m].request.head, ino)
    ensures ino in At(run.states[i], k).content
    ensures var w, r := run.states[i].answers[k].request, run.states[i].answers[j];
            && r.reply.content == ReadAt(Splice(At(run.states[i], k).content[ino], w.head.offset, w.payload),
                                         r.request.head.offset, r.request.head.dataLen)
            && |r.reply.content| <= r.request.head.dataLen
  {
    AnswersWereServed(run, i);
    hide Run.Valid, Run.SeeksSucceed, Trace, Fs.Valid, Spares, ReadAt, Refers, Splice;
    var s := run.states[i];
    var states, log := s.history[..|s.answers| + 1], Exchanges(s.answers);
    assert forall m :: k < m < j ==> states[m] == At(s, m) && log[m].request == s.answers[m].request;
    ReadSeesWrite(states, log, ino, k, j);
  }

  /** And after a successful length change: the old bytes as far as they and the new length go, and
      zeros behind them. */
  lemma ReadAnswersLength(run: Run, i: nat, ino: nat, k: nat, j: nat)
    requires run.Valid() && run.SeeksSucceed() && i < |run.states|
    requires k < j < |run.states[i].answers|
    requires var w := run.states[i].answers[k];
             w.request.head.TruncateHandle? && w.reply == Done(SUCCESS) && Refers(At(run.states[i], k), w.request.head.handle, ino)
    requires var r := run.states[i].answers[j];
             r.request.head.ReadHandle? && r.reply.Data? && Refers(At(run.states[i], j), r.request.head.handle, ino)
    requires forall m :: k < m < j ==> Spares(At(run.states[i], m), run.states[i].answers[m].request.head, ino)
    ensures ino in At(run.states[i], k).content
    ensures var w, r := run.states[i].answers[k].request.head, run.states[i].answers[j];
            ReadsResized(At(run.states[i], k).content[ino], w.newLength, r.request.head.offset, r.request.head.dataLen, r.reply.content)
  {
    AnswersWereServed(run, i);
    hide Run.Valid, Run.SeeksSucceed, Trace, Fs.Valid, Spares, Refers, ReadsResized;
    var s := run.states[i];
    var states, log := s.history[..|s.answers| + 1], Exchanges(s.answers);
    assert forall m :: k < m < j ==> states[m] == At(s, m) && log[m].request == s.answers[m].request;
    ReadSeesLength(states, log, ino, k, j);
  }

  // ----- an exchange is one atomic step -----

  /** Steps only add to the logs, and the device moves only with them. */
  predicate LogsGrow(s: State, t: State) {
    s.served <= t.served && s.history <= t.history && s.answers <= t.answers
  }

  lemma StepGrows(s: State, step: Step, t: State)
    requires Next(s, step, t)
    ensures LogsGrow(s, t) && (step.Release? || t.answers == s.answers)
  {
    hide ParseHead, ParseReply, Serves, Collected, EncReply, EncRequest, SeekOk;
  }

  /** While a thread holds the lock, nobody else is answered and the request stays the same. */
  lemma {:induction false} HeldSinceAcquire(run: Run, i: nat, j: nat)
    requires run.Valid() && i < j < |run.states| && run.steps[i].Acquire?
    requires forall m :: i < m < j ==> !run.steps[m].Release?
    ensures var s, t := run.states[i], run.states[j];
            && t.lock.Held? && t.lock.thread == run.steps[i].thread && t.lock.request == run.steps[i].request
            && LogsGrow(s, t) && t.answers == s.answers
  {
    hide Next;
    var s, t := run.states[j - 1], run.states[j];
    assert Next(s, run.steps[j - 1], t);
    StepGrows(s, run.steps[j - 1], t);
    if i == j - 1 {
      AcquireTakes(s, run.steps[i], t);
    } else {
      HeldSinceAcquire(run, i, j - 1);
      StepSameExchange(s, run.steps[j - 1], t);
      StillHeld(s, run.steps[j - 1], t);
    }
  }

  lemma AcquireTakes(s: State, step: Step, t: State)
    requires Next(s, step, t) && step.Acquire?
    ensures t == s.(lock := Held(step.thread, step.request, EncRequest(step.request), []))
  {
  }

  lemma StillHeld(s: State, step: Step, t: State)
    requires Next(s, step, t) && s.lock.Held? && !step.Release?
    ensures t.lock.Held?
  {
    hide ParseHead, ParseReply, Serves, Collected, EncReply, EncRequest, SeekOk;
  }

  /** Under the hypothesis, between taking the lock and releasing it exactly one request is served, and
      it is the holder's: seen from outside, the whole exchange is one step of the device, whose
      reply the holder returns. */
  lemma ExchangeIsAtomic(run: Run, i: nat, j: nat)
    requires run.Valid() && run.SeeksSucceed() && i < j < |run.steps| && run.steps[i].Acquire? && run.steps[j].Release?
    requires forall m :: i < m < j ==> !run.steps[m].Release?
    ensures var s, t := run.states[i], run.states[j + 1];
            && |t.answers| == |s.answers| + 1
            && var reply := t.answers[|s.answers|].reply;
            && t.answers == s.answers + [Answer(run.steps[i].thread, run.steps[i].request, reply)]
            && t.served == s.served + [Exchanged(run.steps[i].request, reply)]
            && Serves(s.fs, run.steps[i].request, reply, t.fs)
  {
    var s, last, t := run.states[i], run.states[j], run.states[j + 1];
    HeldSinceAcquire(run, i, j);
    assert Next(s, run.steps[i], run.states[i + 1]) && Next(last, run.steps[j], t);
    StepGrows(last, run.steps[j], t);
    RunKeeps(run, i);
    RunKeeps(run, j);
    RunKeeps(run, j + 1);
    AtRest(s);
    ReleaseKeeps(last, run.steps[j], t);
    AtRest(t);
    ReleaseAnswers(last, run.steps[j], t);
    hide Run.Valid, Run.SeeksSucceed, Next, Inv, Serves, Fs.Valid;
    OneServed(s, t, run.steps[i].thread, run.steps[i].request);
  }

  lemma AtRest(s: State)
    requires Inv(s) && s.lock == Free
    ensures s.served == Exchanges(s.answers)
  {
  }

  lemma ReleaseAnswers(s: State, step: Step, t: State)
    requires Next(s, step, t) && step.Release?
    ensures s.lock.Held? && |t.answers| == |s.answers| + 1
    ensures t.answers == s.answers + [Answer(s.lock.thread, s.lock.request, t.answers[|s.answers|].reply)] && t.lock == Free
  {
  }

  lemma OneServed(s: State, t: State, thread: nat, r: Request)
    requires Recorded(s) && Recorded(t) && LogsGrow(s, t)
    requires s.served == Exchanges(s.answers) && t.served == Exchanges(t.answers) && |t.answers| == |s.answers| + 1
    requires t.answers == s.answers + [Answer(thread, r, t.answers[|s.answers|].reply)]
    ensures t.served == s.served + [Exchanged(r, t.answers[|s.answers|].reply)]
    ensures Serves(s.fs, r, t.answers[|s.answers|].reply, t.fs)
  {
    hide Serves, Fs.Valid;
    var n := |s.served|;
    assert s.history[n] == t.history[n];
    assert Serves(t.history[n], t.served[n].request, t.served[n].reply, t.history[n + 1]);
  }

  // ----- progress -----

  /** How far the holder's exchange still has to go: its stage, and within a stage the bytes in
      flight, each weighed by the number of hands it still has to pass through. */
  function Stage(s: State): nat {
    if s.lock == Free then 0
    else if |s.served| > |s.answers| then (if s.daemon.Replying? then 2 else 1)
    else if s.daemon.Loading? then 3
    else if s.daemon.Heading? then 4
    else 5
  }

  function InFlight(s: State): nat {
    4 * (if s.lock.Held? then |s.lock.unsent| else 0) + 3 * |s.clientOut| + 2 * |s.upstream| + |s.daemonIn|
    + 4 * (if s.daemon.Replying? then |s.daemon.left| else 0) + 3 * |s.daemonOut| + 2 * |s.downstream| + |s.clientIn|
  }

  predicate Nearer(t: State, s: State) {
    Stage(t) < Stage(s) || (Stage(t) == Stage(s) && InFlight(t) < InFlight(s))
  }

  lemma StageOf(s: State)
    requires Inv(s)
    ensures Resting(s) ==> s.lock == Free
    ensures Asking(s) ==> s.lock.Held? && |s.served| == |s.answers| && s.daemon != Dead
    ensures !Resting(s) && !Asking(s) ==> s.lock.Held? && |s.served| == |s.answers| + 1 && (s.daemon == Heading([]) || s.daemon.Replying?)
  {
  }

  lemma TransportDescends(s: State, step: Step, t: State)
    requires s.lock.Held? && Next(s, step, t)
    requires step.ClientPut? || step.ClientSend? || step.DaemonFill? || step.DaemonPut? || step.DaemonSend? || step.ClientFill?
    ensures t == s || Nearer(t, s)
  {
    hide Serves, ParseHead, ParseReply, Collected, EncReply, EncRequest, SeekOk, ClientWaiting, WriteHeadReady;
    if step.n == 0 {
      assert t == s;
    } else {
      assert Stage(t) == Stage(s);
      hide Stage;
      match step {
        case ClientPut(n) => assert |t.lock.unsent| == |s.lock.unsent| - n && |t.clientOut| == |s.clientOut| + n;
        case ClientSend(n) => assert |t.clientOut| == |s.clientOut| - n && |t.upstream| == |s.upstream| + n;
        case DaemonFill(n) => assert |t.upstream| == |s.upstream| - n && |t.daemonIn| == |s.daemonIn| + n;
        case DaemonPut(n) => assert |t.daemon.left| == |s.daemon.left| - n && |t.daemonOut| == |s.daemonOut| + n;
        case DaemonSend(n) => assert |t.daemonOut| == |s.daemonOut| - n && |t.downstream| == |s.downstream| + n;
        case ClientFill(n) => assert |t.downstream| == |s.downstream| - n && |t.clientIn| == |s.clientIn| + n;
      }
    }
  }

  /** Taking bytes out of a reader's buffer. */
  lemma TakingDescends(s: State, step: Step, t: State)
    requires Inv(s) && s.lock.Held? && Next(s, step, t) && (step.DaemonHead? || step.DaemonLoad? || step.ClientTake?)
    ensures t == s || Nearer(t, s)
  {
    hide Inv, Fits, Serves, ParseReply, EncReply, EncRequest, EncHead;
    if step.DaemonHead? {
      HeadKeeps(s, step, t);
      StageOf(t);
    } else if step.DaemonLoad? && step.n == 0 {
      assert s.daemon.body + s.daemonIn[..0] == s.daemon.body;
      assert t == s;
    }
  }

  /** Turning to the next stage. */
  lemma TurningDescends(s: State, step: Step, t: State)
    requires Inv(s) && s.lock.Held? && Next(s, step, t) && SeekHypothesis(s, step)
    requires step.DaemonRefuseSeek? || step.DaemonSeek? || step.DaemonServe? || step.DaemonLoop? || step.Release?
    ensures Nearer(t, s)
  {
    StageOf(s);
    hide Inv, Resting, Rising, Falling, Fits, SeekOk, Serves, ParseHead, ParseReply, EncReply, EncRequest, EncHead, InFlight;
    if step.DaemonRefuseSeek? {
      RefusedSeek(s, step, t);
    } else if step.DaemonServe? {
      ServeKeeps(s, step, t);
    } else if step.DaemonSeek? && !Asking(s) {
      NoRising(s);
    }
  }

  /** Every step taken while a request is under way brings its answer nearer, or does nothing at
      all: an exchange cannot go on for ever. */
  lemma StepDescends(s: State, step: Step, t: State)
    requires Inv(s) && s.lock.Held? && Next(s, step, t) && SeekHypothesis(s, step)
    ensures t == s || Nearer(t, s)
  {
    hide Inv, SeekHypothesis, Nearer;
    match step {
      case Acquire(_, _) =>
      case DaemonHead(_) => TakingDescends(s, step, t);
      case DaemonLoad(_) => TakingDescends(s, step, t);
      case ClientTake(_) => TakingDescends(s, step, t);
      case ClientPut(_) => TransportDescends(s, step, t);
      case ClientSend(_) => TransportDescends(s, step, t);
      case ClientFill(_) => TransportDescends(s, step, t);
      case DaemonFill(_) => TransportDescends(s, step, t);
      case DaemonPut(_) => TransportDescends(s, step, t);
      case DaemonSend(_) => TransportDescends(s, step, t);
      case _ => TurningDescends(s, step, t);
    }
  }

  predicate Extends(run: Run, longer: Run) {
    run.states <= longer.states && run.steps <= longer.steps
  }

  lemma Extend(run: Run, step: Step, t: State) returns (longer: Run)
    requires run.Valid() && Next(run.Last(), step, t)
    ensures longer.Valid() && longer.Last() == t && Extends(run, longer)
    ensures longer.steps == run.steps + [step]
  {
    longer := Run(run.states + [t], run.steps + [step]);
    forall i | 0 <= i < |longer.steps| ensures Next(longer.states[i], longer.steps[i], longer.states[i + 1]) {
      if i < |run.steps| {
        assert Next(run.states[i], run.steps[i], run.states[i + 1]);
      }
    }
  }

  /** The holder's write, if it is one and still has to be sought, can be. */
  predicate CanSeek(s: State) {
    s.lock.Held? && |s.served| == |s.answers| && !s.daemon.Loading? && PayloadLength(s.lock.request.head) > 0
    ==> SeekOk(s.fs, s.lock.request.head.handle, s.lock.request.head.offset)
  }

  /** Moving everything there is in one place one hand further. */
  lemma BytesCanMove(s: State) returns (step: Step, t: State)
    requires s.lock.Held?
    requires s.lock.unsent != [] || s.clientOut != [] || s.upstream != [] || s.daemonOut != [] || s.downstream != []
             || (s.daemon.Replying? && s.daemon.left != [])
    ensures Next(s, step, t) && Nearer(t, s) && SeekHypothesis(s, step)
    ensures CanSeek(s) ==> CanSeek(t)
  {
    hide ParseHead;
    if s.lock.unsent != [] {
      var n := |s.lock.unsent|;
      step, t := ClientPut(n), s.(lock := s.lock.(unsent := s.lock.unsent[n..]), clientOut := s.clientOut + s.lock.unsent[..n]);
    } else if s.clientOut != [] {
      var n := |s.clientOut|;
      step, t := ClientSend(n), s.(clientOut := s.clientOut[n..], upstream := s.upstream + s.clientOut[..n]);
    } else if s.upstream != [] {
      var n := |s.upstream|;
      step, t := DaemonFill(n), s.(upstream := s.upstream[n..], daemonIn := s.daemonIn + s.upstream[..n]);
    } else if s.daemonOut != [] {
      var n := |s.daemonOut|;
      step, t := DaemonSend(n), s.(daemonOut := s.daemonOut[n..], downstream := s.downstream + s.daemonOut[..n]);
    } else if s.downstream != [] {
      var n := |s.downstream|;
      step, t := ClientFill(n), s.(downstream := s.downstream[n..], clientIn := s.clientIn + s.downstream[..n]);
    } else {
      var n := |s.daemon.left|;
      step, t := DaemonPut(n), s.(daemon := Replying(s.daemon.left[n..]), daemonOut := s.daemonOut + s.daemon.left[..n]);
    }
  }

  /** Nothing is left to move but what a reader has in its buffer. */
  predicate Delivered(s: State) {
    && s.lock.Held? && s.lock.unsent == [] && s.clientOut == [] && s.upstream == []
    && s.daemonOut == [] && s.downstream == [] && (s.daemon.Replying? ==> s.daemon.left == [])
  }

  /** The daemon can go on with a request that has reached it. */
  lemma DaemonCanStep(s: State) returns (step: Step, t: State)
    requires Asking(s) && Delivered(s) && s.fs.Valid() && CanSeek(s)
    ensures Next(s, step, t) && Nearer(t, s) && SeekHypothesis(s, step) && CanSeek(t)
  {
    assert Rising(s) == s.daemonIn;
    var r := s.lock.request;
    match s.daemon
    case Replying(left) =>
      step, t := DaemonLoop, s.(daemon := Heading([]));
    case Loading(head, body) =>
      if |body| == PayloadLength(head) {
        step, t := CanServe(s);
      } else {
        var n := |s.daemonIn|;
        assert |body| + n == |r.payload|;
        step, t := DaemonLoad(n), s.(daemonIn := s.daemonIn[n..], daemon := Loading(head, body + s.daemonIn[..n]));
      }
    case Heading(taken) =>
      HeadWithin(r, taken, s.daemonIn);
      if |taken| < |EncHead(r.head)| {
        step, t := CanTakeHead(s);
      } else if !r.head.WriteHandle? {
        step, t := CanServe(s);
      } else if SeekOk(s.fs, r.head.handle, r.head.offset) {
        step, t := DaemonSeek, s.(daemon := Loading(r.head, []));
      } else {
        var reply := Done(GENERIC_FAILURE);
        step := DaemonRefuseSeek(reply);
        t := s.(daemon := Replying(EncReply(r.head, reply)),
                served := s.served + [Exchanged(Request(r.head, []), reply)], history := s.history + [s.fs]);
      }
  }

  lemma CanTakeHead(s: State) returns (step: Step, t: State)
    requires Asking(s) && Delivered(s) && CanSeek(s)
    requires s.daemon.Heading? && |s.daemon.taken| < |EncHead(s.lock.request.head)|
    ensures Next(s, step, t) && Nearer(t, s) && SeekHypothesis(s, step) && CanSeek(t)
  {
    var r, taken := s.lock.request, s.daemon.taken;
    assert Rising(s) == s.daemonIn;
    var h, all := EncHead(r.head), EncRequest(r);
    var n := |h| - |taken|;
    assert |taken| + |s.daemonIn| == |all|;
    assert taken + s.daemonIn == (taken + s.daemonIn[..n]) + s.daemonIn[n..];
    HeadWithin(r, taken, s.daemonIn);
    HeadWithin(r, taken + s.daemonIn[..n], s.daemonIn[n..]);
    step, t := DaemonHead(n), s.(daemonIn := s.daemonIn[n..], daemon := Heading(taken + s.daemonIn[..n]));
  }

  lemma CanServe(s: State) returns (step: Step, t: State)
    requires Asking(s) && Collected(s).Got? && s.fs.Valid()
    ensures Next(s, step, t) && Nearer(t, s) && SeekHypothesis(s, step) && CanSeek(t)
  {
    var r := Collected(s).value;
    assert |s.served| == |s.answers| && (s.daemon.Heading? || s.daemon.Loading?);
    hide Serves, Fs.Valid, Collected, EncReply, ParseHead, EncRequest, EncHead, Asking, Rising, Falling, InFlight, SeekOk, Fits;
    var reply, fs := AlwaysServed(s.fs, r);
    ServesFits(s.fs, r, reply, fs);
    step := DaemonServe(reply, fs);
    t := s.(fs := fs, daemon := Replying(EncReply(r.head, reply)),
            served := s.served + [Exchanged(r, reply)], history := s.history + [fs]);
  }

  lemma ServesFits(fs: Fs, r: Request, reply: Reply, fs': Fs)
    requires Serves(fs, r, reply, fs')
    ensures Fits(r.head, reply)
  {
  }

  /** The client can go on with a reply that has reached it. */
  lemma ClientCanStep(s: State, reply: Reply) returns (step: Step, t: State)
    requires Answering(s, reply) && Delivered(s)
    ensures Next(s, step, t) && Nearer(t, s) && SeekHypothesis(s, step) && CanSeek(t)
    ensures t.lock == Free || (t.lock.Held? && t.answers == s.answers)
  {
    var head, got := s.lock.request.head, s.lock.got;
    assert Falling(s) == s.clientIn;
    ReplyPrefixFree(head, reply, got, s.clientIn);
    if s.clientIn == [] {
      step := Release;
      t := s.(lock := Free, answers := s.answers + [Answer(s.lock.thread, s.lock.request, reply)]);
    } else {
      var n := |s.clientIn|;
      assert s.clientIn[..n] == s.clientIn && got + s.clientIn == EncReply(head, reply);
      assert (got + s.clientIn) + [] == EncReply(head, reply);
      ReplyPrefixFree(head, reply, got + s.clientIn, []);
      step, t := ClientTake(n), s.(clientIn := s.clientIn[n..], lock := s.lock.(got := got + s.clientIn[..n]));
    }
  }

  /** No deadlock: while a request is under way, some step brings its answer nearer. */
  lemma NeverStuck(s: State) returns (step: Step, t: State)
    requires Inv(s) && s.lock.Held? && s.fs.Valid() && CanSeek(s)
    ensures Next(s, step, t) && Nearer(t, s) && SeekHypothesis(s, step) && CanSeek(t)
  {
    if !Delivered(s) {
      step, t := BytesCanMove(s);
    } else if Asking(s) {
      step, t := DaemonCanStep(s);
    } else {
      var reply: Reply :| Answering(s, reply);
      step, t := ClientCanStep(s, reply);
    }
  }

  /** While the lock is held, its holder and request stay the same; when it is released, exactly one
      answer has been added, and it is the holder's. */
  predicate SameExchange(s: State, t: State) {
    if t.lock.Held? then s.lock.Held? && t.lock.thread == s.lock.thread && t.lock.request == s.lock.request && t.answers == s.answers
    else
      && s.lock.Held? && |t.answers| == |s.answers| + 1 && t.answers[..|s.answers|] == s.answers
      && t.answers[|s.answers|].thread == s.lock.thread && t.answers[|s.answers|].request == s.lock.request
  }

  lemma StepSameExchange(s: State, step: Step, t: State)
    requires s.lock.Held? && Next(s, step, t)
    ensures SameExchange(s, t)
  {
    hide ParseHead, ParseReply, Serves, Collected, EncReply;
  }

  /** Every exchange can be completed: from every point of every run in which the hypothesis held and
      the holder's write can be sought, the run goes on, still within the hypothesis, until the
      holder has its answer and the lock is free. */
  lemma {:induction false} ExchangeCompletes(run: Run) returns (longer: Run)
    requires run.Valid() && run.SeeksSucceed() && run.Last().lock.Held? && CanSeek(run.Last())
    ensures longer.Valid() && longer.SeeksSucceed() && Extends(run, longer)
    ensures longer.Last().lock == Free && SameExchange(run.Last(), longer.Last())
    decreases Stage(run.Last()), InFlight(run.Last())
  {
    var s := run.Last();
    RunKeeps(run, |run.states| - 1);
    RecordedValid(s);
    hide Inv, Next, Recorded, CanSeek, Fs.Valid, SeekHypothesis, Run.Valid, Run.SeeksSucceed, Stage, InFlight, Extends, SameExchange;
    var step, t := NeverStuck(s);
    StepSameExchange(s, step, t);
    longer := Extend(run, step, t);
    StillSucceeds(run, longer, step);
    if t.lock != Free {
      var next := longer;
      longer := ExchangeCompletes(next);
      Chained(run, next, longer);
    }
  }

  lemma Chained(a: Run, b: Run, c: Run)
    requires |a.states| > 0 && |b.states| > 0 && |c.states| > 0
    requires Extends(a, b) && Extends(b, c) && SameExchange(a.Last(), b.Last()) && SameExchange(b.Last(), c.Last())
    requires b.Last().lock.Held?
    ensures Extends(a, c) && SameExchange(a.Last(), c.Last())
  {
  }

  lemma RecordedValid(s: State)
    requires Recorded(s)
    ensures s.fs.Valid()
  {
  }

  lemma StillSucceeds(run: Run, longer: Run, step: Step)
    requires run.Valid() && longer.Valid() && run.SeeksSucceed() && Extends(run, longer)
    requires longer.steps == run.steps + [step] && SeekHypothesis(run.Last(), step)
    ensures longer.SeeksSucceed()
  {
    hide SeekHypothesis, Next, Init;
    forall i | 0 <= i < |longer.steps| ensures SeekHypothesis(longer.states[i], longer.steps[i]) {
      assert longer.states[i] == run.states[i];
      if i < |run.steps| {
        assert SeekHypothesis(run.states[i], run.steps[i]);
      }
    }
  }

  /** So whenever the lock is free, any thread can have any request answered next. */
  lemma RequestIsAnswered(run: Run, thread: nat, r: Request) returns (longer: Run)
    requires run.Valid() && run.SeeksSucceed() && run.Last().lock == Free && r.Valid()
    requires PayloadLength(r.head) > 0 ==> SeekOk(run.Last().fs, r.head.handle, r.head.offset)
    ensures longer.Valid() && longer.SeeksSucceed() && Extends(run, longer)
    ensures longer.Last().lock == Free && |longer.Last().answers| == |run.Last().answers| + 1
    ensures var a := longer.Last().answers[|run.Last().answers|]; a.thread == thread && a.request == r
  {
    var s := run.Last();
    var held := s.(lock := Held(thread, r, EncRequest(r), []));
    var taken := Extend(run, Acquire(thread, r), held);
    StillSucceeds(run, taken, Acquire(thread, r));
    longer := ExchangeCompletes(taken);
  }

  // ----- without the hypothesis -----

  /** The path of a file, "/d/a", and a device on which the client has it open for reading and writing
      as descriptor 7. */
  const PATH: Text := [47, 100, 47, 97]
  const DEVICE := Fs(map[PATH := 1], map[1 := []], map[7 := OpenFile(1, 0, true, true, true)], {})

  function Start(): (s: State)
    ensures Init(s)
  {
    State(Free, [], [], [], Heading([]), [], [], [], DEVICE, [], [DEVICE], [])
  }

  /** A write to that descriptor at a negative offset. */
  function StrayWrite(payload: bytes): (r: Request)
    requires |payload| < TWO32
    ensures r.Valid()
  {
    Request(WriteHandle(7, 0x8000_0000_0000_0000, |payload|), payload)
  }

  /** A thread takes the lock and sends its whole request. */
  lemma SendAll(run: Run, thread: nat, r: Request) returns (longer: Run)
    requires run.Valid() && run.Last().lock == Free && run.Last().clientOut == [] && r.Valid()
    ensures longer.Valid() && Extends(run, longer)
    ensures longer.Last() == run.Last().(lock := Held(thread, r, [], []), upstream := run.Last().upstream + EncRequest(r))
  {
    var s, e := run.Last(), EncRequest(r);
    hide EncRequest, Run.Valid;
    assert e[|e|..] == [] && e[..|e|] == e && [] + e == e;
    longer := Extend(run, Acquire(thread, r), s.(lock := Held(thread, r, e, [])));
    longer := Extend(longer, ClientPut(|e|), s.(lock := Held(thread, r, [], []), clientOut := e));
    longer := Extend(longer, ClientSend(|e|), s.(lock := Held(thread, r, [], []), upstream := s.upstream + e));
  }

  /** The daemon's whole reply reaches the client's buffer. */
  lemma ReplyDown(run: Run) returns (longer: Run)
    requires run.Valid() && run.Last().daemon.Replying? && run.Last().daemonOut == [] && run.Last().downstream == []
    ensures longer.Valid() && Extends(run, longer)
    ensures longer.Last() == run.Last().(daemon := Replying([]), clientIn := run.Last().clientIn + run.Last().daemon.left)
  {
    var s := run.Last();
    var e := s.daemon.left;
    hide Run.Valid, ParseHead, ParseReply, EncReply, Serves;
    assert e[|e|..] == [] && e[..|e|] == e && [] + e == e;
    longer := Extend(run, DaemonPut(|e|), s.(daemon := Replying([]), daemonOut := e));
    longer := Extend(longer, DaemonSend(|e|), s.(daemon := Replying([]), downstream := e));
    longer := Extend(longer, ClientFill(|e|), s.(daemon := Replying([]), clientIn := s.clientIn + e));
  }

  /** The waiting thread reads the reply at the front of its buffer and returns it. */
  lemma TakeReply(run: Run, reply: Reply, rest: bytes) returns (longer: Run)
    requires run.Valid() && ClientWaiting(run.Last()) && run.Last().lock.got == []
    requires Fits(run.Last().lock.request.head, reply)
    requires run.Last().clientIn == EncReply(run.Last().lock.request.head, reply) + rest
    ensures longer.Valid() && Extends(run, longer)
    ensures var s := run.Last();
            longer.Last() == s.(clientIn := rest, lock := Free,
              answers := s.answers + [Answer(s.lock.thread, s.lock.request, reply)])
  {
    var s := run.Last();
    var head := s.lock.request.head;
    var e := EncReply(head, reply);
    ReplyPrefixFree(head, reply, e, []);
    ReplyPrefixFree(head, reply, [], e);
    NonEmptyReply(head, reply);
    hide Run.Valid, ParseReply, EncReply, ParseHead, Serves, Fits, Collected, SeekOk, Fs.Valid, Extends;
    assert e + [] == e && [] + e == e && s.clientIn[..|e|] == e && s.clientIn[|e|..] == rest;
    var s1 := s.(clientIn := rest, lock := s.lock.(got := e));
    longer := Extend(run, ClientTake(|e|), s1);
    var taken := longer;
    longer := Extend(taken, Release, s1.(lock := Free, answers := s.answers + [Answer(s.lock.thread, s.lock.request, reply)]));
    ExtendsBoth(run, taken, longer);
  }

  lemma ExtendsBoth(a: Run, b: Run, c: Run)
    requires Extends(a, b) && Extends(b, c)
    ensures Extends(a, c)
  {
  }

  lemma NonEmptyReply(head: Head, reply: Reply)
    requires Fits(head, reply)
    ensures EncReply(head, reply) != []
  {
  }

  /** The daemon, at the top of its loop, takes the head at the front of its buffer. */
  lemma TakeHead(run: Run, head: Head, rest: bytes) returns (longer: Run)
    requires run.Valid() && run.Last().daemon == Heading([]) && run.Last().daemonIn == EncHead(head) + rest
    ensures longer.Valid() && Extends(run, longer)
    ensures longer.Last() == run.Last().(daemonIn := rest, daemon := Heading(EncHead(head)))
    ensures ParseHead(EncHead(head)) == Got(head, [])
  {
    var s, h := run.Last(), EncHead(head);
    HeadPrefixFree(head, h, []);
    HeadPrefixFree(head, [], h);
    NonEmptyHead(head);
    hide Run.Valid, EncHead, ParseHead, EncReply, Serves, ParseReply;
    assert h + [] == h && [] + h == h && s.daemonIn[..|h|] == h && s.daemonIn[|h|..] == rest;
    longer := Extend(run, DaemonHead(|h|), s.(daemonIn := rest, daemon := Heading(h)));
  }

  /** The daemon, done with one reply, serves the request at the front of its buffer. */
  lemma ServeNext(run: Run, head: Head, rest: bytes, reply: Reply) returns (longer: Run)
    requires run.Valid() && run.Last().daemon == Replying([]) && run.Last().daemonOut == []
    requires run.Last().daemonIn == EncHead(head) + rest && !head.WriteHandle?
    requires Serves(run.Last().fs, Request(head, []), reply, run.Last().fs) && Fits(head, reply)
    ensures longer.Valid() && Extends(run, longer)
    ensures var s := run.Last();
            longer.Last() == s.(daemonIn := rest, daemon := Replying(EncReply(head, reply)),
                                served := s.served + [Exchanged(Request(head, []), reply)], history := s.history + [s.fs])
  {
    hide Run.Valid, EncHead, ParseHead, EncReply, Serves, ParseReply, Fits;
    var s := run.Last();
    longer := Extend(run, DaemonLoop, s.(daemon := Heading([])));
    longer := TakeHead(longer, head, rest);
    longer := Extend(longer, DaemonServe(reply, s.fs), s.(daemonIn := rest, daemon := Replying(EncReply(head, reply)),
                       served := s.served + [Exchanged(Request(head, []), reply)], history := s.history + [s.fs]));
  }

  lemma NonEmptyHead(head: Head)
    ensures EncHead(head) != []
  {
  }

  /** The state after a refused write has returned: its payload is still in the daemon's hands. */
  function Stranded(payload: bytes): State
    requires |payload| < TWO32
  {
    State(Free, [], [], payload, Replying([]), [], [], [], DEVICE,
          [Exchanged(Request(StrayWrite(payload).head, []), Done(GENERIC_FAILURE))], [DEVICE, DEVICE],
          [Answer(0, StrayWrite(payload), Done(GENERIC_FAILURE))])
  }

  lemma StrayFacts(payload: bytes)
    requires |payload| < TWO32
    ensures var r := StrayWrite(payload);
            && EncRequest(r) == EncHead(r.head) + payload && r.head.WriteHandle? && r.head.dataLen == |payload|
            && !SeekOk(DEVICE, r.head.handle, r.head.offset)
  {
    hide EncHead;
  }

  /** The daemon reads the whole stream ahead. */
  lemma ReadAhead(run: Run) returns (longer: Run)
    requires run.Valid() && run.Last().daemonIn == []
    ensures longer.Valid() && Extends(run, longer)
    ensures longer.Last() == run.Last().(upstream := [], daemonIn := run.Last().upstream)
  {
    hide Run.Valid, EncHead, EncRequest, ParseHead, ParseReply, Serves, SeekOk, Fs.Valid, Collected, EncReply;
    var s := run.Last();
    var e := s.upstream;
    assert e[|e|..] == [] && e[..|e|] == e && [] + e == e;
    longer := Extend(run, DaemonFill(|e|), s.(upstream := [], daemonIn := e));
  }

  /** The daemon reads the whole stream ahead, takes the head, and refuses its seek. */
  lemma DaemonRefuses(run: Run, s: State, payload: bytes) returns (longer: Run)
    requires run.Valid() && 0 < |payload| < TWO32 && s == Start().(lock := Held(0, StrayWrite(payload), [], []))
    requires run.Last() == s.(upstream := EncRequest(StrayWrite(payload)))
    ensures longer.Valid() && Extends(run, longer) && !longer.SeeksSucceed()
    ensures longer.Last() == s.(daemonIn := payload, daemon := Replying([GENERIC_FAILURE]),
                                served := [Exchanged(Request(StrayWrite(payload).head, []), Done(GENERIC_FAILURE))],
                                history := [DEVICE, DEVICE])
  {
    StrayFacts(payload);
    hide Run.Valid, EncHead, EncRequest, ParseHead, SeekOk, Fs.Valid, Run.SeeksSucceed, Extends, StrayWrite;
    var r := StrayWrite(payload);
    var filled := ReadAhead(run);
    var heading := TakeHead(filled, r.head, payload);
    ExtendsBoth(run, filled, heading);
    longer := RefuseSeek(heading, r.head);
    ExtendsBoth(run, heading, longer);
  }

  /** The head is there and its seek fails. */
  lemma RefuseSeek(heading: Run, head: Head) returns (longer: Run)
    requires heading.Valid() && WriteHeadReady(heading.Last()) && ParseHead(heading.Last().daemon.taken).value == head
    requires !SeekOk(heading.Last().fs, head.handle, head.offset) && head.dataLen > 0
    ensures longer.Valid() && Extends(heading, longer) && !longer.SeeksSucceed()
    ensures var s := heading.Last();
            longer.Last() == s.(daemon := Replying([GENERIC_FAILURE]),
                                served := s.served + [Exchanged(Request(head, []), Done(GENERIC_FAILURE))],
                                history := s.history + [s.fs])
  {
    hide Run.Valid, ParseHead, ParseReply, Serves, SeekOk, Fs.Valid, Run.SeeksSucceed, Collected;
    var s := heading.Last();
    longer := Extend(heading, DaemonRefuseSeek(Done(GENERIC_FAILURE)),
      s.(daemon := Replying([GENERIC_FAILURE]),
         served := s.served + [Exchanged(Request(head, []), Done(GENERIC_FAILURE))], history := s.history + [s.fs]));
    FailsAtLast(heading, longer, DaemonRefuseSeek(Done(GENERIC_FAILURE)));
  }

  lemma FailsAtLast(run: Run, longer: Run, step: Step)
    requires run.Valid() && longer.Valid() && Extends(run, longer) && longer.steps == run.steps + [step]
    requires !SeekHypothesis(run.Last(), step)
    ensures !longer.SeeksSucceed()
  {
    hide Next, Init, SeekHypothesis;
    var k := |run.steps|;
    assert longer.states[k] == run.Last() && longer.steps[k] == step;
  }

  /** A run outside the hypothesis, for every payload: the lock is free again and the whole payload is
      still waiting to be taken for requests. */
  lemma RefusedWriteStrandsPayload(payload: bytes) returns (run: Run)
    requires 0 < |payload| < TWO32
    ensures run.Valid() && !run.SeeksSucceed()
    ensures run.Last() == Stranded(payload) && !Quiet(Stranded(payload))
  {
    hide Run.Valid, EncRequest, Run.SeeksSucceed, Extends;
    StartValid();
    var r := StrayWrite(payload);
    run := SendAll(Run([Start()], []), 0, r);
    assert [] + EncRequest(r) == EncRequest(r);
    var refused := DaemonRefuses(run, Start().(lock := Held(0, r, [], [])), payload);
    var down := ReplyDown(refused);
    LongerStillFails(refused, down);
    assert [] + [GENERIC_FAILURE] == [GENERIC_FAILURE] && [GENERIC_FAILURE] + [] == [GENERIC_FAILURE];
    run := TakeReply(down, Done(GENERIC_FAILURE), []);
    LongerStillFails(down, run);
  }

  lemma StartValid()
    ensures Run([Start()], []).Valid()
  {
  }

  /** A run that has left the hypothesis, at a moment when the lock is free and nothing is on its way
      down: what the daemon still takes for requests, and what the client will take for replies. */
  ghost predicate Astray(run: Run, daemonIn: bytes, clientIn: bytes, served: seq<Exchanged>, answers: seq<Answer>) {
    && run.Valid() && !run.SeeksSucceed()
    && var s := run.Last();
    && s.lock == Free && s.clientOut == [] && s.daemon == Replying([]) && s.daemonOut == [] && s.downstream == []
    && s.daemonIn == daemonIn && s.clientIn == clientIn && s.fs == DEVICE && s.served == served && s.answers == answers
  }

  lemma StrandedIsAstray(payload: bytes) returns (run: Run)
    requires 0 < |payload| < TWO32
    ensures Astray(run, payload, [], Stranded(payload).served, Stranded(payload).answers)
    ensures forall x :: x in Stranded(payload).served ==> x.request.head.WriteHandle?
  {
    run := RefusedWriteStrandsPayload(payload);
    hide Run.Valid, Run.SeeksSucceed, Quiet, Fs.Valid;
  }

  /** A reply to a request nobody made, already in the client's buffer. */
  lemma StrayReply(run: Run, head: Head, rest: bytes, reply: Reply,
                   clientIn: bytes, served: seq<Exchanged>, answers: seq<Answer>) returns (longer: Run)
    requires Astray(run, EncHead(head) + rest, clientIn, served, answers) && !head.WriteHandle?
    requires Serves(DEVICE, Request(head, []), reply, DEVICE) && Fits(head, reply)
    ensures Astray(longer, rest, clientIn + EncReply(head, reply), served + [Exchanged(Request(head, []), reply)], answers)
  {
    hide Run.Valid, Run.SeeksSucceed, EncHead, EncReply, Serves, Extends, Fs.Valid, Fits;
    var after := ServeNext(run, head, rest, reply);
    LongerStillFails(run, after);
    longer := ReplyDown(after);
    LongerStillFails(after, longer);
  }

  /** A thread sends a request and returns the reply that is already waiting in the client's buffer. */
  lemma Misled(run: Run, thread: nat, r: Request, reply: Reply, rest: bytes,
               daemonIn: bytes, served: seq<Exchanged>, answers: seq<Answer>) returns (longer: Run)
    requires Fits(r.head, reply) && r.Valid()
    requires Astray(run, daemonIn, EncReply(r.head, reply) + rest, served, answers)
    ensures Astray(longer, daemonIn, rest, served, answers + [Answer(thread, r, reply)])
  {
    hide Run.Valid, Run.SeeksSucceed, EncRequest, EncReply, Extends, Fs.Valid, Fits;
    var asked := SendAll(run, thread, r);
    LongerStillFails(run, asked);
    longer := TakeReply(asked, reply, rest);
    LongerStillFails(asked, longer);
  }

  lemma DiskIsServed(d: Reply)
    requires d == Disk(DiskStats(0, 0, 0))
    ensures Serves(DEVICE, Request(GetDiskStats, []), d, DEVICE) && Fits(GetDiskStats, d)
    ensures EncReply(GetDiskStats, d) != [] && EncReply(GetDiskStats, d)[0] == SUCCESS
    ensures EncHead(GetDiskStats) == [14] && 1 < TWO32
  {
    DiskHead();
    hide EncHead, Renamed, CanRename;
    ServedNaming(DEVICE, GetDiskStats, d, DEVICE);
  }

  lemma DiskHead()
    ensures EncHead(GetDiskStats) == [14]
  {
    assert EncFields([], []) == [];
  }

  /** Going on from there: one stranded byte is served as a request nobody made, and a thread that
      closes its handle is told of success by that reply. Its close has not been served, and the
      descriptor of the closed file is still open. */
  lemma StrandedByteMisleads() returns (run: Run)
    ensures run.Valid() && !run.SeeksSucceed() && run.Last().lock == Free
    ensures run.Last().answers == Stranded([14]).answers + [Answer(1, Request(CloseHandle(7), []), Done(SUCCESS))]
    ensures (forall x :: x in run.Last().served ==> !x.request.head.CloseHandle?) && 7 in run.Last().fs.fds
  {
    hide *;
    var d, close := Disk(DiskStats(0, 0, 0)), CloseHandle(7);
    DiskIsServed(d);
    var e := EncReply(GetDiskStats, d);
    StatusReply(close);
    var served, answers := Stranded([14]).served, Stranded([14]).answers;
    run := StrandedIsAstray([14]);
    assert [14] + [] == [14];
    run := StrayReply(run, GetDiskStats, [], d, [], served, answers);
    assert [] + e == [SUCCESS] + e[1..];
    var more := served + [Exchanged(Request(GetDiskStats, []), d)];
    run := Misled(run, 1, Request(close, []), Done(SUCCESS), e[1..], [], more, answers);
    AstrayFacts(run, [], e[1..], more, answers + [Answer(1, Request(close, []), Done(SUCCESS))]);
  }

  lemma StatusReply(head: Head)
    requires head.CloseHandle? || head.RemoveFile? || head.CheckRemoveFile?
    ensures Fits(head, Done(SUCCESS)) && EncReply(head, Done(SUCCESS)) == [SUCCESS] && Request(head, []).Valid()
  {
  }

  /** A payload that reads as two requests about the file. */
  function TwoHeads(): (p: bytes)
    ensures 0 < |p| < TWO32
  {
    Enc1Length(CheckRemoveFile(PATH));
    Enc1Length(StatFile(PATH));
    EncHead(CheckRemoveFile(PATH)) + EncHead(StatFile(PATH))
  }

  lemma Enc1Length(head: Head)
    requires head == CheckRemoveFile(PATH) || head == StatFile(PATH)
    ensures |EncHead(head)| == 7
  {
    var ks, fs := [TEXT], [Chunk(PATH)];
    assert ks[1..] == [] && fs[1..] == [] && EncFields([], []) == [];
  }

  const OLD_STAT := FileStat(0x8000, 0, 0, 0)

  lemma TwoHeadsServed()
    ensures Serves(DEVICE, Request(CheckRemoveFile(PATH), []), Done(SUCCESS), DEVICE)
    ensures Serves(DEVICE, Request(StatFile(PATH), []), Statted(OLD_STAT), DEVICE)
    ensures Fits(StatFile(PATH), Statted(OLD_STAT)) && Request(StatFile(PATH), []).Valid()
    ensures TwoHeads() == EncHead(CheckRemoveFile(PATH)) + EncHead(StatFile(PATH))
  {
    assert PATH[..|PATH|] == PATH && FindLast(PATH, SLASH) == Some(2);
    ServedNaming(DEVICE, CheckRemoveFile(PATH), Done(SUCCESS), DEVICE);
    ServedNaming(DEVICE, StatFile(PATH), Statted(OLD_STAT), DEVICE);
  }

  /** The same with a longer payload: a thread removes the file and is told of success, and a thread
      that then asks for its stat is given one, which the device served before any removal, and
      which the client would keep. */
  lemma StrandedBytesAgeStat() returns (run: Run)
    ensures run.Valid() && !run.SeeksSucceed() && run.Last().lock == Free
    ensures run.Last().answers == Stranded(TwoHeads()).answers +
              [Answer(1, Request(RemoveFile(PATH), []), Done(SUCCESS)), Answer(2, Request(StatFile(PATH), []), Statted(OLD_STAT))]
    ensures forall x :: x in run.Last().served ==> !x.request.head.RemoveFile?
  {
    hide *;
    TwoHeadsServed();
    var check, stat, remove := CheckRemoveFile(PATH), StatFile(PATH), RemoveFile(PATH);
    var found, p := Statted(OLD_STAT), TwoHeads();
    StatusReply(check);
    StatusReply(remove);
    var served, answers := Stranded(p).served, Stranded(p).answers;
    run := StrandedIsAstray(p);
    run := StrayReply(run, check, EncHead(stat), Done(SUCCESS), [], served, answers);
    var once := served + [Exchanged(Request(check, []), Done(SUCCESS))];
    assert EncHead(stat) + [] == EncHead(stat);
    run := StrayReply(run, stat, [], found, [] + [SUCCESS], once, answers);
    var twice, e := once + [Exchanged(Request(stat, []), found)], EncReply(stat, found);
    assert ([] + [SUCCESS]) + e == [SUCCESS] + e && e + [] == e;
    run := Misled(run, 1, Request(remove, []), Done(SUCCESS), e, [], twice, answers);
    var told := answers + [Answer(1, Request(remove, []), Done(SUCCESS))];
    run := Misled(run, 2, Request(stat, []), found, [], [], twice, told);
    AstrayFacts(run, [], [], twice, told + [Answer(2, Request(stat, []), found)]);
  }

  lemma AstrayFacts(run: Run, daemonIn: bytes, clientIn: bytes, served: seq<Exchanged>, answers: seq<Answer>)
    requires Astray(run, daemonIn, clientIn, served, answers)
    ensures run.Valid() && !run.SeeksSucceed() && run.Last().lock == Free
    ensures run.Last().served == served && run.Last().answers == answers && 7 in run.Last().fs.fds
  {
  }

  lemma LongerStillFails(run: Run, longer: Run)
    requires run.Valid() && longer.Valid() && Extends(run, longer) && !run.SeeksSucceed()
    ensures !longer.SeeksSucceed()
  {
    hide Next, Init, SeekHypothesis;
    var i :| 0 <= i < |run.steps| && !SeekHypothesis(run.states[i], run.steps[i]);
    assert longer.states[i] == run.states[i] && longer.steps[i] == run.steps[i];
  }
}
