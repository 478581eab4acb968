/**
 The ready and done protocol of one bind, stepped by every agent that touches it: the two endpoints that
 vote, the doorbells between an endpoint's site and the site of the DMA engine, the threads that queue
 the transfer, the engine, and the completion callback.
 */
module BindProtocol {
  import opened Votes

  /**
   One endpoint of the bind and the messages between it and the transfer site.

   A remote endpoint has its own copy of the bind, whose vote bit is `far`; `halfReady` counts votes cast
   there whose doorbell is not sent yet, `readyFly` and `doneFly` the doorbells in flight, and `signal`
   the done doorbells that cleared `far` but have not reached `complete` yet.
   */
  datatype Endpoint = Endpoint(
    remote: bool, far: bool, halfReady: nat, readyFly: nat, doneFly: nat, signal: nat,
    starts: nat, completes: nat, list: nat, slot: nat)
  {
    /** start_event: a local vote goes straight to the word; a remote one sets the site's own bit first. */
    function Started(): Endpoint {
      if remote then this.(starts := starts + 1, far := true, halfReady := halfReady + 1)
      else this.(starts := starts + 1)
    }

    function ReadySent(): Endpoint
      requires halfReady > 0
    {
      this.(halfReady := halfReady - 1, readyFly := readyFly + 1)
    }

    function ReadyArrived(): Endpoint
      requires readyFly > 0
    {
      this.(readyFly := readyFly - 1)
    }

    /** The transfer is over: complete the local event list, or send the doorbell to the remote one. */
    function DoneSent(): Endpoint {
      if remote then this.(doneFly := doneFly + 1) else this.(completes := completes + 1)
    }

    function DoneArrived(): Endpoint
      requires doneFly > 0
    {
      this.(doneFly := doneFly - 1, far := false, signal := signal + 1)
    }

    function Completed(): Endpoint
      requires signal > 0
    {
      this.(signal := signal - 1, completes := completes + 1)
    }
  }

  /** Where the completion callback of this bind stands; `Rest` when it is not running. */
  datatype Stage = Rest | Taken | Opened | DstCleared | DstSignalled | SrcCleared | SrcSignalled | Requeueing

  /**
   `claims` counts the voters told that the bind is ready that have not queued it yet, `inDma` the copies
   of the bind in the engine's queues and rings. The ghost-like counters at the end record votes that
   reached the word, transfers decided on, and transfers whose completion was handed to the callback.
   */
  datatype Bind = Bind(word: Word, src: Endpoint, dst: Endpoint, claims: nat, inDma: nat, stage: Stage,
                       srcVotes: nat, dstVotes: nat, issued: nat, taken: nat)
  {
    function End(s: Side): Endpoint { if s.Src? then src else dst }

    function WithEnd(s: Side, e: Endpoint): Bind { if s.Src? then this.(src := e) else this.(dst := e) }

    function Votes(s: Side): nat { if s.Src? then srcVotes else dstVotes }

    function WithVote(s: Side): Bind {
      if s.Src? then this.(srcVotes := srcVotes + 1) else this.(dstVotes := dstVotes + 1)
    }
  }

  datatype Action =
    | Vote(s: Side)        // start_event of an endpoint
    | SendReady(s: Side)   // its ready doorbell leaves
    | RecvReady(s: Side)   // and arrives at the transfer site
    | Queue                // a voter queues the ready bind
    | Take                 // the completion thread calls back for a finished transfer
    | Open                 // first vfi_bind_done_pending
    | Clear(s: Side)       // vfi_bind_dst_done, vfi_bind_src_done
    | Signal(s: Side)      // complete(), or the done doorbell leaves
    | Close                // second vfi_bind_done_pending
    | Requeue              // its queue_transfer
    | RecvDone(s: Side)    // the done doorbell arrives and clears the endpoint's own bit
    | Complete(s: Side)    // and completes its event list

  function ClearAt(s: Side): Stage { if s.Dst? then Opened else DstSignalled }

  function SignalAt(s: Side): Stage { if s.Dst? then DstCleared else SrcCleared }

  function Signalled(s: Side): Stage { if s.Dst? then DstSignalled else SrcSignalled }

  /** Whether the action can happen; an endpoint votes only when every earlier start of it has completed. */
  predicate Enabled(b: Bind, a: Action) {
    match a
    case Vote(s) => b.End(s).starts == b.End(s).completes
    case SendReady(s) => b.End(s).halfReady > 0
    case RecvReady(s) => b.End(s).readyFly > 0
    case Queue => b.claims > 0
    case Take => b.inDma > 0 && b.stage.Rest?
    case Open => b.stage.Taken?
    case Clear(s) => b.stage == ClearAt(s)
    case Signal(s) => b.stage == SignalAt(s)
    case Close => b.stage.SrcSignalled?
    case Requeue => b.stage.Requeueing?
    case RecvDone(s) => b.End(s).doneFly > 0
    case Complete(s) => b.End(s).signal > 0
  }

  /** Whether one of the driver's vote assertions fires in the action. */
  predicate Asserts(b: Bind, a: Action) {
    match a
    case Vote(s) => if b.End(s).remote then b.End(s).far else b.word.Bit(s)
    case RecvReady(s) => b.word.Bit(s)
    case Clear(s) => !b.word.Bit(s)
    case RecvDone(s) => !b.End(s).far
    case _ => false
  }

  /** Setting a side's bit at the transfer site; the voter that completes the word will queue the bind. */
  function Voted(b: Bind, s: Side): Bind {
    var v := b.(word := b.word.With(s, true)).WithVote(s);
    if v.word.Ready() then v.(claims := v.claims + 1, issued := v.issued + 1) else v
  }

  /** `window` is false in a driver without the DONE_PEND bit. */
  function Apply(b: Bind, a: Action, window: bool := true): Bind
    requires Enabled(b, a)
  {
    match a
    case Vote(s) =>
      var cast := b.WithEnd(s, b.End(s).Started());
      if b.End(s).remote then cast else Voted(cast, s)
    case SendReady(s) => b.WithEnd(s, b.End(s).ReadySent())
    case RecvReady(s) => Voted(b.WithEnd(s, b.End(s).ReadyArrived()), s)
    case Queue => b.(claims := b.claims - 1, inDma := b.inDma + 1)
    case Take => b.(inDma := b.inDma - 1, taken := b.taken + 1, stage := Taken)
    case Open => b.(word := if window then b.word.Toggled() else b.word, stage := Opened)
    case Clear(s) => b.(word := b.word.With(s, false), stage := SignalAt(s))
    case Signal(s) => b.WithEnd(s, b.End(s).DoneSent()).(stage := Signalled(s))
    case Close =>
      var closed := b.(word := if window then b.word.Toggled() else b.word);
      if window && closed.word.Ready() then closed.(stage := Requeueing, issued := b.issued + 1)
      else closed.(stage := Rest)
    case Requeue => b.(stage := Rest, inDma := b.inDma + 1)
    case RecvDone(s) => b.WithEnd(s, b.End(s).DoneArrived())
    case Complete(s) => b.WithEnd(s, b.End(s).Completed())
  }

  function Fresh(remote: bool, list: nat, slot: nat): Endpoint {
    Endpoint(remote, false, 0, 0, 0, 0, 0, 0, list, slot)
  }

  predicate Initial(b: Bind) {
    && b.src == Fresh(b.src.remote, b.src.list, b.src.slot)
    && b.dst == Fresh(b.dst.remote, b.dst.list, b.dst.slot)
    && b == Bind(Word(false, false, false), b.src, b.dst, 0, 0, Rest, 0, 0, 0, 0)
  }

  // ---- The invariant ----------------------------------------------------------------------------------------

  function One(p: bool): nat { if p then 1 else 0 }

  /** The endpoint has started and its completion has not been signalled. */
  function Outstanding(e: Endpoint): int { e.starts - e.completes }

  /** The side's bit was just cleared and its done not sent yet. */
  predicate Half(stage: Stage, s: Side) { stage == SignalAt(s) }

  /** Everything that stands for a vote of the side, at the transfer site or on its way there or back. */
  function Tokens(e: Endpoint, bit: bool, half: bool): nat {
    e.halfReady + e.readyFly + One(bit) + One(half) + e.doneFly
  }

  /** The side has at most one token, and it is there exactly while the endpoint is outstanding. */
  predicate SideInv(e: Endpoint, bit: bool, half: bool) {
    if e.remote then Tokens(e, bit, half) == One(e.far) && Outstanding(e) == One(e.far) + e.signal <= 1
    else !e.far && e.halfReady == e.readyFly == e.doneFly == e.signal == 0 && Outstanding(e) == Tokens(e, bit, half) <= 1
  }

  /** The side's bit is the one that the transfer being completed used. */
  predicate Spent(stage: Stage, s: Side) {
    stage.Taken? || stage.Opened? || (s.Src? && (stage.DstCleared? || stage.DstSignalled?))
  }

  /** The callback has begun and the side's done is still to be sent. */
  predicate Early(stage: Stage, s: Side) { Spent(stage, s) || stage == SignalAt(s) }

  predicate InWindow(stage: Stage) { !stage.Rest? && !stage.Taken? && !stage.Requeueing? }

  /** No transfer is queued, about to be queued, or in its callback before the votes are closed again. */
  predicate StageInv(b: Bind) {
    && (b.word.pend <==> InWindow(b.stage))
    && b.claims + b.inDma == One(b.stage.Rest? && b.word.Ready())
    && (b.stage.Taken? || b.stage.Requeueing? ==> b.word.Ready())
    && (Spent(b.stage, Src) ==> b.word.src) && (Spent(b.stage, Dst) ==> b.word.dst)
  }

  /** The side's bit is a vote that no transfer decided on so far has used. */
  predicate Unused(w: Word, stage: Stage, s: Side) { w.Bit(s) && !Spent(stage, s) && !w.Ready() }

  /** Votes, transfers decided on and completions of one side are counted against each other. */
  predicate CountInv(e: Endpoint, votes: nat, issued: nat, taken: nat, unused: bool, early: bool) {
    && votes == issued + One(unused)
    && e.starts == votes + e.halfReady + e.readyFly
    && taken == e.completes + One(early) + e.doneFly + e.signal
  }

  /** What holds of one endpoint, given the state of its bit and the counters of its bind. */
  predicate Balanced(e: Endpoint, bit: bool, half: bool, votes: nat, issued: nat, taken: nat, unused: bool, early: bool) {
    SideInv(e, bit, half) && CountInv(e, votes, issued, taken, unused, early)
  }

  predicate EndInv(b: Bind, s: Side) {
    Balanced(b.End(s), b.word.Bit(s), Half(b.stage, s), b.Votes(s), b.issued, b.taken,
             Unused(b.word, b.stage, s), Early(b.stage, s))
  }

  predicate BindInv(b: Bind) {
    && EndInv(b, Src) && EndInv(b, Dst)
    && StageInv(b)
    && b.issued == b.taken + b.claims + b.inDma + One(b.stage.Requeueing?)
  }

  lemma InitialInv(b: Bind)
    requires Initial(b)
    ensures BindInv(b)
  {
  }

  // One endpoint at a time: what each event does to it.

  lemma StartedBalanced(e: Endpoint, bit: bool, half: bool, votes: nat, issued: nat, taken: nat, unused: bool, early: bool)
    requires Balanced(e, bit, half, votes, issued, taken, unused, early) && Outstanding(e) == 0
    requires unused ==> bit
    ensures !e.far && !bit
    ensures e.remote ==> Balanced(e.Started(), bit, half, votes, issued, taken, unused, early)
    ensures !e.remote ==> Balanced(e.Started(), true, half, votes + 1, issued, taken, true, early)
  {
  }

  lemma MovedBalanced(e: Endpoint, bit: bool, half: bool, votes: nat, issued: nat, taken: nat, unused: bool, early: bool)
    requires Balanced(e, bit, half, votes, issued, taken, unused, early)
    ensures e.halfReady > 0 ==> Balanced(e.ReadySent(), bit, half, votes, issued, taken, unused, early)
    ensures e.doneFly > 0 ==> e.far && Balanced(e.DoneArrived(), bit, half, votes, issued, taken, unused, early)
    ensures e.signal > 0 ==> Balanced(e.Completed(), bit, half, votes, issued, taken, unused, early)
  {
  }

  lemma ArrivedBalanced(e: Endpoint, bit: bool, half: bool, votes: nat, issued: nat, taken: nat, unused: bool, early: bool)
    requires Balanced(e, bit, half, votes, issued, taken, unused, early) && e.readyFly > 0
    requires unused ==> bit
    ensures !bit && Balanced(e.ReadyArrived(), true, half, votes + 1, issued, taken, true, early)
  {
  }

  lemma ClearedBalanced(e: Endpoint, votes: nat, issued: nat, taken: nat)
    requires Balanced(e, true, false, votes, issued, taken, false, true)
    ensures Balanced(e, false, true, votes, issued, taken, false, true)
  {
  }

  lemma DoneBalanced(e: Endpoint, bit: bool, votes: nat, issued: nat, taken: nat, unused: bool)
    requires Balanced(e, bit, true, votes, issued, taken, unused, true)
    ensures !bit && Balanced(e.DoneSent(), false, false, votes, issued, taken, unused, false)
  {
  }

  /** The transfer leaves the engine for its callback. */
  lemma TakenBalanced(e: Endpoint, bit: bool, votes: nat, issued: nat, taken: nat, unused: bool)
    requires Balanced(e, bit, false, votes, issued, taken, unused, false)
    ensures Balanced(e, bit, false, votes, issued, taken + 1, unused, true)
  {
  }

  /** A vote that no transfer has used is used by the next one. */
  lemma UsedBalanced(e: Endpoint, bit: bool, half: bool, votes: nat, issued: nat, taken: nat, early: bool)
    requires Balanced(e, bit, half, votes, issued, taken, true, early)
    ensures Balanced(e, bit, half, votes, issued + 1, taken, false, early)
  {
  }

  // The whole bind.

  /** A step that only moves one endpoint's messages. */
  lemma EndpointStep(b: Bind, s: Side, e: Endpoint)
    requires BindInv(b)
    requires Balanced(e, b.word.Bit(s), Half(b.stage, s), b.Votes(s), b.issued, b.taken, Unused(b.word, b.stage, s), Early(b.stage, s))
    ensures BindInv(b.WithEnd(s, e))
  {
    hide Balanced, Unused, Early, Half;
  }

  /** A vote that arrives at the word: it completes the word only outside the completion window. */
  lemma VotedKeepsInv(b: Bind, s: Side, e: Endpoint)
    requires BindInv(b) && !b.word.Bit(s)
    requires Balanced(e, true, Half(b.stage, s), b.Votes(s) + 1, b.issued, b.taken, true, Early(b.stage, s))
    ensures BindInv(Voted(b.WithEnd(s, e), s))
  {
    hide Balanced;
    var v := Voted(b.WithEnd(s, e), s);
    if v.word.Ready() {
      UsedBalanced(e, true, Half(b.stage, s), b.Votes(s) + 1, b.issued, b.taken, Early(b.stage, s));
      var o := b.End(s.Other());
      UsedBalanced(o, true, Half(b.stage, s.Other()), b.Votes(s.Other()), b.issued, b.taken, Early(b.stage, s.Other()));
    }
    assert EndInv(v, s);
    assert EndInv(v, s.Other());
    assert StageInv(v);
  }

  lemma VoteKeepsInv(b: Bind, s: Side)
    requires BindInv(b) && Enabled(b, Vote(s))
    ensures BindInv(Apply(b, Vote(s))) && !Asserts(b, Vote(s))
  {
    var e := b.End(s);
    StartedBalanced(e, b.word.Bit(s), Half(b.stage, s), b.Votes(s), b.issued, b.taken, Unused(b.word, b.stage, s), Early(b.stage, s));
    hide Balanced;
    if e.remote {
      EndpointStep(b, s, e.Started());
    } else {
      VotedKeepsInv(b, s, e.Started());
    }
  }

  lemma MessageKeepsInv(b: Bind, a: Action)
    requires BindInv(b) && Enabled(b, a) && (a.SendReady? || a.RecvDone? || a.Complete?)
    ensures BindInv(Apply(b, a)) && !Asserts(b, a)
  {
    var s, e := a.s, b.End(a.s);
    MovedBalanced(e, b.word.Bit(s), Half(b.stage, s), b.Votes(s), b.issued, b.taken, Unused(b.word, b.stage, s), Early(b.stage, s));
    hide Balanced, BindInv;
    EndpointStep(b, s, if a.SendReady? then e.ReadySent() else if a.RecvDone? then e.DoneArrived() else e.Completed());
  }

  lemma RecvReadyKeepsInv(b: Bind, s: Side)
    requires BindInv(b) && Enabled(b, RecvReady(s))
    ensures BindInv(Apply(b, RecvReady(s))) && !Asserts(b, RecvReady(s))
  {
    var e := b.End(s);
    ArrivedBalanced(e, b.word.Bit(s), Half(b.stage, s), b.Votes(s), b.issued, b.taken, Unused(b.word, b.stage, s), Early(b.stage, s));
    hide Balanced, BindInv;
    VotedKeepsInv(b, s, e.ReadyArrived());
  }

  lemma QueueKeepsInv(b: Bind)
    requires BindInv(b)
    ensures Enabled(b, Queue) ==> BindInv(Apply(b, Queue))
    ensures Enabled(b, Requeue) ==> BindInv(Apply(b, Requeue))
  {
    hide Balanced;
  }

  lemma TakeKeepsInv(b: Bind)
    requires BindInv(b) && Enabled(b, Take)
    ensures BindInv(Apply(b, Take))
  {
    hide Balanced;
    TakenBalanced(b.src, b.word.src, b.srcVotes, b.issued, b.taken, Unused(b.word, b.stage, Src));
    TakenBalanced(b.dst, b.word.dst, b.dstVotes, b.issued, b.taken, Unused(b.word, b.stage, Dst));
  }

  lemma OpenKeepsInv(b: Bind)
    requires BindInv(b) && Enabled(b, Open)
    ensures BindInv(Apply(b, Open))
  {
    hide Balanced;
  }

  lemma ClearKeepsInv(b: Bind, s: Side)
    requires BindInv(b) && Enabled(b, Clear(s))
    ensures BindInv(Apply(b, Clear(s))) && !Asserts(b, Clear(s))
  {
    hide Balanced;
    ClearedBalanced(b.End(s), b.Votes(s), b.issued, b.taken);
    assert EndInv(Apply(b, Clear(s)), s.Other());
  }

  lemma SignalKeepsInv(b: Bind, s: Side)
    requires BindInv(b) && Enabled(b, Signal(s))
    ensures BindInv(Apply(b, Signal(s)))
  {
    hide Balanced;
    DoneBalanced(b.End(s), b.word.Bit(s), b.Votes(s), b.issued, b.taken, Unused(b.word, b.stage, s));
    assert EndInv(Apply(b, Signal(s)), s.Other());
  }

  lemma CloseKeepsInv(b: Bind)
    requires BindInv(b) && Enabled(b, Close)
    ensures BindInv(Apply(b, Close))
  {
    hide Balanced;
    if b.word.src && b.word.dst {
      UsedBalanced(b.src, true, false, b.srcVotes, b.issued, b.taken, false);
      UsedBalanced(b.dst, true, false, b.dstVotes, b.issued, b.taken, false);
    }
  }

  /** Every step keeps the invariant, and no vote assertion fires in it. */
  lemma StepKeepsInv(b: Bind, a: Action)
    requires BindInv(b) && Enabled(b, a)
    ensures BindInv(Apply(b, a)) && !Asserts(b, a)
  {
    hide BindInv, Apply;
    match a {
      case Vote(s) => VoteKeepsInv(b, s);
      case SendReady(s) => MessageKeepsInv(b, a);
      case RecvReady(s) => RecvReadyKeepsInv(b, s);
      case Queue => QueueKeepsInv(b);
      case Take => TakeKeepsInv(b);
      case Open => OpenKeepsInv(b);
      case Clear(s) => ClearKeepsInv(b, s);
      case Signal(s) => SignalKeepsInv(b, s);
      case Close => CloseKeepsInv(b);
      case Requeue => QueueKeepsInv(b);
      case RecvDone(s) => MessageKeepsInv(b, a);
      case Complete(s) => MessageKeepsInv(b, a);
    }
  }

  // ---- Runs -------------------------------------------------------------------------------------------------

  ghost predicate IsRun(b: Bind, acts: seq<Action>, window: bool := true)
    decreases |acts|
  {
    acts == [] || (Enabled(b, acts[0]) && IsRun(Apply(b, acts[0], window), acts[1..], window))
  }

  ghost function Run(b: Bind, acts: seq<Action>, window: bool := true): Bind
    requires IsRun(b, acts, window)
    decreases |acts|
  {
    if acts == [] then b else Run(Apply(b, acts[0], window), acts[1..], window)
  }

  lemma {:induction false} RunKeepsInv(b: Bind, acts: seq<Action>)
    requires BindInv(b) && IsRun(b, acts)
    ensures BindInv(Run(b, acts))
    decreases |acts|
  {
    if acts != [] {
      StepKeepsInv(b, acts[0]);
      hide BindInv, Apply, Enabled;
      RunKeepsInv(Apply(b, acts[0]), acts[1..]);
    }
  }

  /**
   In every interleaving: no vote assertion fires, a ready bind has exactly one transfer claimed, in the
   engine, taken for its callback or about to be queued again, it is never queued a second time meanwhile,
   and transfer number n is decided on only when each side has cast its vote number n.
   */
  lemma EveryRunIsSafe(b: Bind, acts: seq<Action>, a: Action)
    requires Initial(b) && IsRun(b, acts)
    ensures var r := Run(b, acts);
            && (Enabled(r, a) ==> !Asserts(r, a))
            && (r.word.Ready() ==> r.claims + r.inDma + One(r.stage.Taken?) + One(r.stage.Requeueing?) == 1)
            && (r.claims > 0 || r.stage.Requeueing? ==> r.inDma == 0)
            && (r.claims + r.inDma > 0 ==> r.stage.Rest? && r.claims + r.inDma == 1)
            && (forall s: Side :: r.issued <= r.Votes(s) <= r.issued + 1)
            && (r.srcVotes > r.issued && r.dstVotes > r.issued ==> InWindow(r.stage))
  {
    InitialInv(b);
    RunKeepsInv(b, acts);
    var r := Run(b, acts);
    hide IsRun, Run, Initial;
    if Enabled(r, a) {
      StepKeepsInv(r, a);
    }
    hide Asserts, Apply, Enabled;
  }

  /** A remote endpoint's own bit is its one token, wherever that is: at the transfer site or in a doorbell. */
  lemma TokenIsUnique(b: Bind, acts: seq<Action>, s: Side)
    requires Initial(b) && IsRun(b, acts)
    ensures var r := Run(b, acts); var e := r.End(s);
            if e.remote then One(e.far) == e.halfReady + e.readyFly + One(r.word.Bit(s)) + One(Half(r.stage, s)) + e.doneFly
            else One(Outstanding(e) == 1) == One(r.word.Bit(s)) + One(Half(r.stage, s))
  {
    InitialInv(b);
    RunKeepsInv(b, acts);
    var r := Run(b, acts);
    assert EndInv(r, s);
  }

  /** An endpoint is told of its n-th completion only after the n-th transfer, which used its n-th start. */
  lemma CompletionsFollowTransfers(b: Bind, acts: seq<Action>, s: Side)
    requires Initial(b) && IsRun(b, acts)
    ensures var r := Run(b, acts); var e := r.End(s);
            && e.completes <= r.taken <= r.issued <= e.starts <= e.completes + 1
            && (e.starts == e.completes ==> r.taken == r.issued == e.starts)
  {
    InitialInv(b);
    RunKeepsInv(b, acts);
    var r := Run(b, acts);
    assert EndInv(r, s);
  }

  // ---- Why there is a completion window -----------------------------------------------------------------------

  const MIXING := [Vote(Src), Vote(Dst), Queue, Take, Open, Clear(Dst), Signal(Dst), Vote(Dst)]

  lemma ReplayMixing(b: Bind, window: bool)
    requires Initial(b) && !b.src.remote && !b.dst.remote
    ensures IsRun(b, MIXING, window) && Run(b, MIXING, window).issued == (if window then 1 else 2)
    ensures Run(b, MIXING, window).srcVotes == 1
  {
    var b1 := Apply(b, Vote(Src), window);
    var b2 := Apply(b1, Vote(Dst), window);
    var b3 := Apply(b2, Queue, window);
    var b4 := Apply(b3, Take, window);
    var b5 := Apply(b4, Open, window);
    var b6 := Apply(b5, Clear(Dst), window);
    var b7 := Apply(b6, Signal(Dst), window);
    var b8 := Apply(b7, Vote(Dst), window);
    assert b8.issued == (if window then 1 else 2) && b8.srcVotes == 1;
    var m := MIXING;
    assert IsRun(b8, m[8..], window) && Run(b8, m[8..], window) == b8;
  }

  /** Without DONE_PEND a transfer is decided on with a source vote that the one before it already used. */
  lemma WindowKeepsVotesApart(b: Bind)
    requires Initial(b) && !b.src.remote && !b.dst.remote
    ensures IsRun(b, MIXING, false) && Run(b, MIXING, false).issued == 2 && Run(b, MIXING, false).srcVotes == 1
    ensures IsRun(b, MIXING) && Run(b, MIXING).issued == 1
  {
    ReplayMixing(b, false);
    ReplayMixing(b, true);
  }

  // ---- Progress ---------------------------------------------------------------------------------------------

  function Rank(stage: Stage): nat {
    match stage
    case Rest => 0
    case Requeueing => 1
    case SrcSignalled => 2
    case SrcCleared => 3
    case DstSignalled => 4
    case DstCleared => 5
    case Opened => 6
    case Taken => 7
  }

  function Pending(e: Endpoint): nat { 3 * e.halfReady + 2 * e.readyFly + 2 * e.doneFly + e.signal }

  /** Bounds how many steps can happen before the next vote. */
  function Work(b: Bind): int {
    40 * (b.src.starts - b.taken) + 40 * (b.dst.starts - b.taken)
    + b.claims + 4 * Rank(b.stage) + Pending(b.src) + Pending(b.dst)
  }

  /** Every step other than a vote brings the bind nearer to rest. */
  lemma StepsRunOut(b: Bind, a: Action)
    requires BindInv(b) && Enabled(b, a) && !a.Vote?
    ensures 0 <= Work(Apply(b, a)) < Work(b)
  {
    StepKeepsInv(b, a);
    WorkIsNatural(Apply(b, a));
    hide BindInv;
    if a.SendReady? || a.RecvReady? || a.RecvDone? || a.Complete? {
      MessageWork(b, a);
    } else {
      EngineWork(b, a);
    }
  }

  lemma MessageWork(b: Bind, a: Action)
    requires Enabled(b, a) && (a.SendReady? || a.RecvReady? || a.RecvDone? || a.Complete?)
    ensures Work(Apply(b, a)) < Work(b)
  {
    hide Rank;
    match a {
      case SendReady(s) => assert s.Src? || s.Dst?;
      case RecvReady(s) => assert s.Src? || s.Dst?;
      case RecvDone(s) => assert s.Src? || s.Dst?;
      case Complete(s) => assert s.Src? || s.Dst?;
    }
  }

  lemma EngineWork(b: Bind, a: Action)
    requires Enabled(b, a) && !a.Vote? && !a.SendReady? && !a.RecvReady? && !a.RecvDone? && !a.Complete?
    ensures Work(Apply(b, a)) < Work(b)
  {
    match a {
      case Signal(s) => assert s.Src? || s.Dst?;
      case Clear(s) => assert s.Src? || s.Dst?;
      case _ =>
    }
  }

  lemma WorkIsNatural(b: Bind)
    requires BindInv(b)
    ensures Work(b) >= 0
  {
  }

  /** Nothing can happen until an endpoint votes. */
  ghost predicate AtRest(b: Bind) { forall a: Action :: Enabled(b, a) ==> a.Vote? }

  /**
   However a run goes on, once only votes can happen every transfer that both sides have started has been
   made, and both sides have been told.
   */
  lemma RestMeansDone(b: Bind)
    requires BindInv(b) && AtRest(b)
    ensures b.taken == b.src.completes == b.dst.completes == if b.src.starts <= b.dst.starts then b.src.starts else b.dst.starts
  {
    RestIsEmpty(b);
    EndpointAtRest(b, Src);
    EndpointAtRest(b, Dst);
    hide EndInv;
  }

  lemma RestIsEmpty(b: Bind)
    requires AtRest(b)
    ensures b.claims == 0 && b.stage.Rest? && b.inDma == 0
    ensures forall s: Side :: b.End(s).halfReady == b.End(s).readyFly == b.End(s).doneFly == b.End(s).signal == 0
  {
    assert !Enabled(b, Queue) && !Enabled(b, Take) && !Enabled(b, Open) && !Enabled(b, Close) && !Enabled(b, Requeue);
    assert !Enabled(b, Clear(Dst)) && !Enabled(b, Signal(Dst)) && !Enabled(b, Clear(Src)) && !Enabled(b, Signal(Src));
    forall s: Side
      ensures b.End(s).halfReady == b.End(s).readyFly == b.End(s).doneFly == b.End(s).signal == 0
    {
      assert !Enabled(b, SendReady(s)) && !Enabled(b, RecvReady(s)) && !Enabled(b, RecvDone(s)) && !Enabled(b, Complete(s));
    }
  }

  lemma EndpointAtRest(b: Bind, s: Side)
    requires EndInv(b, s) && b.stage.Rest?
    requires b.End(s).halfReady == b.End(s).readyFly == b.End(s).doneFly == b.End(s).signal == 0
    ensures b.taken == b.End(s).completes
    ensures b.End(s).starts == b.issued + One(b.word.Bit(s) && !b.word.Ready())
  {
  }
}
