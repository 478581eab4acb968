/**
 What becomes of the status of an interrupt: over every run of the engine, with and without errors, each
 transfer taken off a channel is reported once, as it ended, and the thread learns of it in that order.
 */
module Completions {
  import opened Results
  import opened Scheduler

  datatype Label =
    | Submit(x: nat, c: nat)        // transfer x is queued on channel c
    | Status(c: nat, error: bool)   // channel c interrupts, with or without an error in its status
    | Pick                          // the thread takes a completion
    | Called                        // its callback has returned
    | Return                        // the event goes back to the free ring

  predicate CanDo(d: Dma, l: Label) {
    match l
    case Submit(x, c) => x < |d.lens| && c < |d.chans|
    case Status(c, _) => c < |d.chans|
    case Pick => d.thread.Waiting? && d.out != []
    case Called => d.thread.Handling?
    case Return => d.thread.Returning?
  }

  lemma FirstIsNamed(d: Dma)
    requires Shape(d) && d.out != []
    ensures d.out[0].chan < |d.chans| && d.out[0].x < |d.lens|
  {
    assert Named(d.out[0], |d.lens|, |d.chans|);
  }

  function Do(d: Dma, l: Label): Dma
    requires Shape(d) && CanDo(d, l)
  {
    match l
    case Submit(x, c) => Enqueue(d, x, c)
    case Status(c, error) => Interrupt(d, c, error)
    case Pick => FirstIsNamed(d); Fetch(d)
    case Called => CallbackDone(d)
    case Return => PutBack(d)
  }

  lemma SubmitKeepsShape(d: Dma, x: nat, c: nat)
    requires Shape(d) && CanDo(d, Submit(x, c))
    ensures Shape(Enqueue(d, x, c))
  {
    assert Below(d.chans[c].q, |d.lens|);
    BelowPush(d.chans[c].q, x, |d.lens|);
    hide Below;
  }

  lemma StatusKeepsShape(d: Dma, c: nat, error: bool)
    requires Shape(d) && CanDo(d, Status(c, error))
    ensures Shape(Interrupt(d, c, error))
  {
    var q := d.chans[c].q;
    assert Below(q, |d.lens|);
    if q != [] {
      BelowPop(q, |d.lens|);
    }
    hide Below;
  }

  lemma DoKeepsShape(d: Dma, l: Label)
    requires Shape(d) && CanDo(d, l)
    ensures Shape(Do(d, l))
  {
    hide Below, Named;
    match l {
      case Submit(x, c) => SubmitKeepsShape(d, x, c);
      case Status(c, error) => StatusKeepsShape(d, c, error);
      case Pick => FirstIsNamed(d);
      case _ =>
    }
  }

  // ---- Runs -----------------------------------------------------------------------------------------------

  ghost predicate IsRun(d: Dma, ls: seq<Label>)
    requires Shape(d)
    decreases |ls|
  {
    ls == [] || (CanDo(d, ls[0]) && (DoKeepsShape(d, ls[0]); IsRun(Do(d, ls[0]), ls[1..])))
  }

  ghost function Run(d: Dma, ls: seq<Label>): Dma
    requires Shape(d) && IsRun(d, ls)
    decreases |ls|
  {
    if ls == [] then d else DoKeepsShape(d, ls[0]); Run(Do(d, ls[0]), ls[1..])
  }

  /** How a transfer ended on a channel. */
  datatype Outcome = Outcome(x: nat, chan: nat, ok: bool)

  /** The outcome that a step brings, if it takes a transfer off a channel. */
  function Ended(d: Dma, l: Label): seq<Outcome>
    requires CanDo(d, l)
  {
    if l.Status? && d.chans[l.c].q != [] then [Outcome(d.chans[l.c].q[0], l.c, !l.error)] else []
  }

  /** The outcomes of a run in the order of its interrupts: those that found an unused event, or those that did not. */
  ghost function Outcomes(d: Dma, ls: seq<Label>, reported: bool): seq<Outcome>
    requires Shape(d) && IsRun(d, ls)
    decreases |ls|
  {
    if ls == [] then []
    else
      DoKeepsShape(d, ls[0]);
      (if (d.free != []) == reported then Ended(d, ls[0]) else []) + Outcomes(Do(d, ls[0]), ls[1..], reported)
  }

  function Told(es: seq<Event>): seq<Outcome> {
    seq(|es|, i requires 0 <= i < |es| => Outcome(es[i].x, es[i].chan, es[i].ok))
  }

  lemma ToldPush(es: seq<Event>, e: Event)
    ensures Told(es + [e]) == Told(es) + [Outcome(e.x, e.chan, e.ok)]
  {
  }

  /** A step reports what it ended, and nothing else, and loses it only without an unused event. */
  lemma StepReports(d: Dma, l: Label)
    requires Shape(d) && CanDo(d, l)
    ensures var d', ended := Do(d, l), Ended(d, l);
            && Told(d'.fetched + d'.out) == Told(d.fetched + d.out) + (if d.free != [] then ended else [])
            && Told(d'.lost) == Told(d.lost) + (if d.free == [] then ended else [])
  {
    var d' := Do(d, l);
    match l {
      case Status(c, error) =>
        if d.chans[c].q != [] {
          var e := Event(if d.free == [] then 0 else d.free[0], d.chans[c].q[0], c, !error);
          ToldPush(d.fetched + d.out, e);
          ToldPush(d.lost, e);
          assert d.fetched + (d.out + [e]) == d.fetched + d.out + [e];
        }
      case Pick =>
        FirstIsNamed(d);
        assert d.fetched + [d.out[0]] + d.out[1..] == d.fetched + d.out;
      case _ =>
    }
    hide Told, Shape;
    assert Told(d.lost) + [] == Told(d.lost) && Told(d.fetched + d.out) + [] == Told(d.fetched + d.out);
  }

  lemma {:induction false} RunReports(d: Dma, ls: seq<Label>)
    requires Shape(d) && IsRun(d, ls)
    ensures var r := Run(d, ls);
            && Told(r.fetched + r.out) == Told(d.fetched + d.out) + Outcomes(d, ls, true)
            && Told(r.lost) == Told(d.lost) + Outcomes(d, ls, false)
    decreases |ls|
  {
    hide Shape, Told, Do, CanDo, Ended;
    if ls != [] {
      DoKeepsShape(d, ls[0]);
      StepReports(d, ls[0]);
      RunReports(Do(d, ls[0]), ls[1..]);
    } else {
      assert Told(d.lost) + [] == Told(d.lost) && Told(d.fetched + d.out) + [] == Told(d.fetched + d.out);
    }
  }

  /**
   From boot on, what the thread has been told, and will be told next, is how the transfers ended, in the
   order of their interrupts; and what was lost are the rest, in their order.
   */
  lemma StatusesArriveInOrder(lens: seq<nat>, nchans: nat, nevents: nat, ls: seq<Label>)
    requires IsRun(Boot(lens, nchans, nevents), ls)
    ensures var d := Boot(lens, nchans, nevents); var r := Run(d, ls);
            && Told(r.fetched) + Told(r.out) == Outcomes(d, ls, true)
            && Told(r.lost) == Outcomes(d, ls, false)
  {
    var d := Boot(lens, nchans, nevents);
    RunReports(d, ls);
    var r := Run(d, ls);
    hide Run, IsRun, Outcomes, Shape;
    assert Told(d.lost) == [] && Told(d.fetched + d.out) == [];
    assert Told(r.fetched + r.out) == Told(r.fetched) + Told(r.out);
  }
}
