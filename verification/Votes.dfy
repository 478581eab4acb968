/**
 The vote word of a bind: one bit for each side that is ready, and one that is set while a completion
 is being reported.
 */
module Votes {

  datatype Side = Src | Dst
  {
    function Other(): Side { if Src? then Dst else Src }
  }

  /** The word `ready`: VFI_BIND_SRC_RDY, VFI_BIND_DST_RDY and VFI_BIND_DONE_PEND. */
  datatype Word = Word(src: bool, dst: bool, pend: bool)
  {
    function Bit(s: Side): bool { if s.Src? then src else dst }

    /** The word with side `s` voted ready, or cleared. */
    function With(s: Side, b: bool): Word { if s.Src? then this.(src := b) else this.(dst := b) }

    /** VFI_BIND_RDY: both sides voted and no completion pending. */
    predicate Ready() { src && dst && !pend }

    function Toggled(): Word { this.(pend := !pend) }
  }

  const SRC_RDY: bv8 := 1
  const DST_RDY: bv8 := 2
  const RDY: bv8 := 3
  const DONE_PEND: bv8 := 4

  function Decode(w: bv8): Word { Word(w & SRC_RDY != 0, w & DST_RDY != 0, w & DONE_PEND != 0) }

  function Mask(s: Side): bv8 { if s.Src? then SRC_RDY else DST_RDY }

  /** Whether the word has a value that the driver gives it. */
  predicate Proper(w: bv8) { w < 8 }

  lemma DecodeVoted(w: bv8, s: Side)
    requires Proper(w)
    ensures Proper(w | Mask(s)) && Decode(w | Mask(s)) == Decode(w).With(s, true)
  {
    assert s.Src? ==> w | 1 < 8 && (w | 1) & 1 != 0 && ((w | 1) & 2 == w & 2) && ((w | 1) & 4 == w & 4);
    assert s.Dst? ==> w | 2 < 8 && (w | 2) & 2 != 0 && ((w | 2) & 1 == w & 1) && ((w | 2) & 4 == w & 4);
  }

  lemma DecodeCleared(w: bv8, s: Side)
    requires Proper(w)
    ensures Proper(w & !Mask(s)) && Decode(w & !Mask(s)) == Decode(w).With(s, false)
  {
    assert s.Src? ==> w & 254 < 8 && (w & 254) & 1 == 0 && ((w & 254) & 2 == w & 2) && ((w & 254) & 4 == w & 4);
    assert s.Dst? ==> w & 253 < 8 && (w & 253) & 2 == 0 && ((w & 253) & 1 == w & 1) && ((w & 253) & 4 == w & 4);
  }

  lemma DecodeToggled(w: bv8)
    requires Proper(w)
    ensures Proper(w ^ DONE_PEND) && Decode(w ^ DONE_PEND) == Decode(w).Toggled()
  {
  }

  lemma DecodeReady(w: bv8)
    requires Proper(w)
    ensures w == RDY <==> Decode(w).Ready()
    ensures w == 3 <==> w & 1 != 0 && w & 2 != 0 && w & 4 == 0
    ensures Decode(w) == Word(w & 1 != 0, w & 2 != 0, w & 4 != 0)
  {
  }

  /** The vote word of struct vfi_bind; each method is one critical section of its spinlock. */
  class BindVotes {
    var ready: bv8

    /** The word as each critical section left it. */
    ghost var log: seq<Word>

    ghost function State(): Word
      reads this
    {
      Decode(ready)
    }

    constructor ()
      ensures Proper(ready) && State() == Word(false, false, false) && log == []
    {
      ready := 0;
      log := [];
    }

    /** vfi_bind_src_ready and vfi_bind_dst_ready: vote, and report whether the bind is now ready. */
    method SideReady(s: Side) returns (res: bool, asserted: bool)
      requires Proper(ready)
      modifies this
      ensures Proper(ready) && State() == old(State()).With(s, true) && log == old(log) + [State()]
      ensures res <==> State().Ready()
      ensures asserted <==> old(State()).Bit(s)
    {
      DecodeVoted(ready, s);
      asserted := ready & Mask(s) != 0;
      if ready & Mask(s) == 0 {
        ready := ready | Mask(s);
      }
      DecodeReady(ready);
      res := ready == RDY;
      log := log + [State()];
    }

    /** vfi_bind_src_done and vfi_bind_dst_done */
    method SideDone(s: Side) returns (asserted: bool)
      requires Proper(ready)
      modifies this
      ensures Proper(ready) && State() == old(State()).With(s, false) && log == old(log) + [State()]
      ensures asserted <==> !old(State()).Bit(s)
    {
      DecodeCleared(ready, s);
      asserted := ready & Mask(s) == 0;
      if ready & Mask(s) != 0 {
        ready := ready & !Mask(s);
      }
      log := log + [State()];
    }

    /** vfi_bind_done_pending: open or close the completion window; a bind that is ready then is queued at once. */
    method DonePending() returns (queued: bool)
      requires Proper(ready)
      modifies this
      ensures Proper(ready) && State() == old(State()).Toggled() && log == old(log) + [State()]
      ensures queued <==> State().Ready()
    {
      DecodeToggled(ready);
      ready := ready ^ DONE_PEND;
      DecodeReady(ready);
      queued := ready == RDY;
      log := log + [State()];
    }
  }
}
