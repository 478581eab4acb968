/**
 Runs of consecutive physical addresses, and run-length encoding of a list of addresses.
 */
module Runs {

  lemma InitLast<T>(s: seq<T>)
    requires s != []
    ensures s == s[..|s| - 1] + [s[|s| - 1]]
  {
  }

  lemma Regroup<T>(a: seq<T>, b: seq<T>, c: seq<T>)
    ensures a + (b + c) == (a + b) + c
  {
  }

  /** `len` bytes starting at physical address `addr`. */
  datatype Run = Run(addr: int, len: nat)

  function Bytes(r: Run): (a: seq<int>) { seq(r.len, (k: nat) => r.addr + k) }

  lemma BytesGrow(r: Run)
    ensures Bytes(Run(r.addr, r.len + 1)) == Bytes(r) + [r.addr + r.len]
    ensures r.len == 0 ==> Bytes(r) == []
  {
  }

  function Flat(rs: seq<Run>): seq<int> {
    if rs == [] then [] else Flat(rs[..|rs| - 1]) + Bytes(rs[|rs| - 1])
  }

  function Total(rs: seq<Run>): nat {
    if rs == [] then 0 else Total(rs[..|rs| - 1]) + rs[|rs| - 1].len
  }

  lemma FlatLength(rs: seq<Run>)
    ensures |Flat(rs)| == Total(rs)
  {
  }

  lemma FlatAppend(rs: seq<Run>, r: Run)
    ensures Flat(rs + [r]) == Flat(rs) + Bytes(r)
    ensures Total(rs + [r]) == Total(rs) + r.len
  {
    assert (rs + [r])[..|rs|] == rs;
  }

  ghost predicate Positive(rs: seq<Run>) { forall i :: 0 <= i < |rs| ==> rs[i].len > 0 }

  /** No run continues physically where the one before it stops. */
  ghost predicate Separated(rs: seq<Run>) {
    forall i, j {:trigger rs[i], rs[j]} :: 0 <= i && j == i + 1 && j < |rs| ==> rs[i].addr + rs[i].len != rs[j].addr
  }

  /** One more address: the last run grows when the address is the next one, otherwise a run starts. */
  function Push(rs: seq<Run>, x: int): seq<Run> {
    if rs != [] && rs[|rs| - 1].addr + rs[|rs| - 1].len == x then
      rs[..|rs| - 1] + [rs[|rs| - 1].(len := rs[|rs| - 1].len + 1)]
    else
      rs + [Run(x, 1)]
  }

  lemma PushFlat(rs: seq<Run>, x: int)
    ensures Flat(Push(rs, x)) == Flat(rs) + [x]
  {
    if rs != [] && rs[|rs| - 1].addr + rs[|rs| - 1].len == x {
      var init, end := rs[..|rs| - 1], rs[|rs| - 1];
      FlatAppend(init, end.(len := end.len + 1));
      assert Bytes(end.(len := end.len + 1)) == Bytes(end) + [x];
    } else {
      FlatAppend(rs, Run(x, 1));
      assert Bytes(Run(x, 1)) == [x];
    }
  }

  lemma PushKeeps(rs: seq<Run>, x: int)
    requires Positive(rs) && Separated(rs)
    ensures Positive(Push(rs, x)) && Separated(Push(rs, x))
  {
  }

  /** Run-length encoding of a list of addresses. */
  function MaxRuns(a: seq<int>): seq<Run> {
    if a == [] then [] else Push(MaxRuns(a[..|a| - 1]), a[|a| - 1])
  }

  /** The encoding loses nothing. */
  lemma {:induction false} MaxRunsFlat(a: seq<int>)
    ensures Flat(MaxRuns(a)) == a && Positive(MaxRuns(a)) && Separated(MaxRuns(a))
  {
    if a != [] {
      hide Push, Positive, Separated;
      MaxRunsFlat(a[..|a| - 1]);
      PushFlat(MaxRuns(a[..|a| - 1]), a[|a| - 1]);
      PushKeeps(MaxRuns(a[..|a| - 1]), a[|a| - 1]);
      InitLast(a);
    }
  }

  predicate EndsAt(rs: seq<Run>, x: int) {
    rs != [] && rs[|rs| - 1].addr + rs[|rs| - 1].len == x
  }

  /** Visiting a whole run adds one run at most, and exactly that run where it does not continue the last one. */
  lemma {:induction false} MaxRunsAppend(a: seq<int>, r: Run)
    requires r.len > 0
    ensures var rs := MaxRuns(a + Bytes(r));
            && EndsAt(rs, r.addr + r.len)
            && |rs| <= |MaxRuns(a)| + 1
            && (!EndsAt(MaxRuns(a), r.addr) ==> rs == MaxRuns(a) + [r])
    decreases r.len
  {
    var less := Run(r.addr, r.len - 1);
    BytesGrow(less);
    var b := a + Bytes(less);
    assert a + Bytes(r) == b + [less.addr + less.len];
    MaxRunsStep(b, less.addr + less.len);
    if less.len == 0 {
      assert b == a;
    } else {
      MaxRunsAppend(a, less);
    }
  }

  lemma MaxRunsStep(b: seq<int>, x: int)
    ensures MaxRuns(b + [x]) == Push(MaxRuns(b), x)
  {
    assert (b + [x])[..|b|] == b;
  }

  /** Positive, separated runs are the encoding of what they visit: the cutting loops are judged by this. */
  lemma {:induction false} MaxRunsUnique(rs: seq<Run>)
    requires Positive(rs) && Separated(rs)
    ensures MaxRuns(Flat(rs)) == rs
  {
    if rs != [] {
      MaxRunsUnique(rs[..|rs| - 1]);
      MaxRunsAppend(Flat(rs[..|rs| - 1]), rs[|rs| - 1]);
      InitLast(rs);
    }
  }

  /** No other way of tiling the same bytes uses fewer runs. */
  lemma {:induction false} MaxRunsFewest(rs: seq<Run>)
    ensures |MaxRuns(Flat(rs))| <= |rs|
  {
    if rs != [] {
      MaxRunsFewest(rs[..|rs| - 1]);
      if rs[|rs| - 1].len > 0 {
        MaxRunsAppend(Flat(rs[..|rs| - 1]), rs[|rs| - 1]);
      } else {
        assert Flat(rs) == Flat(rs[..|rs| - 1]);
      }
    }
  }

  ghost predicate Distinct<T>(a: seq<T>) {
    forall i, j :: 0 <= i < j < |a| ==> a[i] != a[j]
  }

  /** When no address repeats, no two runs start at the same one. */
  lemma {:induction false} DistinctStarts(rs: seq<Run>)
    requires Distinct(Flat(rs)) && Positive(rs)
    ensures forall i, j {:trigger rs[i], rs[j]} :: 0 <= i < j < |rs| ==> rs[i].addr != rs[j].addr
    ensures forall i {:trigger rs[i]} :: 0 <= i < |rs| ==> rs[i].addr in Flat(rs)
  {
    if rs != [] {
      var init, end := rs[..|rs| - 1], rs[|rs| - 1];
      var a, b := Flat(init), Bytes(end);
      assert Distinct(a) by {
        forall i, j | 0 <= i < j < |a| ensures a[i] != a[j] {
          assert (a + b)[i] == a[i] && (a + b)[j] == a[j];
        }
      }
      DistinctStarts(init);
      assert end.addr == (a + b)[|a|];
      forall i | 0 <= i < |init| ensures rs[i].addr != end.addr && rs[i].addr in Flat(rs) {
        assert rs[i] == init[i];
        var k :| 0 <= k < |a| && a[k] == rs[i].addr;
        assert (a + b)[k] == rs[i].addr;
      }
    }
  }
}
