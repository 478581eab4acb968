/**
 Quotient, remainder and product by a variable divisor.  The three non-linear operations have names,
 so that every other proof can leave them closed.
 */
module Division {

  function Quot(v: nat, p: nat): nat requires p > 0 { v / p }

  function Rem(v: nat, p: nat): (r: nat) requires p > 0 ensures r < p { v % p }

  function Times(q: nat, p: nat): nat { q * p }

  lemma TimesNext(q: nat, p: nat)
    ensures Times(q + 1, p) == Times(q, p) + p
  {
  }

  lemma {:induction false} TimesStep(a: nat, b: nat, p: nat)
    requires a < b
    ensures Times(a, p) + p <= Times(b, p)
  {
    TimesNext(b - 1, p);
    if a < b - 1 {
      TimesStep(a, b - 1, p);
    }
  }

  lemma Split(v: nat, p: nat)
    requires p > 0
    ensures v == Times(Quot(v, p), p) + Rem(v, p)
  {
  }

  /** Quotient and remainder are determined by the decomposition. */
  lemma SplitUnique(q: nat, r: nat, v: nat, p: nat)
    requires r < p && v == Times(q, p) + r
    ensures Quot(v, p) == q && Rem(v, p) == r
  {
    Split(v, p);
    var q' := Quot(v, p);
    hide Times, Quot, Rem;
    if q' < q {
      TimesStep(q', q, p);
    } else if q < q' {
      TimesStep(q, q', p);
    }
  }

  lemma QuotMonotone(a: nat, b: nat, p: nat)
    requires p > 0 && a <= b
    ensures Quot(a, p) <= Quot(b, p)
  {
    Split(a, p);
    Split(b, p);
    hide Times, Quot, Rem;
    if Quot(a, p) > Quot(b, p) {
      TimesStep(Quot(b, p), Quot(a, p), p);
    }
  }

  lemma TimesInjective(a: nat, b: nat, p: nat)
    requires p > 0 && Times(a, p) == Times(b, p)
    ensures a == b
  {
    if a < b { TimesStep(a, b, p); }
    if b < a { TimesStep(b, a, p); }
  }
}
