/**
 The string functions that descriptors are parsed and printed with: strchr, strstr, simple_strtoul in base
 16, and the %x conversion.
 */
module CStrings {
  import opened Results
  import opened Division

  /** The first position of `c` in `s`, or its length: strchr. */
  function IndexOf(s: string, c: char): (i: nat)
    ensures i <= |s| && (i < |s| ==> s[i] == c) && c !in s[..i]
  {
    if s == [] || s[0] == c then 0
    else
      var i := IndexOf(s[1..], c) + 1;
      assert s[..i] == [s[0]] + s[1..][..i - 1];
      i
  }

  /** The part before the first `c`, and the part after it if there is one. */
  function Cut(s: string, c: char): (string, Option<string>) {
    var i := IndexOf(s, c);
    if i < |s| then (s[..i], Some(s[i + 1..])) else (s, None)
  }

  lemma {:induction false} IndexAt(a: string, c: char, b: string)
    requires c !in a
    ensures IndexOf(a + [c] + b, c) == |a|
  {
    var s := a + [c] + b;
    if a != [] {
      assert a[0] in a && s[0] == a[0];
      IndexAt(a[1..], c, b);
      assert s[1..] == a[1..] + [c] + b;
    }
  }

  lemma {:induction false} IndexNone(s: string, c: char)
    requires c !in s
    ensures IndexOf(s, c) == |s|
  {
    if s != [] {
      assert s[0] in s;
      IndexNone(s[1..], c);
    }
  }

  /** The cut is where the first `c` is. */
  lemma CutAt(a: string, c: char, b: string)
    requires c !in a
    ensures Cut(a + [c] + b, c) == (a, Some(b))
  {
    IndexAt(a, c, b);
    var s := a + [c] + b;
    assert s[..|a|] == a && s[|a| + 1..] == b;
  }

  lemma CutNone(s: string, c: char)
    requires c !in s
    ensures Cut(s, c) == (s, None)
  {
    IndexNone(s, c);
  }

  /** The first position at which `pat` occurs in `s`: strstr. */
  function Search(s: string, pat: string): (r: Option<nat>)
    ensures r.Some? ==> r.value <= |s| && pat <= s[r.value..] && forall k :: 0 <= k < r.value ==> !(pat <= s[k..])
    ensures r.None? ==> forall k :: 0 <= k <= |s| ==> !(pat <= s[k..])
  {
    if pat <= s then assert s[0..] == s; Some(0)
    else if s == [] then None
    else
      var r := Search(s[1..], pat);
      assert forall k :: 0 < k <= |s| ==> s[k..] == s[1..][k - 1..];
      assert s[0..] == s;
      if r.Some? then Some(r.value + 1) else None
  }

  // ---- Numbers ------------------------------------------------------------------------------------------------

  function DigitValue(c: char): Option<nat> {
    if '0' <= c <= '9' then Some((c as int) - ('0' as int))
    else if 'a' <= c <= 'f' then Some((c as int) - ('a' as int) + 10)
    else if 'A' <= c <= 'F' then Some((c as int) - ('A' as int) + 10)
    else None
  }

  /** The hex digits at the front of `s`, read into an unsigned number that wraps at `limit`, and what follows them. */
  function ReadHex(s: string, value: nat, limit: nat): (nat, string)
    requires limit > 0
  {
    if s == [] || DigitValue(s[0]).None? then (value, s)
    else ReadHex(s[1..], Rem(value * 16 + DigitValue(s[0]).value, limit), limit)
  }

  /** simple_strtoul(s, &end, 16): a leading 0x is skipped. */
  function Strtoul(s: string, limit: nat): (nat, string)
    requires limit > 0
  {
    if |s| >= 2 && s[0] == '0' && (s[1] == 'x' || s[1] == 'X') then ReadHex(s[2..], 0, limit) else ReadHex(s, 0, limit)
  }

  function Digit(d: nat): char
    requires d < 16
  {
    if d < 10 then (('0' as int) + d) as char else (('a' as int) + d - 10) as char
  }

  /** The %x conversion. */
  function Hex(n: nat): string {
    if n < 16 then [Digit(n)] else Hex(n / 16) + [Digit(n % 16)]
  }

  predicate IsHexDigit(c: char) { '0' <= c <= '9' || 'a' <= c <= 'f' }

  lemma {:induction false} HexIsDigits(n: nat)
    ensures |Hex(n)| > 0 && forall c :: c in Hex(n) ==> IsHexDigit(c)
  {
    if n >= 16 {
      HexIsDigits(n / 16);
    }
  }

  lemma TimesSum(a: nat, b: nat, p: nat)
    ensures Times(16 * a + b, p) == 16 * Times(a, p) + Times(b, p)
  {
    assert (16 * a + b) * p == 16 * a * p + b * p;
  }

  /** Wrapping before a digit is added makes no difference. */
  lemma WrappedStep(v: nat, d: nat, limit: nat)
    requires limit > 0
    ensures Rem(Rem(v, limit) * 16 + d, limit) == Rem(v * 16 + d, limit)
  {
    var q, r := Quot(v, limit), Rem(v, limit);
    Split(v, limit);
    var x := r * 16 + d;
    Split(x, limit);
    TimesSum(q, Quot(x, limit), limit);
    hide Times, Quot, Rem;
    SplitUnique(16 * q + Quot(x, limit), Rem(x, limit), v * 16 + d, limit);
  }

  lemma RemOfSmall(v: nat, limit: nat)
    requires v < limit
    ensures Rem(v, limit) == v
  {
  }

  /** Reading a printed number: the number modulo the width of the word, and then on with what follows. */
  lemma {:induction false} ReadHexPrinted(n: nat, rest: string, limit: nat)
    requires limit > 0
    ensures ReadHex(Hex(n) + rest, 0, limit) == ReadHex(rest, Rem(n, limit), limit)
  {
    var last := [Digit(n % 16)];
    assert DigitValue(Digit(n % 16)) == Some(n % 16);
    hide Rem, DigitValue, Digit;
    assert (last + rest)[1..] == rest;
    if n >= 16 {
      ReadHexPrinted(n / 16, last + rest, limit);
      assert Hex(n) + rest == Hex(n / 16) + (last + rest);
      WrappedStep(n / 16, n % 16, limit);
    }
  }

  /** A printed number comes back as itself exactly if the word is wide enough for it. */
  lemma StrtoulPrinted(n: nat, limit: nat)
    requires limit > 0
    ensures Strtoul(Hex(n), limit) == (Rem(n, limit), "")
    ensures Strtoul(Hex(n), limit).0 == n <==> n < limit
  {
    HexIsDigits(n);
    ReadHexPrinted(n, "", limit);
    assert Hex(n) + "" == Hex(n);
    if |Hex(n)| >= 2 {
      assert Hex(n)[1] in Hex(n);
    }
    if n < limit {
      RemOfSmall(n, limit);
    }
  }

  // ---- Any number, in either case -------------------------------------------------------------------------------

  const LOWER: string := "0123456789abcdef"
  const UPPER: string := "0123456789ABCDEF"

  predicate IsDigit(c: char, d: nat) { d < 16 && (c == LOWER[d] || c == UPPER[d]) }

  lemma DigitValueIs(c: char, d: nat)
    ensures DigitValue(c) == Some(d) <==> IsDigit(c, d)
  {
  }

  function Power16(n: nat): nat { if n == 0 then 1 else 16 * Power16(n - 1) }

  /** The number that hexadecimal digits stand for, the first one weighing most. */
  function Positional(ds: seq<nat>): nat {
    if ds == [] then 0 else ds[0] * Power16(|ds| - 1) + Positional(ds[1..])
  }

  predicate Spells(s: string, ds: seq<nat>) { |s| == |ds| && forall i :: 0 <= i < |s| ==> IsDigit(s[i], ds[i]) }

  ghost predicate NoDigitFirst(rest: string) { rest != "" ==> forall d :: !IsDigit(rest[0], d) }

  lemma NextWeight(v: nat, d: nat, n: nat)
    requires n > 0
    ensures (v * 16 + d) * Power16(n - 1) == v * Power16(n) + d * Power16(n - 1)
  {
    var w := Power16(n - 1);
    assert Power16(n) == 16 * w;
    assert (v * 16 + d) * w == v * (16 * w) + d * w;
  }

  lemma {:induction false} ReadHexIs(s: string, ds: seq<nat>, rest: string, v: nat, limit: nat)
    requires limit > 0 && Spells(s, ds) && NoDigitFirst(rest)
    ensures ReadHex(s + rest, Rem(v, limit), limit) == (Rem(v * Power16(|ds|) + Positional(ds), limit), rest)
    decreases |s|
  {
    if s == "" {
      assert s + rest == rest;
      if rest != "" && DigitValue(rest[0]).Some? {
        DigitValueIs(rest[0], DigitValue(rest[0]).value);
      }
    } else {
      var d := ds[0];
      DigitValueIs(s[0], d);
      assert (s + rest)[0] == s[0] && (s + rest)[1..] == s[1..] + rest;
      WrappedStep(v, d, limit);
      assert s != "" && (s + rest)[0] == s[0];
      hide Rem, DigitValue, IsDigit, Power16, NoDigitFirst;
      ReadHexIs(s[1..], ds[1..], rest, v * 16 + d, limit);
      NextWeight(v, d, |ds|);
    }
  }

  lemma PrefixSkipped(x: string, s: string, limit: nat)
    requires limit > 0 && (x == "0x" || x == "0X")
    ensures Strtoul(x + s, limit) == ReadHex(s, 0, limit)
  {
    assert (x + s)[2..] == s;
  }

  /**
   The value of every string of hexadecimal digits in either case, with or without 0x in front, is the number
   that they stand for modulo the width of the word, and what follows the digits is left.
   */
  lemma StrtoulIs(s: string, ds: seq<nat>, rest: string, limit: nat)
    requires limit > 0 && Spells(s, ds) && NoDigitFirst(rest)
    ensures forall x :: x == "0x" || x == "0X" ==> Strtoul(x + (s + rest), limit) == (Rem(Positional(ds), limit), rest)
    ensures !("0x" <= s + rest) && !("0X" <= s + rest) ==> Strtoul(s + rest, limit) == (Rem(Positional(ds), limit), rest)
  {
    ReadHexIs(s, ds, rest, 0, limit);
    RemOfSmall(0, limit);
    hide Rem, ReadHex, Positional, Power16, Spells, NoDigitFirst;
    forall x | x == "0x" || x == "0X" ensures Strtoul(x + (s + rest), limit) == (Rem(Positional(ds), limit), rest) {
      PrefixSkipped(x, s + rest, limit);
    }
    NoPrefix(s + rest, limit);
  }

  lemma NoPrefix(t: string, limit: nat)
    requires limit > 0
    ensures !("0x" <= t) && !("0X" <= t) ==> Strtoul(t, limit) == ReadHex(t, 0, limit)
  {
  }
}
