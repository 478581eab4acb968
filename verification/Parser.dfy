/**
 The descriptor parser as it runs: it cuts its copy of the string into pieces by writing NULs into it,
 and keeps pointers to the pieces and a table of pointers to the options.
 */
module Parser {
  import opened Results
  import opened CStrings
  import opened Division
  import opened Descriptors
  import opened Lookups

  const NUL: char := '\0'

  /** The C string at `p` in the buffer. */
  ghost predicate Holds(b: seq<char>, p: nat, s: string) {
    p + |s| < |b| && b[p..p + |s|] == s && b[p + |s|] == NUL && NUL !in s
  }

  /** Writing elsewhere leaves the string alone. */
  lemma HoldsStill(b: seq<char>, b': seq<char>, p: nat, s: string)
    requires Holds(b, p, s) && |b'| == |b|
    requires forall k :: p <= k <= p + |s| ==> b'[k] == b[k]
    ensures Holds(b', p, s)
  {
    assert b'[p..p + |s|] == b[p..p + |s|];
  }

  /** A NUL written over a character makes two strings of one. */
  lemma HoldsCut(b: seq<char>, p: nat, s: string, i: nat)
    requires Holds(b, p, s) && i < |s|
    ensures Holds(b[p + i := NUL], p, s[..i]) && Holds(b[p + i := NUL], p + i + 1, s[i + 1..])
  {
    var b' := b[p + i := NUL];
    assert b'[p..p + i] == b[p..p + |s|][..i];
    assert b'[p + i + 1..p + |s|] == b[p..p + |s|][i + 1..];
    assert forall c :: c in s[..i] || c in s[i + 1..] ==> c in s;
  }

  lemma HoldsAt(b: seq<char>, p: nat, s: string, i: nat)
    requires Holds(b, p, s) && i <= |s|
    ensures p + |s| < |b|
    ensures i < |s| ==> b[p + i] == s[i] && b[p + i] != NUL
    ensures i == |s| ==> b[p + i] == NUL
    ensures Holds(b, p + i, s[i..])
  {
    assert i < |s| ==> b[p + i] == b[p..p + |s|][i] && s[i] in s;
    assert b[p + i..p + |s|] == s[i..];
    assert forall c :: c in s[i..] ==> c in s;
  }

  /** Only the string of length `n` at `p` was written to. */
  ghost predicate SameOutside(b: seq<char>, b': seq<char>, p: nat, n: nat) {
    |b'| == |b| && forall k :: 0 <= k < |b| && !(p <= k < p + n) ==> b'[k] == b[k]
  }

  lemma SameOutsideBoth(b: seq<char>, b': seq<char>, b'': seq<char>, p: nat, n: nat, q: nat, m: nat)
    requires SameOutside(b, b', p, n) && SameOutside(b', b'', q, m) && p <= q && q + m <= p + n
    ensures SameOutside(b, b'', p, n)
  {
  }

  /** A string that ends before what was written to, or starts behind it. */
  lemma HoldsBeside(b: seq<char>, b': seq<char>, p: nat, n: nat, q: nat, s: string)
    requires SameOutside(b, b', p, n) && Holds(b, q, s) && (q + |s| < p || p + n <= q)
    ensures Holds(b', q, s)
  {
    HoldsStill(b, b', q, s);
  }

  /** strchr, on a string that is there. */
  method StrChr(buf: array<char>, p: nat, c: char, ghost s: string) returns (r: Option<nat>)
    requires Holds(buf[..], p, s) && c != NUL
    ensures var i := IndexOf(s, c); r == if i < |s| then Some(p + i) else None
  {
    var i := 0;
    HoldsAt(buf[..], p, s, 0);
    while buf[p + i] != NUL && buf[p + i] != c
      invariant i <= |s| && c !in s[..i] && p + |s| < buf.Length
      invariant i < |s| ==> buf[p + i] == s[i] && buf[p + i] != NUL
      invariant i == |s| ==> buf[p + i] == NUL
      decreases |s| - i
    {
      assert s[..i + 1] == s[..i] + [s[i]];
      i := i + 1;
      HoldsAt(buf[..], p, s, i);
    }
    IndexIs(s, c, i);
    r := if buf[p + i] == c then Some(p + i) else None;
  }

  lemma IndexIs(s: string, c: char, i: nat)
    requires i <= |s| && c !in s[..i] && (i < |s| ==> s[i] == c)
    ensures IndexOf(s, c) == i
  {
    if i < |s| {
      IndexAt(s[..i], c, s[i + 1..]);
      assert s == s[..i] + [c] + s[i + 1..];
    } else {
      assert s[..i] == s;
      IndexNone(s, c);
    }
  }

  /** name_remainder: cut at the first `c`; the pointer to what follows it, or NULL. */
  method NameRemainder(buf: array<char>, name: Option<nat>, c: char, ghost s: string) returns (r: Option<nat>)
    requires c != NUL && (name.Some? ==> Holds(buf[..], name.value, s))
    modifies buf
    ensures name.None? ==> r.None? && buf[..] == old(buf[..])
    ensures name.Some? ==>
      var (a, b) := Cut(s, c);
      && Holds(buf[..], name.value, a) && SameOutside(old(buf[..]), buf[..], name.value, |s|)
      && r == (if b.Some? then Some(name.value + |a| + 1) else None)
      && (b.Some? ==> Holds(buf[..], name.value + |a| + 1, b.value))
  {
    if name.None? {
      return None;
    }
    var p := StrChr(buf, name.value, c, s);
    if p.None? {
      return None;
    }
    ghost var b := buf[..];
    HoldsCut(b, name.value, s, IndexOf(s, c));
    buf[p.value] := NUL;
    assert buf[..] == b[p.value := NUL];
    r := Some(p.value + 1);
  }

  /** Whether `pat` is at `p`. */
  method StartsWith(buf: array<char>, p: nat, pat: string, ghost s: string) returns (r: bool)
    requires Holds(buf[..], p, s) && NUL !in pat
    ensures r <==> pat <= s
  {
    var i := 0;
    HoldsAt(buf[..], p, s, 0);
    while i < |pat|
      invariant i <= |pat| && i <= |s| && pat[..i] == s[..i]
      invariant i < |s| ==> buf[p + i] == s[i] && buf[p + i] != NUL
      invariant i == |s| ==> buf[p + i] == NUL
    {
      if buf[p + i] != pat[i] {
        return false;
      }
      assert pat[i] in pat;
      i := i + 1;
      HoldsAt(buf[..], p, s, i);
    }
    r := true;
  }

  /** strstr, on a string that is there. */
  method StrStr(buf: array<char>, p: nat, pat: string, ghost s: string) returns (r: Option<nat>)
    requires Holds(buf[..], p, s) && NUL !in pat
    ensures r == if Search(s, pat).Some? then Some(p + Search(s, pat).value) else None
  {
    hide Holds, Search;
    var i := 0;
    while true
      invariant i <= |s| && forall k :: 0 <= k < i ==> !(pat <= s[k..])
      decreases |s| - i
    {
      HoldsAt(buf[..], p, s, i);
      var here := StartsWith(buf, p + i, pat, s[i..]);
      if here {
        SearchIs(s, pat, i);
        return Some(p + i);
      }
      if buf[p + i] == NUL {
        SearchNone(s, pat);
        return None;
      }
      i := i + 1;
    }
  }

  lemma SearchIs(s: string, pat: string, i: nat)
    requires i <= |s| && pat <= s[i..] && forall k :: 0 <= k < i ==> !(pat <= s[k..])
    ensures Search(s, pat) == Some(i)
  {
  }

  lemma SearchNone(s: string, pat: string)
    requires forall k :: 0 <= k <= |s| ==> !(pat <= s[k..])
    ensures Search(s, pat) == None
  {
  }

  // ---- The name and the range -----------------------------------------------------------------------------------

  /** A string cut at its first dot: the pointers to both parts. */
  ghost predicate DotCut(b: seq<char>, name: nat, location: Option<nat>, s: string) {
    var (n, l) := Cut(s, '.');
    && Holds(b, name, n)
    && location == (if l.Some? then Some(name + |n| + 1) else None)
    && (l.Some? ==> Holds(b, name + |n| + 1, l.value))
  }

  lemma DotCutFacts(b: seq<char>, name: nat, location: Option<nat>, s: string)
    requires DotCut(b, name, location, s)
    ensures var (n, l) := Cut(s, '.');
            && name < |b| && (b[name] == NUL <==> n == "") && l.Some? == location.Some?
            && (l.Some? ==> location.value + |l.value| == name + |s| && |l.value| < |s| && Holds(b, location.value, l.value))
            && SplitName(s) == if n == "" && l.Some? then SplitName(l.value) else (n, l)
  {
    hide Holds, Cut, SplitName;
    HoldsAt(b, name, Cut(s, '.').0, 0);
    CutLength(s, '.');
    SplitNameOnce(s);
  }

  lemma SplitNameOnce(s: string)
    ensures var (n, l) := Cut(s, '.'); SplitName(s) == if n == "" && l.Some? then SplitName(l.value) else (n, l)
  {
  }

  method CutDot(buf: array<char>, name: nat, ghost s: string) returns (location: Option<nat>)
    requires Holds(buf[..], name, s)
    modifies buf
    ensures SameOutside(old(buf[..]), buf[..], name, |s|) && DotCut(buf[..], name, location, s)
  {
    location := NameRemainder(buf, Some(name), '.', s);
  }

  /** The name and the location, leading dots skipped; `tried` is what the last try cut. */
  method SplitNameAt(buf: array<char>, p: nat, ghost s: string)
    returns (name: nat, location: Option<nat>, ghost tried: string)
    requires Holds(buf[..], p, s)
    modifies buf
    ensures SameOutside(old(buf[..]), buf[..], p, |s|)
    ensures p <= name && name + |tried| == p + |s| && DotCut(buf[..], name, location, tried)
    ensures Cut(tried, '.') == SplitName(s)
  {
    hide Holds, Cut, SplitName, SameOutside, DotCut;
    name := p;
    location := CutDot(buf, name, s);
    tried := s;
    DotCutFacts(buf[..], name, location, tried);
    while buf[name] == NUL && location.Some?
      invariant p <= name < buf.Length && name + |tried| == p + |s| && SplitName(tried) == SplitName(s)
      invariant SameOutside(old(buf[..]), buf[..], p, |s|) && DotCut(buf[..], name, location, tried)
      decreases |tried|
    {
      ghost var b := buf[..];
      DotCutFacts(b, name, location, tried);
      tried := Cut(tried, '.').1.value;
      name := location.value;
      location := CutDot(buf, name, tried);
      SameOutsideBoth(old(buf[..]), b, buf[..], p, |s|, name, |tried|);
      DotCutFacts(buf[..], name, location, tried);
    }
    DotCutFacts(buf[..], name, location, tried);
  }

  lemma CutLength(s: string, c: char)
    ensures var (a, b) := Cut(s, c); |a| + (if b.Some? then 1 + |b.value| else 0) == |s|
  {
  }

  /** The offset and the extent after the name or location at `p`. */
  method SplitRangeAt(buf: array<char>, p: nat, ghost s: string) returns (offset: Option<nat>, extent: Option<nat>)
    requires Holds(buf[..], p, s)
    modifies buf
    ensures SameOutside(old(buf[..]), buf[..], p, |s|)
    ensures var (left, off, ext) := SplitRange(s);
            && Holds(buf[..], p, left) && |left| <= |s|
            && HoldsIn(buf[..], offset, off, p, |s|) && HoldsIn(buf[..], extent, ext, p, |s|)
  {
    hide Holds, Cut, SameOutside;
    var colon := NameRemainder(buf, Some(p), ':', s);
    ghost var (s1, ext) := Cut(s, ':');
    ghost var b1 := buf[..];
    CutLength(s, ':');
    var hash := NameRemainder(buf, Some(p), '#', s1);
    ghost var (s2, off) := Cut(s1, '#');
    CutLength(s1, '#');
    if ext.Some? {
      HoldsBeside(b1, buf[..], p, |s1|, p + |s1| + 1, ext.value);
    }
    ghost var b2 := buf[..];
    SameOutsideBoth(old(buf[..]), b1, b2, p, |s|, p, |s1|);
    offset, extent := SecondChance(buf, p, s2, hash, colon, off, ext, s);
    SameOutsideBoth(old(buf[..]), b2, buf[..], p, |s|, p, |s|);
  }

  /** The offset or the extent may still hide behind the other. */
  method SecondChance(buf: array<char>, p: nat, ghost left: string, hash: Option<nat>, colon: Option<nat>,
                      ghost off: Option<string>, ghost ext: Option<string>, ghost s: string)
    returns (offset: Option<nat>, extent: Option<nat>)
    requires Holds(buf[..], p, left) && |left| <= |s|
    requires hash.Some? == off.Some? && colon.Some? == ext.Some?
    requires off.Some? ==> p + |left| < hash.value && hash.value + |off.value| <= p + |s| && Holds(buf[..], hash.value, off.value)
    requires ext.Some? ==> p + |left| < colon.value && colon.value + |ext.value| <= p + |s| && Holds(buf[..], colon.value, ext.value)
    modifies buf
    ensures SameOutside(old(buf[..]), buf[..], p, |s|) && Holds(buf[..], p, left)
    ensures var (off', ext') :=
              if ext.None? && off.Some? then (Some(Cut(off.value, ':').0), Cut(off.value, ':').1)
              else if off.None? && ext.Some? then (Cut(ext.value, '#').1, Some(Cut(ext.value, '#').0))
              else (off, ext);
            && HoldsIn(buf[..], offset, off', p, |s|) && HoldsIn(buf[..], extent, ext', p, |s|)
  {
    hide Holds, Cut;
    offset, extent := hash, colon;
    ghost var b := buf[..];
    HoldsAt(b, p, left, 0);
    if off.Some? { CutLength(off.value, ':'); }
    if ext.Some? { CutLength(ext.value, '#'); }
    if extent == None {
      extent := NameRemainder(buf, offset, ':', off.GetOr(""));
    }
    if offset == None {
      offset := NameRemainder(buf, extent, '#', ext.GetOr(""));
    }
    HoldsStill(b, buf[..], p, left);
  }

  /** A string, if there is one, inside the part of the buffer that starts at `p` and has length `n`. */
  ghost predicate HoldsIn(b: seq<char>, at: Option<nat>, s: Option<string>, p: nat, n: nat) {
    at.Some? == s.Some? && (s.Some? ==> p <= at.value && at.value + |s.value| <= p + n && Holds(b, at.value, s.value))
  }

  lemma HoldsInBeside(b: seq<char>, b': seq<char>, at: Option<nat>, s: Option<string>, p: nat, n: nat, q: nat, m: nat)
    requires HoldsIn(b, at, s, p, n) && SameOutside(b, b', q, m) && p + n < q
    ensures HoldsIn(b', at, s, p, n)
  {
    hide Holds, SameOutside;
    if s.Some? {
      HoldsBeside(b, b', q, m, at.value, s.value);
    }
  }

  lemma StringOf(b: seq<char>, at: Option<nat>, s: Option<string>, p: nat, n: nat)
    requires HoldsIn(b, at, s, p, n)
    ensures at.Some? == s.Some? && (s.Some? ==> Holds(b, at.value, s.value))
  {
  }

  /** The four pieces of an address. */
  method SplitAddressAt(buf: array<char>, p: nat, ghost s: string)
    returns (name: nat, location: Option<nat>, offset: Option<nat>, extent: Option<nat>)
    requires Holds(buf[..], p, s)
    modifies buf
    ensures SameOutside(old(buf[..]), buf[..], p, |s|)
    ensures var (n, l, off, ext) := SplitAddress(s);
            && HoldsIn(buf[..], Some(name), Some(n), p, |s|) && HoldsIn(buf[..], location, l, p, |s|)
            && HoldsIn(buf[..], offset, off, p, |s|) && HoldsIn(buf[..], extent, ext, p, |s|)
  {
    hide Holds, Cut, SplitName, SplitRange, SameOutside, DotCut;
    ghost var tried;
    name, location, tried := SplitNameAt(buf, p, s);
    ghost var (n, l) := Cut(tried, '.');
    ghost var b := buf[..];
    DotCutFacts(b, name, location, tried);
    DotCutName(b, name, location, tried);
    if location.Some? {
      offset, extent := SplitRangeAt(buf, location.value, l.value);
      SameOutsideBoth(old(buf[..]), b, buf[..], p, |s|, location.value, |l.value|);
      HoldsBeside(b, buf[..], location.value, |l.value|, name, n);
    } else {
      offset, extent := SplitRangeAt(buf, name, n);
      SameOutsideBoth(old(buf[..]), b, buf[..], p, |s|, name, |n|);
    }
  }

  lemma DotCutName(b: seq<char>, name: nat, location: Option<nat>, s: string)
    requires DotCut(b, name, location, s)
    ensures var (n, l) := Cut(s, '.');
            Holds(b, name, n) && |n| <= |s| && (l.Some? ==> location == Some(name + |n| + 1)) && (l.None? ==> |n| == |s|)
  {
    CutLength(s, '.');
  }

  // ---- Options ------------------------------------------------------------------------------------------------------

  /** var(val) is made var=val in place. */
  method FixOptionAt(buf: array<char>, p: nat, ghost s: string)
    requires Holds(buf[..], p, s)
    modifies buf
    ensures SameOutside(old(buf[..]), buf[..], p, |s|)
    ensures |FixOption(s)| <= |s| && Holds(buf[..], p, FixOption(s))
  {
    hide Holds, FixOption, SameOutside;
    HoldsAt(buf[..], p, s, 0);
    FixOptionIs(s);
    var q := StrChr(buf, p, '(', s);
    if q == None {
      Untouched(buf[..], p, |s|);
      return;
    }
    ghost var open := IndexOf(s, '(');
    ghost var t, b := s[open := '='], buf[..];
    buf[q.value] := '=';
    assert buf[..] == b[p + open := '='];
    HoldsOther(b, p, s, open, '=');
    OneWithin(b, p, |s|, open, '=');
    ghost var b2 := buf[..];
    CloseOption(buf, p, t, q.value, open);
    SameOutsideBoth(b, b2, buf[..], p, |s|, p, |s|);
  }

  lemma FixOptionIs(s: string)
    ensures var open := IndexOf(s, '(');
            |FixOption(s)| <= |s| && FixOption(s) == if open == |s| then s else Closed(s[open := '='], open)
  {
  }

  /** The text of an option up to the parenthesis that closes it. */
  function Closed(t: string, open: nat): string
    requires open <= |t|
  {
    t[..open] + Cut(t[open..], ')').0
  }

  lemma ClosedIs(t: string, open: nat)
    requires open <= |t|
    ensures open + IndexOf(t[open..], ')') <= |t| && Closed(t, open) == t[..open + IndexOf(t[open..], ')')]
  {
    var close := IndexOf(t[open..], ')');
    assert t[..open] + t[open..] == t;
    assert t[..open + close] == t[..open] + t[open..][..close];
  }

  method CloseOption(buf: array<char>, p: nat, ghost t: string, q: nat, ghost open: nat)
    requires Holds(buf[..], p, t) && open < |t| && q == p + open
    modifies buf
    ensures SameOutside(old(buf[..]), buf[..], p, |t|)
    ensures Holds(buf[..], p, Closed(t, open))
  {
    hide Holds, SameOutside, Closed;
    HoldsAt(buf[..], p, t, open);
    var q2 := StrChr(buf, q, ')', t[open..]);
    ghost var close, b := IndexOf(t[open..], ')'), buf[..];
    ClosedIs(t, open);
    if q2.Some? {
      buf[q2.value] := NUL;
      assert buf[..] == b[p + (open + close) := NUL];
      HoldsCut(b, p, t, open + close);
      OneWithin(b, p, |t|, open + close, NUL);
    } else {
      assert t[..|t|] == t;
      Untouched(b, p, |t|);
    }
  }

  lemma OneWithin(b: seq<char>, p: nat, n: nat, i: nat, c: char)
    requires i < n && p + i < |b|
    ensures SameOutside(b, b[p + i := c], p, n)
  {
  }

  lemma Untouched(b: seq<char>, p: nat, n: nat)
    ensures SameOutside(b, b, p, n)
  {
  }

  /** A character other than NUL written over another. */
  lemma HoldsOther(b: seq<char>, p: nat, s: string, i: nat, c: char)
    requires Holds(b, p, s) && i < |s| && c != NUL
    ensures p + i < |b| && Holds(b[p + i := c], p, s[i := c])
  {
    assert b[p + i := c][p..p + |s|] == s[i := c];
    assert forall x :: x in s[i := c] ==> x == c || x in s;
  }

  // The table of options.

  /** The first `n` entries of the table point at the options, all of them before `end`. */
  ghost predicate Entries(b: seq<char>, table: seq<Option<nat>>, options: seq<string>, start: nat, end: nat) {
    && |options| <= |table|
    && forall i :: 0 <= i < |options| ==>
         table[i].Some? && start <= table[i].value && table[i].value + |options[i]| < end && Holds(b, table[i].value, options[i])
  }

  lemma EntriesStill(b: seq<char>, b': seq<char>, table: seq<Option<nat>>, table': seq<Option<nat>>, options: seq<string>,
                     start: nat, end: nat, p: nat, n: nat, end': nat)
    requires Entries(b, table, options, start, end) && SameOutside(b, b', p, n) && end <= p && end <= end'
    requires |table'| == |table| && table'[..|options|] == table[..|options|]
    ensures Entries(b', table', options, start, end')
  {
    forall i | 0 <= i < |options|
      ensures table'[i].Some? && start <= table'[i].value && table'[i].value + |options[i]| < end' && Holds(b', table'[i].value, options[i])
    {
      assert table'[i] == table'[..|options|][i] == table[i];
      HoldsBeside(b, b', p, n, table[i].value, options[i]);
    }
  }

  lemma EntriesAre(b: seq<char>, table: seq<Option<nat>>, options: seq<string>, start: nat, end: nat)
    requires Entries(b, table, options, start, end)
    ensures |options| <= |table| && forall i :: 0 <= i < |options| ==> table[i].Some? && Holds(b, table[i].value, options[i])
  {
    hide Holds;
  }

  lemma EntriesPush(b: seq<char>, table: seq<Option<nat>>, options: seq<string>, start: nat, end: nat, o: string, end': nat)
    requires Entries(b, table, options, start, end) && |options| < |table| && end <= end'
    requires table[|options|].Some? && start <= table[|options|].value && table[|options|].value + |o| < end'
    requires Holds(b, table[|options|].value, o)
    ensures Entries(b, table, options + [o], start, end')
  {
  }

  /** One option: cut it off at the comma, put the pointer to the rest into the table, and fix its parentheses. */
  method ParseOption(buf: array<char>, query: array<Option<nat>>, i: nat, ghost s: string)
    requires i + 1 < query.Length && query[i].Some? && Holds(buf[..], query[i].value, s)
    modifies buf, query
    ensures query[..] == old(query[..])[i + 1 := query[i + 1]] && query[i] == old(query[i])
    ensures SameOutside(old(buf[..]), buf[..], query[i].value, |s|)
    ensures var (first, rest) := Cut(s, ',');
            && |FixOption(first)| <= |first| && Holds(buf[..], query[i].value, FixOption(first))
            && query[i + 1] == (if rest.Some? then Some(query[i].value + |first| + 1) else None)
            && (rest.Some? ==> Holds(buf[..], query[i].value + |first| + 1, rest.value))
  {
    hide Holds, Cut, SameOutside, FixOption;
    var p := query[i].value;
    ghost var b := buf[..];
    var r := NameRemainder(buf, Some(p), ',', s);
    ghost var (first, rest) := Cut(s, ',');
    CutLength(s, ',');
    query[i + 1] := r;
    ghost var b2 := buf[..];
    FixOptionAt(buf, p, first);
    SameOutsideBoth(b, b2, buf[..], p, |s|, p, |first|);
    if rest.Some? {
      HoldsBeside(b2, buf[..], p, |first|, p + |first| + 1, rest.value);
    }
  }

  lemma DelimitersCut(s: string, c: char)
    requires c == '?' || c == ','
    ensures var (first, rest) := Cut(s, c);
            rest.Some? ==> Delimiters(rest.value) + 1 <= Delimiters(s)
  {
    var i := IndexOf(s, c);
    if i < |s| {
      assert s == s[..i] + ([c] + s[i + 1..]);
      DelimitersOfParts(s[..i], [c] + s[i + 1..]);
      assert ([c] + s[i + 1..])[1..] == s[i + 1..];
    }
  }

  lemma OptionsFrom(s: string)
    ensures var (first, rest) := Cut(s, ',');
            SplitOptions(s) == [FixOption(first)] + if rest.Some? then SplitOptions(rest.value) else []
  {
  }

  lemma OneMoreOption(done: seq<string>, left: string, s: string)
    requires done + SplitOptions(left) == SplitOptions(s)
    ensures var (first, rest) := Cut(left, ','); done + [FixOption(first)] + OptionsLeft(rest) == SplitOptions(s)
  {
    OptionsFrom(left);
    hide Cut, FixOption, SplitOptions;
    var (first, rest) := Cut(left, ',');
    assert done + [FixOption(first)] + OptionsLeft(rest) == done + ([FixOption(first)] + OptionsLeft(rest));
  }

  function OptionsLeft(left: Option<string>): seq<string> { if left.Some? then SplitOptions(left.value) else [] }

  /** Where the loop stands: `done` options are in the table, `left` is the string at the next entry. */
  ghost predicate OptionsSoFar(b: seq<char>, table: seq<Option<nat>>, p: nat, s: string, done: seq<string>, left: Option<string>) {
    var i := |done|;
    && i < |table| && table[i].Some? == left.Some? && done + OptionsLeft(left) == SplitOptions(s)
    && Entries(b, table, done, p, if left.Some? then table[i].value else p + |s| + 1)
    && (left.Some? ==>
          p <= table[i].value && table[i].value + |left.value| == p + |s| && Holds(b, table[i].value, left.value)
          && i + 2 + Delimiters(left.value) <= |table|)
  }

  /** vfi_parse_options: the table is never overrun, and ends up with the options and a NULL. */
  method ParseOptions(buf: array<char>, query: array<Option<nat>>, ghost p: nat, ghost s: string) returns (ghost n: nat)
    requires query.Length >= 2 + Delimiters(s) && query[0] == Some(p) && Holds(buf[..], p, s)
    modifies buf, query
    ensures SameOutside(old(buf[..]), buf[..], p, |s|)
    ensures n == |SplitOptions(s)| < query.Length && query[n] == None
    ensures Entries(buf[..], query[..], SplitOptions(s), p, p + |s| + 1)
  {
    var i := 0;
    ghost var done: seq<string>, left := [], Some(s);
    hide Holds, SameOutside, SplitOptions, OptionsSoFar, Entries, Delimiters;
    Untouched(buf[..], p, |s|);
    OptionsStart(buf[..], query[..], p, s);
    while query[i].Some?
      invariant i == |done| && i < query.Length && left.Some? == query[i].Some?
      invariant OptionsSoFar(buf[..], query[..], p, s, done, left)
      invariant SameOutside(old(buf[..]), buf[..], p, |s|)
      decreases if left.Some? then 1 + |left.value| else 0
    {
      done, left := OptionTurn(buf, query, i, p, s, done, left.value, old(buf[..]));
      i := i + 1;
    }
    n := i;
    OptionsDone(buf[..], query[..], p, s, done, left);
  }

  lemma OptionsStart(b: seq<char>, table: seq<Option<nat>>, p: nat, s: string)
    requires |table| >= 2 + Delimiters(s) && table[0] == Some(p) && Holds(b, p, s)
    ensures OptionsSoFar(b, table, p, s, [], Some(s))
  {
    hide Holds, SplitOptions, Delimiters;
    assert [] + SplitOptions(s) == SplitOptions(s);
  }

  lemma OptionsDone(b: seq<char>, table: seq<Option<nat>>, p: nat, s: string, done: seq<string>, left: Option<string>)
    requires OptionsSoFar(b, table, p, s, done, left) && left.None?
    ensures done == SplitOptions(s) && Entries(b, table, done, p, p + |s| + 1)
  {
    assert done + [] == done;
  }

  /** One turn of the loop. */
  method OptionTurn(buf: array<char>, query: array<Option<nat>>, i: nat, ghost p: nat, ghost s: string,
                    ghost done: seq<string>, ghost left: string, ghost b0: seq<char>)
    returns (ghost done': seq<string>, ghost left': Option<string>)
    requires i == |done| && OptionsSoFar(buf[..], query[..], p, s, done, Some(left)) && SameOutside(b0, buf[..], p, |s|)
    modifies buf, query
    ensures |done'| == i + 1 < query.Length && OptionsSoFar(buf[..], query[..], p, s, done', left')
    ensures left'.Some? == query[i + 1].Some? && SameOutside(b0, buf[..], p, |s|)
    ensures left'.Some? ==> |left'.value| < |left|
  {
    hide Holds, Cut, SameOutside, FixOption, SplitOptions, Entries, Delimiters;
    ghost var b, table, at := buf[..], query[..], query[i].value;
    ghost var (first, rest) := Cut(left, ',');
    DelimitersCut(left, ',');
    CutLength(left, ',');
    OneMoreOption(done, left, s);
    ParseOption(buf, query, i, left);
    done', left' := done + [FixOption(first)], rest;
    ghost var next := if rest.Some? then at + |first| + 1 else p + |s| + 1;
    SameOutsideBoth(b0, b, buf[..], p, |s|, at, |left|);
    EntriesStill(b, buf[..], table, query[..], done, p, at, at, |left|, at);
    EntriesPush(buf[..], query[..], done, p, at, FixOption(first), next);
  }

  // ---- Numbers ------------------------------------------------------------------------------------------------------

  /** Hex digits, up to the first character that is none. */
  method ReadDigits(buf: array<char>, p: nat, limit: nat, ghost s: string) returns (v: nat, end: nat)
    requires limit > 0 && Holds(buf[..], p, s)
    ensures end < buf.Length && ReadHex(s, 0, limit).0 == v && (buf[end] == NUL <==> ReadHex(s, 0, limit).1 == "")
    ensures end + |ReadHex(s, 0, limit).1| == p + |s| && Holds(buf[..], end, ReadHex(s, 0, limit).1)
  {
    hide Holds, Rem;
    end := p;
    v := 0;
    ghost var rest := s;
    HoldsAt(buf[..], p, s, 0);
    while DigitValue(buf[end]).Some?
      invariant Holds(buf[..], end, rest) && end < buf.Length
      invariant if rest == [] then buf[end] == NUL else buf[end] == rest[0] && buf[end] != NUL
      invariant ReadHex(rest, v, limit) == ReadHex(s, 0, limit) && end + |rest| == p + |s|
      decreases |rest|
    {
      v := Rem(v * 16 + DigitValue(buf[end]).value, limit);
      HoldsAt(buf[..], end, rest, 1);
      rest := rest[1..];
      end := end + 1;
      HoldsAt(buf[..], end, rest, 0);
    }
  }

  /** simple_strtoul in base 16, on a string that is there: the value, and where it stopped. */
  method StrToUL(buf: array<char>, p: nat, limit: nat, ghost s: string) returns (v: nat, end: nat)
    requires limit > 0 && Holds(buf[..], p, s)
    ensures end < buf.Length && Strtoul(s, limit).0 == v && (buf[end] == NUL <==> Strtoul(s, limit).1 == "")
    ensures end + |Strtoul(s, limit).1| == p + |s| && Holds(buf[..], end, Strtoul(s, limit).1)
  {
    hide Holds, ReadHex;
    HoldsAt(buf[..], p, s, 0);
    if buf[p] == '0' {
      HoldsAt(buf[..], p, s, 1);
      if buf[p + 1] == 'x' || buf[p + 1] == 'X' {
        HoldsAt(buf[..], p, s, 2);
        v, end := ReadDigits(buf, p + 2, limit, s[2..]);
        return;
      }
    }
    v, end := ReadDigits(buf, p, limit, s);
  }

  /** A number of the descriptor, and whether the build accepts what follows it. */
  method NumberAt(buf: array<char>, at: Option<nat>, t: Target, ghost s: Option<string>) returns (v: nat, ok: bool)
    requires Sane(t) && at.Some? == s.Some? && (s.Some? ==> Holds(buf[..], at.value, s.value))
    ensures (v, ok) == ReadNumber(s, t)
  {
    if at.None? {
      return 0, true;
    }
    hide Holds, Strtoul;
    var end;
    v, end := StrToUL(buf, at.value, t.word, s.value);
    ok := buf[end] == NUL || !t.asserts;
  }

  // ---- The descriptor ----------------------------------------------------------------------------------------------

  /** struct vfi_desc_param: a copy of the string, pointers into it, and the table of options. */
  class DescParam {
    var buf: array<char>
    var query: array<Option<nat>>
    var name: nat
    var location: Option<nat>
    var offset: nat
    var extent: nat

    constructor ()
      ensures fresh(buf) && fresh(query)
    {
      buf := new char[0];
      query := new Option<nat>[0];
      name, location, offset, extent := 0, None, 0, 0;
    }

    /** The fields, and the strings they point at, are those of `d`. */
    ghost predicate Represents(d: Desc)
      reads this, buf, query
    {
      && Holds(buf[..], name, d.name)
      && location.Some? == d.location.Some? && (location.Some? ==> Holds(buf[..], location.value, d.location.value))
      && offset == d.offset && extent == d.extent
      && |d.options| < query.Length && query[|d.options|] == None
      && forall i :: 0 <= i < |d.options| ==> query[i].Some? && Holds(buf[..], query[i].value, d.options[i])
    }

    /** vfi_str_dup: a copy with its NUL, and a table with an entry for each option there can be and one for the end. */
    method StrDup(s: string) returns (ok: bool)
      requires NUL !in s
      modifies this
      ensures ok <==> FitsPage(s)
      ensures ok ==> fresh(buf) && fresh(query) && query.Length == TableSize(s) && Holds(buf[..], 0, s)
    {
      if |s| + 1 > 4096 {
        return false;
      }
      var argc, i := 1, 0;
      while i < |s|
        invariant 0 <= i <= |s| && argc == 1 + Delimiters(s[..i])
      {
        assert s[..i + 1] == s[..i] + [s[i]];
        DelimitersOfParts(s[..i], [s[i]]);
        if s[i] == '?' || s[i] == ',' {
          argc := argc + 1;
        }
        i := i + 1;
      }
      assert s[..|s|] == s;
      var start := ((|s| + 1) / 4 + 1) * 4;
      if start + 4 * argc > 4096 {
        return false;
      }
      buf := new char[start](j => if 0 <= j < |s| then s[j] else NUL);
      query := new Option<nat>[argc](_ => None);
      assert buf[0..|s|] == s;
      ok := true;
    }

    /** vfi_parse_desc: whether the descriptor was accepted; if so, its fields are what the string says. */
    method Parse(s: string, t: Target) returns (ok: bool)
      requires Sane(t) && NUL !in s
      modifies this
      ensures ok <==> ParseCopy(s, t).Ok?
      ensures ok ==> fresh(buf) && fresh(query) && Represents(ParseCopy(s, t).value)
    {
      hide Holds, Cut, SameOutside, SplitAddress, ReadNumber, SplitOptions, AfterScheme, Rem, FitsPage, Entries;
      ok := StrDup(s);
      if !ok {
        return;
      }
      var start := SkipScheme(buf, s);
      SchemeHolds(buf[..], s);
      ok := ParseAt(start, AfterScheme(s), t);
    }

    /** _vfi_parse_desc, from the name on */
    method ParseAt(start: nat, ghost s: string, t: Target) returns (ok: bool)
      requires Sane(t) && Holds(buf[..], start, s) && query.Length >= 1 + Delimiters(s)
      modifies this`name, this`location, this`offset, this`extent, buf, query
      ensures buf == old(buf) && query == old(query)
      ensures ok <==> ParseBody(s, t).Ok?
      ensures ok ==> Represents(ParseBody(s, t).value)
    {
      hide Holds, Cut, SameOutside, SplitAddress, ReadNumber, SplitOptions, Rem, Entries, Delimiters, HoldsIn;
      ghost var (address, options) := Cut(s, '?');
      ghost var (n, l, off, ext) := SplitAddress(address);
      CutLength(s, '?');
      DelimitersCut(s, '?');
      var q := NameRemainder(buf, Some(start), '?', s);
      query[0] := q;
      ghost var b1 := buf[..];
      ok := ParseAddress(start, address, t);
      ghost var b2 := buf[..];
      if q.Some? {
        HoldsBeside(b1, b2, start, |address|, q.value, options.value);
        ghost var count := ParseOptions(buf, query, q.value, options.value);
        HoldsInBeside(b2, buf[..], Some(name), Some(n), start, |address|, q.value, |options.value|);
        HoldsInBeside(b2, buf[..], location, l, start, |address|, q.value, |options.value|);
        EntriesAre(buf[..], query[..], SplitOptions(options.value), q.value, q.value + |options.value| + 1);
      }
      StringOf(buf[..], Some(name), Some(n), start, |address|);
      StringOf(buf[..], location, l, start, |address|);
    }

    /** vfi_get_option: a pointer to the option's value, or to its name and the rest of it. */
    method GetOptionAt(needle: string, ghost d: Desc) returns (r: Option<nat>)
      requires Represents(d) && NUL !in needle
      ensures r.Some? == GetOption(d.options, needle).Some?
      ensures r.Some? ==> Holds(buf[..], r.value, GetOption(d.options, needle).value)
      ensures r.None? <==> forall k :: 0 <= k < |d.options| ==> !Occurs(d.options[k], needle)
      ensures r.Some? ==> exists value :: Holds(buf[..], r.value, value) && Answers(d.options, needle, value)
    {
      hide Holds, Search, IndexOf, Occurs, Answers;
      LookupAnswers(d.options, needle, GetOption(d.options, needle).GetOr(""));
      var i := 0;
      assert d.options[0..] == d.options;
      while query[i].Some?
        invariant 0 <= i <= |d.options| && GetOption(d.options[i..], needle) == GetOption(d.options, needle)
        decreases |d.options| - i
      {
        ghost var o := d.options[i];
        assert d.options[i..][0] == o && d.options[i..][1..] == d.options[i + 1..];
        var found := StrStr(buf, query[i].value, needle, o);
        if found.Some? {
          ghost var rest := o[Search(o, needle).value..];
          HoldsAt(buf[..], query[i].value, o, Search(o, needle).value);
          var eq := StrChr(buf, found.value, '=', rest);
          if eq.Some? {
            HoldsAt(buf[..], found.value, rest, IndexOf(rest, '=') + 1);
            return Some(eq.value + 1);
          }
          return found;
        }
        i := i + 1;
      }
      assert i == |d.options|;
      r := None;
    }

    /** The fields before the options. */
    method ParseAddress(start: nat, ghost s: string, t: Target) returns (ok: bool)
      requires Sane(t) && Holds(buf[..], start, s)
      modifies this`name, this`location, this`offset, this`extent, buf
      ensures SameOutside(old(buf[..]), buf[..], start, |s|)
      ensures var (n, l, off, ext) := SplitAddress(s);
              && HoldsIn(buf[..], Some(name), Some(n), start, |s|) && HoldsIn(buf[..], location, l, start, |s|)
              && extent == Rem(ReadNumber(ext, t).0, U32) && offset == ReadNumber(off, t).0
              && (ok <==> ReadNumber(ext, t).1 && ReadNumber(off, t).1)
    {
      hide Holds, SameOutside, SplitAddress, ReadNumber, Rem;
      ghost var (n, l, off, ext) := SplitAddress(s);
      var soffset, sextent;
      name, location, soffset, sextent := SplitAddressAt(buf, start, s);
      var v, ok1 := NumberAt(buf, sextent, t, ext);
      extent := Rem(v, U32);
      var w, ok2 := NumberAt(buf, soffset, t, off);
      offset := w;
      ok := ok1 && ok2;
    }
  }

  /** What follows the scheme is a string in the buffer too. */
  lemma SchemeHolds(b: seq<char>, s: string)
    requires Holds(b, 0, s)
    ensures Holds(b, if Search(s, "://").Some? then Search(s, "://").value + 3 else 0, AfterScheme(s))
    ensures Delimiters(AfterScheme(s)) <= Delimiters(s)
  {
    var at := Search(s, "://");
    if at.Some? {
      var i := at.value + 3;
      assert "://" <= s[at.value..];
      HoldsAt(b, 0, s, i);
      assert s == s[..i] + s[i..];
      DelimitersOfParts(s[..i], s[i..]);
    }
  }

  // ---- The bind ---------------------------------------------------------------------------------------------------

  /** The characters up to the NUL. */
  method CString(buf: array<char>, p: nat, ghost s: string) returns (r: string)
    requires Holds(buf[..], p, s)
    ensures r == s
  {
    hide Holds;
    var i := 0;
    r := [];
    HoldsAt(buf[..], p, s, 0);
    while buf[p + i] != NUL
      invariant i <= |s| && r == s[..i] && p + |s| < buf.Length
      invariant if i < |s| then buf[p + i] == s[i] && buf[p + i] != NUL else buf[p + i] == NUL
      decreases |s| - i
    {
      r := r + [buf[p + i]];
      assert s[..i + 1] == s[..i] + [s[i]];
      i := i + 1;
      HoldsAt(buf[..], p, s, i);
    }
    assert s[..i] == s;
  }

  /** Whether the parts of the bind that the string has are represented. */
  ghost predicate BindParsed(x: DescParam, d: DescParam, s: DescParam, b: BindDesc)
    reads x, x.buf, x.query, d, d.buf, d.query, s, s.buf, s.query
  {
    && x.Represents(b.xfer)
    && (b.dst.Some? ==> d.Represents(b.dst.value))
    && (b.src.Some? ==> s.Represents(b.src.value))
  }

  /** The three parts of a bind's string. */
  function BindParts(s: string): (string, Option<string>, Option<string>) {
    var scheme := s[..|s| - |AfterScheme(s)|];
    var (x, rest) := Cut(AfterScheme(s), '/');
    if rest.None? then (scheme + x, None, None)
    else
      var (d, src) := Cut(rest.value, '=');
      (scheme + x, Some(d), src)
  }

  lemma BindOfParts(s: string, t: Target)
    requires Sane(t) && FitsPage(s)
    ensures var (x, d, src) := BindParts(s);
            var px := ParseCopy(x, t);
            ParseBind(s, t) ==
              if px.Err? || (d.Some? && ParseCopy(d.value, t).Err?) || (src.Some? && ParseCopy(src.value, t).Err?) then Err(Invalid)
              else Ok(BindDesc(px.value, if d.Some? then Some(ParseCopy(d.value, t).value) else None,
                               if src.Some? then Some(ParseCopy(src.value, t).value) else None))
    ensures BindParts(s).1.None? ==> BindParts(s).2.None?
  {
    hide ParseCopy, FitsPage, AfterScheme, Cut;
  }

  /** The string before a cut in its tail. */
  lemma FrontHolds(b: seq<char>, b': seq<char>, text: string, start: nat, x: string)
    requires Holds(b, 0, text) && start <= |text| && SameOutside(b, b', start, |text| - start)
    requires Holds(b', start, x) && |x| <= |text| - start
    ensures Holds(b', 0, text[..start] + x)
  {
    assert b'[..start] == b[..start] == b[0..|text|][..start] == text[..start];
    assert b'[0..start + |x|] == b'[..start] + b'[start..start + |x|];
    assert forall c :: c in text[..start] ==> c in text;
  }

  /** The pointer past "://", or to the start. */
  method SkipScheme(buf: array<char>, ghost text: string) returns (start: nat)
    requires Holds(buf[..], 0, text)
    ensures start == |text| - |AfterScheme(text)| && Holds(buf[..], start, AfterScheme(text))
  {
    hide Holds, Search;
    var scheme := StrStr(buf, 0, "://", text);
    start := if scheme.Some? then scheme.value + 3 else 0;
    SchemeHolds(buf[..], text);
  }

  /** The cuts of vfi_parse_bind. */
  method CutBind(buf: array<char>, ghost text: string) returns (mydst: Option<nat>, mysrc: Option<nat>)
    requires Holds(buf[..], 0, text)
    modifies buf
    ensures var (x, d, s) := BindParts(text);
            && Holds(buf[..], 0, x)
            && mydst.Some? == d.Some? && (d.Some? ==> Holds(buf[..], mydst.value, d.value))
            && mysrc.Some? == s.Some? && (s.Some? ==> Holds(buf[..], mysrc.value, s.value))
  {
    hide Holds, Cut, SameOutside, AfterScheme;
    ghost var body, b0 := AfterScheme(text), buf[..];
    var start := SkipScheme(buf, text);
    mydst := NameRemainder(buf, Some(start), '/', body);
    ghost var (x, rest) := Cut(body, '/');
    CutLength(body, '/');
    FrontHolds(b0, buf[..], text, start, x);
    if mydst.Some? {
      ghost var b1 := buf[..];
      mysrc := NameRemainder(buf, mydst, '=', rest.value);
      HoldsBeside(b1, buf[..], mydst.value, |rest.value|, 0, text[..start] + x);
    } else {
      mysrc := None;
    }
  }

  /** vfi_parse_bind: cut a copy at '/' and '=', and parse source, destination and transfer. */
  method ParseBindInto(x: DescParam, d: DescParam, s: DescParam, text: string, t: Target) returns (ok: bool)
    requires Sane(t) && NUL !in text && x != d && x != s && d != s
    modifies x, d, s
    ensures ok <==> ParseBind(text, t).Ok?
    ensures ok ==> BindParsed(x, d, s, ParseBind(text, t).value)
  {
    hide Holds, Cut, ParseCopy, FitsPage, BindParts, ParseBind;
    var copy := new DescParam();
    ok := copy.StrDup(text);
    if !ok {
      NoMemoryForBind(text, t);
      return;
    }
    BindOfParts(text, t);
    ghost var (px, pd, ps) := BindParts(text);
    var mydst, mysrc := CutBind(copy.buf, text);
    var myxfer := CString(copy.buf, 0, px);
    HoldsFree(copy.buf[..], 0, px);
    if mydst.Some? {
      var dst := CString(copy.buf, mydst.value, pd.value);
      HoldsFree(copy.buf[..], mydst.value, pd.value);
      if mysrc.Some? {
        var src := CString(copy.buf, mysrc.value, ps.value);
        HoldsFree(copy.buf[..], mysrc.value, ps.value);
        ok := s.Parse(src, t);
        if !ok {
          return;
        }
      }
      ok := d.Parse(dst, t);
      if !ok {
        return;
      }
    }
    ok := x.Parse(myxfer, t);
  }

  lemma HoldsFree(b: seq<char>, p: nat, s: string)
    requires Holds(b, p, s)
    ensures NUL !in s
  {
  }

  lemma NoMemoryForBind(s: string, t: Target)
    requires Sane(t) && !FitsPage(s)
    ensures ParseBind(s, t) == Err(NoMemory)
  {
    hide FitsPage;
  }
}
