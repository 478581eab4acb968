/**
 What the parser makes of any string, piece by piece, in terms of where its delimiters are.
 */
module DescriptorShapes {
  import opened Results
  import opened CStrings
  import opened Division
  import opened Descriptors
  import opened DescriptorTheorems

  // ---- Options ----------------------------------------------------------------------------------------------------

  /**
   Every option is one of these: without a parenthesis it stays as it is; var(val) becomes var=val, whatever
   follows its closing parenthesis is dropped, and there need not be one.
   */
  lemma FixOptionIs(name: string, value: string, tail: string)
    requires '(' !in name && ')' !in value
    ensures FixOption(name) == name
    ensures FixOption(name + ['('] + value) == name + "=" + value
    ensures FixOption(name + ['('] + (value + [')'] + tail)) == name + "=" + value
  {
    IndexNone(name, '(');
    FixOpened(name, value, value, "");
    FixOpened(name, value + [')'] + tail, value, tail);
  }

  lemma FixOpened(name: string, rest: string, value: string, tail: string)
    requires '(' !in name && ')' !in value && (rest == value || rest == value + [')'] + tail)
    ensures FixOption(name + ['('] + rest) == name + "=" + value
  {
    var s := name + ['('] + rest;
    IndexAt(name, '(', rest);
    var t := s[|name| := '='];
    assert t[..|name|] == name && t[|name|..] == "=" + rest;
    if rest == value {
      CutNone("=" + value, ')');
    } else {
      assert "=" + rest == ("=" + value) + [')'] + tail;
      CutAt("=" + value, ')', tail);
    }
    hide Cut, IndexOf;
    assert name + ("=" + value) == name + "=" + value;
  }

  function JoinedBy(pieces: seq<string>, c: char): string
    requires pieces != []
  {
    if |pieces| == 1 then pieces[0] else pieces[0] + [c] + JoinedBy(pieces[1..], c)
  }

  function Fixed(pieces: seq<string>): seq<string> { seq(|pieces|, i requires 0 <= i < |pieces| => FixOption(pieces[i])) }

  /** The options are what is between the commas, each fixed, in order. */
  lemma {:induction false} SplitOptionsIs(pieces: seq<string>)
    requires pieces != [] && forall i :: 0 <= i < |pieces| ==> ',' !in pieces[i]
    ensures SplitOptions(JoinedBy(pieces, ',')) == Fixed(pieces)
  {
    hide FixOption, Cut;
    if |pieces| == 1 {
      CutNone(pieces[0], ',');
    } else {
      CutAt(pieces[0], ',', JoinedBy(pieces[1..], ','));
      SplitOptionsIs(pieces[1..]);
    }
  }

  // ---- Addresses -----------------------------------------------------------------------------------------------------

  function Dots(n: nat): string { seq(n, _ => '.') }

  /** Leading dots are skipped, however many; a string of dots is an empty name. */
  lemma {:induction false} SplitNameIs(n: nat, name: string, loc: string)
    requires '.' !in name
    ensures SplitName(Dots(n) + name) == (name, None)
    ensures name != "" ==> SplitName(Dots(n) + (name + ['.'] + loc)) == (name, Some(loc))
    decreases n
  {
    if n == 0 {
      assert Dots(0) + name == name && Dots(0) + (name + ['.'] + loc) == name + ['.'] + loc;
      CutNone(name, '.');
      CutAt(name, '.', loc);
    } else {
      SplitNameIs(n - 1, name, loc);
      SkipDot(n, name);
      SkipDot(n, name + ['.'] + loc);
    }
  }

  lemma SkipDot(n: nat, s: string)
    requires n > 0
    ensures SplitName(Dots(n) + s) == SplitName(Dots(n - 1) + s)
  {
    CutAt("", '.', Dots(n - 1) + s);
    hide Cut;
    assert Dots(n) + s == "" + ['.'] + (Dots(n - 1) + s);
  }

  /** Offset and extent of any string: what matters is which of '#' and ':' comes first, and where the other is next. */
  lemma SplitRangeIs(loc: string, first: string, second: string)
    requires '#' !in loc && ':' !in loc
    ensures SplitRange(loc) == (loc, None, None)
    ensures ':' !in first ==> SplitRange(loc + ['#'] + first) == (loc, Some(first), None)
    ensures ':' !in first ==> SplitRange(loc + ['#'] + (first + [':'] + second)) == (loc, Some(first), Some(second))
    ensures '#' !in first ==> SplitRange(loc + [':'] + first) == (loc, None, Some(first))
    ensures '#' !in first ==> SplitRange(loc + [':'] + (first + ['#'] + second)) == (loc, Some(second), Some(first))
  {
    CutNone(loc, ':');
    CutNone(loc, '#');
    if ':' !in first {
      OffsetFirst(loc, first, second);
    }
    if '#' !in first {
      ExtentFirst(loc, first, second);
    }
  }

  lemma OffsetFirst(loc: string, off: string, ext: string)
    requires '#' !in loc && ':' !in loc && ':' !in off
    ensures SplitRange(loc + ['#'] + off) == (loc, Some(off), None)
    ensures SplitRange(loc + ['#'] + (off + [':'] + ext)) == (loc, Some(off), Some(ext))
  {
    CutNone(loc + ['#'] + off, ':');
    CutAt(loc, '#', off);
    CutNone(off, ':');
    CutAt(loc + ['#'] + off, ':', ext);
    hide Cut;
    assert loc + ['#'] + (off + [':'] + ext) == loc + ['#'] + off + [':'] + ext;
  }

  lemma ExtentFirst(loc: string, ext: string, off: string)
    requires '#' !in loc && ':' !in loc && '#' !in ext
    ensures SplitRange(loc + [':'] + ext) == (loc, None, Some(ext))
    ensures SplitRange(loc + [':'] + (ext + ['#'] + off)) == (loc, Some(off), Some(ext))
  {
    CutAt(loc, ':', ext);
    CutNone(loc, '#');
    CutNone(ext, '#');
    CutAt(loc, ':', ext + ['#'] + off);
    CutAt(ext, '#', off);
    hide Cut;
  }

  /** The scheme ends with the first "://", if there is one. */
  lemma AfterSchemeIs(op: string, rest: string)
    requires forall k :: 0 <= k < |op| ==> !("://" <= (op + "://" + rest)[k..])
    ensures AfterScheme(op + "://" + rest) == rest
  {
    var s := op + "://" + rest;
    assert s[|op|..] == "://" + rest;
    assert s[|op| + 3..] == rest;
    var at := Search(s, "://").value;
    assert at == |op|;
  }

  // ---- Binds of one or two parts -------------------------------------------------------------------------------------

  lemma ParsedAlone(whole: string, scheme: string, body: string, t: Target)
    requires Sane(t) && FitsPage(whole) && AfterScheme(whole) == body && whole == scheme + body && Cut(body, '/') == (body, None)
    ensures var px := ParseDesc(whole, t);
            ParseBind(whole, t) == if px.Ok? then Ok(BindDesc(px.value, None, None)) else Err(Invalid)
  {
    hide Cut, AfterScheme, ParseDesc, FitsPage;
    assert whole[..|whole| - |body|] == scheme;
  }

  lemma ParsedPair(whole: string, scheme: string, body: string, x: string, d: string, t: Target)
    requires Sane(t) && FitsPage(whole) && AfterScheme(whole) == body && whole == scheme + body
    requires FitsPage(scheme + x) && FitsPage(d)
    requires Cut(body, '/') == (x, Some(d)) && Cut(d, '=') == (d, None)
    ensures var px, pd := ParseDesc(scheme + x, t), ParseDesc(d, t);
            ParseBind(whole, t) == if px.Ok? && pd.Ok? then Ok(BindDesc(px.value, Some(pd.value), None)) else Err(Invalid)
  {
    hide Cut, AfterScheme, ParseDesc, FitsPage;
    assert whole[..|whole| - |body|] == scheme;
  }

  lemma PairFits(scheme: string, x: string, d: string)
    requires FitsPage(scheme + (x + ['/'] + d))
    ensures FitsPage(scheme + x) && FitsPage(d)
  {
    hide FitsPage;
    FirstPartFits(scheme, x, ['/'] + d);
    assert x + ['/'] + d == x + (['/'] + d);
    assert scheme + (x + ['/'] + d) == scheme + x + ['/'] + d + "";
    PartFits(scheme + x + ['/'], d, "");
  }

  /** A bind without '/' is a transfer alone, and one without '=' a transfer and a destination. */
  lemma ParseBindShorter(op: string, x: string, d: string, t: Target)
    requires Sane(t) && ':' !in op && '/' !in x && '=' !in d
    ensures var whole := op + "://" + x; var px := ParseDesc(whole, t);
            FitsPage(whole) ==> ParseBind(whole, t) == if px.Ok? then Ok(BindDesc(px.value, None, None)) else Err(Invalid)
    ensures var whole := op + "://" + (x + ['/'] + d); var px, pd := ParseDesc(op + "://" + x, t), ParseDesc(d, t);
            FitsPage(whole) ==> ParseBind(whole, t) == if px.Ok? && pd.Ok? then Ok(BindDesc(px.value, Some(pd.value), None)) else Err(Invalid)
  {
    var one, two := op + "://" + x, op + "://" + (x + ['/'] + d);
    SchemeSkipped(op, x);
    SchemeSkipped(op, x + ['/'] + d);
    CutNone(x, '/');
    CutAt(x, '/', d);
    CutNone(d, '=');
    hide Cut, AfterScheme, ParseDesc, FitsPage, ParseBind;
    if FitsPage(one) {
      ParsedAlone(one, op + "://", x, t);
    }
    if FitsPage(two) {
      PairFits(op + "://", x, d);
      ParsedPair(two, op + "://", x + ['/'] + d, x, d, t);
    }
  }

  // ---- The copy ----------------------------------------------------------------------------------------------------

  /** The copy holds the string with its NUL, then from the next word boundary but one on a pointer for each option and one more. */
  lemma FitsPageIs(s: string)
    ensures FitsPage(s) <==> TableStart(s) + 4 * (1 + multiset(s)['?'] + multiset(s)[',']) <= 4096
    ensures TableStart(s) % 4 == 0 && |s| + 1 < TableStart(s) <= |s| + 5
  {
    DelimitersCount(s);
  }

  lemma {:induction false} DelimitersCount(s: string)
    ensures Delimiters(s) == multiset(s)['?'] + multiset(s)[',']
  {
    if s != "" {
      DelimitersCount(s[1..]);
      assert s == [s[0]] + s[1..];
    }
  }
}
