/**
 Parsing undoes printing.
 */
module DescriptorTheorems {
  import opened Results
  import opened CStrings
  import opened Division
  import opened Descriptors

  /** None of the characters in `delims` occurs in `s`. */
  predicate Free(s: string, delims: string) { forall c :: c in delims ==> c !in s }

  /** The characters that the parser gives a meaning to, other than the dot. */
  const DELIMS: string := "#:?,()=/"

  predicate PlainName(s: string) { Free(s, DELIMS) && '.' !in s }

  /** Names, locations and options without delimiters; a location may be dotted. */
  predicate Plain(d: Spec) {
    && PlainName(d.name) && Free(d.location.GetOr(""), DELIMS)
    && forall i :: 0 <= i < |d.options| ==> Free(d.options[i].0, DELIMS) && Free(d.options[i].1, DELIMS)
  }

  function Assigned(os: seq<(string, string)>): (r: seq<string>)
    ensures |r| == |os|
  {
    if os == [] then [] else [os[0].0 + "=" + os[0].1] + Assigned(os[1..])
  }

  function Location(d: Spec): string { d.location.GetOr("(null)") }

  /** What comes back: the numbers as far as the machine's words hold them. */
  function Back(d: Spec, t: Target): Desc
    requires Sane(t)
  {
    Desc(d.name, Some(Location(d)), Rem(d.offset, t.word), Rem(Rem(d.extent, t.word), U32), Assigned(d.options))
  }

  lemma HexIsFree(n: nat)
    ensures Free(Hex(n), DELIMS) && '.' !in Hex(n)
  {
    HexIsDigits(n);
  }

  /** Characters of a printed address other than those that separate its fields. */
  lemma AddressIsFree(name: string, loc: Option<string>, off: nat, ext: nat, c: char)
    requires PlainName(name) && Free(loc.GetOr(""), DELIMS) && c in "?,=/"
    ensures c !in PrintAddress(name, loc, off, ext)
  {
    HexIsFree(off);
    HexIsFree(ext);
    assert c in DELIMS && c !in "(null)" && c !in "." && c !in "#" && c !in ":";
    hide Hex;
  }

  /** The two orders of offset and extent mean the same. */
  lemma EitherOrder(loc: string, off: string, ext: string)
    requires Free(loc, "#:") && Free(off, "#:") && Free(ext, "#:")
    ensures SplitRange(loc + "#" + off + ":" + ext) == (loc, Some(off), Some(ext))
    ensures SplitRange(loc + ":" + ext + "#" + off) == (loc, Some(off), Some(ext))
  {
    assert '#' in "#:" && ':' in "#:";
    CutAt(loc + "#" + off, ':', ext);
    CutAt(loc, '#', off);
    assert loc + ":" + ext + "#" + off == loc + [':'] + (ext + "#" + off);
    CutAt(loc, ':', ext + "#" + off);
    CutNone(loc, '#');
    CutAt(ext, '#', off);
    hide Cut, Free;
    assert loc + "#" + off + ":" + ext == (loc + "#" + off) + [':'] + ext && loc + "#" + off == loc + ['#'] + off;
    assert ext + "#" + off == ext + ['#'] + off;
  }

  // ---- The parts of a printed descriptor ---------------------------------------------------------------------

  lemma NameSplits(d: Spec)
    requires Plain(d) && d.name != ""
    ensures SplitName(PrintAddress(d.name, d.location, d.offset, d.extent))
         == (d.name, Some(Location(d) + "#" + Hex(d.offset) + ":" + Hex(d.extent)))
  {
    var rest := Location(d) + "#" + Hex(d.offset) + ":" + Hex(d.extent);
    assert PrintAddress(d.name, d.location, d.offset, d.extent) == d.name + ['.'] + rest;
    CutAt(d.name, '.', rest);
  }

  lemma LocationIsFree(d: Spec)
    requires Plain(d)
    ensures Free(Location(d), "#:") && Free(Hex(d.offset), "#:") && Free(Hex(d.extent), "#:")
  {
    HexIsFree(d.offset);
    HexIsFree(d.extent);
    assert forall c :: c in "#:" ==> c in DELIMS && c !in "(null)";
    hide Hex;
  }

  lemma RangeSplits(d: Spec)
    requires Plain(d)
    ensures SplitRange(Location(d) + "#" + Hex(d.offset) + ":" + Hex(d.extent))
         == (Location(d), Some(Hex(d.offset)), Some(Hex(d.extent)))
  {
    LocationIsFree(d);
    EitherOrder(Location(d), Hex(d.offset), Hex(d.extent));
  }

  /** var(val), whatever comes after the parenthesis. */
  lemma OptionFixed(o: (string, string), tail: string)
    requires Free(o.0, DELIMS) && Free(o.1, DELIMS)
    ensures FixOption(PrintOption(o) + tail) == o.0 + "=" + o.1
  {
    var (name, value) := o;
    var s := PrintOption(o) + tail;
    assert '(' in DELIMS && ')' in DELIMS;
    assert s == name + ['('] + (value + ")" + tail);
    IndexAt(name, '(', value + ")" + tail);
    var t := s[|name| := '='];
    assert t[|name|..] == ("=" + value) + [')'] + tail;
    CutAt("=" + value, ')', tail);
    assert t[..|name|] == name;
    assert name + ("=" + value) == name + "=" + value;
  }

  lemma OptionIsFree(o: (string, string), c: char)
    requires Free(o.0, DELIMS) && Free(o.1, DELIMS) && c in "#:?,=/"
    ensures c !in PrintOption(o)
  {
    assert c in DELIMS && c != '(' && c != ')';
  }

  /** The options come back as var=val strings in their order; `tail` is a line end or the like. */
  lemma {:induction false} OptionsSplit(os: seq<(string, string)>, tail: string)
    requires os != [] && forall i :: 0 <= i < |os| ==> Free(os[i].0, DELIMS) && Free(os[i].1, DELIMS)
    requires ',' !in tail
    ensures SplitOptions(PrintOptions(os) + tail) == Assigned(os)
  {
    hide FixOption, PrintOption, Cut, Free;
    var first := PrintOption(os[0]);
    OptionIsFree(os[0], ',');
    if |os| == 1 {
      OptionFixed(os[0], tail);
      CutNone(first + tail, ',');
      assert os[1..] == [];
    } else {
      OptionFixed(os[0], "");
      assert first + "" == first;
      var rest := PrintOptions(os[1..]) + tail;
      CutAt(first, ',', rest);
      assert PrintOptions(os) + tail == first + [','] + rest;
      OptionsSplit(os[1..], tail);
    }
  }

  lemma {:induction false} OptionsAreFree(os: seq<(string, string)>, c: char)
    requires os != [] && forall i :: 0 <= i < |os| ==> Free(os[i].0, DELIMS) && Free(os[i].1, DELIMS)
    requires c in "=/"
    ensures c !in PrintOptions(os)
  {
    OptionIsFree(os[0], c);
    assert c !in ",";
    if |os| > 1 {
      OptionsAreFree(os[1..], c);
    }
  }

  lemma DescIsFree(d: Spec, c: char)
    requires Plain(d) && c in "=/"
    ensures c !in PrintDesc(d)
  {
    AddressIsFree(d.name, d.location, d.offset, d.extent, c);
    assert c !in "" && c !in "?";
    if d.options != [] {
      OptionsAreFree(d.options, c);
    }
  }

  // ---- The scheme -------------------------------------------------------------------------------------------------

  lemma {:induction false} NoScheme(s: string)
    requires '/' !in s
    ensures AfterScheme(s) == s
  {
    forall k | 0 <= k <= |s| ensures !("://" <= s[k..]) {
      assert |s[k..]| > 1 ==> s[k..][1] == s[k + 1] && s[k + 1] in s;
      assert "://"[1] == '/';
    }
  }

  lemma SchemeSkipped(op: string, rest: string)
    requires ':' !in op
    ensures AfterScheme(op + "://" + rest) == rest
  {
    var s := op + "://" + rest;
    assert s[|op|..] == "://" + rest;
    assert "://" <= s[|op|..];
    forall k | 0 <= k < |op| ensures !("://" <= s[k..]) {
      assert s[k] == op[k] && op[k] in op;
    }
    assert Search(s, "://") == Some(|op|);
    assert s[|op| + 3..] == rest;
  }

  // ---- Round trips --------------------------------------------------------------------------------------------------

  /** What may follow a printed descriptor: nothing, or, after options, a line end. */
  predicate Tail(d: Spec, tail: string) { Free(tail, ",/=") && (d.options == [] ==> tail == "") }

  lemma QuerySplits(d: Spec, tail: string)
    requires Plain(d) && Tail(d, tail)
    ensures Cut(PrintDesc(d) + tail, '?') ==
      (PrintAddress(d.name, d.location, d.offset, d.extent), if d.options == [] then None else Some(PrintOptions(d.options) + tail))
  {
    var address := PrintAddress(d.name, d.location, d.offset, d.extent);
    AddressIsFree(d.name, d.location, d.offset, d.extent, '?');
    hide PrintAddress, Cut, Free;
    if d.options == [] {
      assert PrintDesc(d) + tail == address;
      CutNone(address, '?');
    } else {
      CutAt(address, '?', PrintOptions(d.options) + tail);
      assert PrintDesc(d) + tail == address + ['?'] + (PrintOptions(d.options) + tail);
    }
  }

  lemma NumbersRead(d: Spec, t: Target)
    requires Sane(t)
    ensures ReadNumber(Some(Hex(d.offset)), t) == (Rem(d.offset, t.word), true)
    ensures ReadNumber(Some(Hex(d.extent)), t) == (Rem(d.extent, t.word), true)
  {
    StrtoulPrinted(d.offset, t.word);
    StrtoulPrinted(d.extent, t.word);
    hide Rem, Strtoul, Hex;
  }

  lemma BodyComesBack(d: Spec, tail: string, t: Target)
    requires Sane(t) && Plain(d) && d.name != "" && Tail(d, tail)
    ensures ParseBody(PrintDesc(d) + tail, t) == Ok(Back(d, t))
  {
    QuerySplits(d, tail);
    NameSplits(d);
    RangeSplits(d);
    NumbersRead(d, t);
    if d.options != [] {
      assert ',' in ",/=";
      OptionsSplit(d.options, tail);
    }
    hide Cut, SplitName, SplitRange, ReadNumber, SplitOptions, PrintDesc, PrintAddress, PrintOptions, Rem, Hex, Plain, Free;
  }

  lemma SchemeIgnored(op: string, body: string, t: Target)
    requires Sane(t) && '/' !in body && ':' !in op
    ensures ParseDesc(body, t) == ParseDesc(op + "://" + body, t) == ParseBody(body, t)
  {
    hide ParseBody, AfterScheme;
    NoScheme(body);
    SchemeSkipped(op, body);
  }

  /** A printed descriptor comes back, with or without a scheme in front and a line end behind. */
  lemma DescComesBack(d: Spec, tail: string, op: string, t: Target)
    requires Sane(t) && Plain(d) && d.name != "" && Tail(d, tail) && ':' !in op
    ensures ParseDesc(PrintDesc(d) + tail, t) == ParseDesc(op + "://" + (PrintDesc(d) + tail), t) == Ok(Back(d, t))
  {
    DescIsFree(d, '/');
    assert '/' in ",/=";
    assert '/' !in tail;
    hide PrintDesc, ParseBody, Plain, Free, AfterScheme, Back, Tail, ParseDesc;
    BodyComesBack(d, tail, t);
    SchemeIgnored(op, PrintDesc(d) + tail, t);
  }

  /** Every part of a string that fits in a page fits in a page. */
  lemma PartFits(a: string, b: string, c: string)
    requires FitsPage(a + b + c)
    ensures FitsPage(b) && FitsPage(a + b)
  {
    DelimitersOfParts(a + b, c);
    DelimitersOfParts(a, b);
  }

  /** Where a printed bind is cut. */
  lemma BindCuts(op: string, x: string, d: string, s: string)
    requires ':' !in op && '/' !in x && '=' !in d
    ensures var body := x + "/" + (d + "=" + s);
            var whole := op + "://" + body;
            && AfterScheme(whole) == body && whole[..|whole| - |body|] == op + "://"
            && Cut(body, '/') == (x, Some(d + "=" + s)) && Cut(d + "=" + s, '=') == (d, Some(s))
  {
    var body := x + "/" + (d + "=" + s);
    SchemeSkipped(op, body);
    hide Cut, AfterScheme;
    assert (op + "://" + body)[..|op| + 3] == op + "://";
    CutAt(x, '/', d + "=" + s);
    CutAt(d, '=', s);
  }

  lemma BindPartsFit(op: string, x: string, d: string, s: string)
    requires FitsPage(op + "://" + (x + "/" + (d + "=" + s)))
    ensures FitsPage(op + "://" + x) && FitsPage(d) && FitsPage(s)
  {
    var whole := op + "://" + (x + "/" + (d + "=" + s));
    hide FitsPage;
    FirstPartFits(op + "://", x, "/" + (d + "=" + s));
    assert x + ("/" + (d + "=" + s)) == x + "/" + (d + "=" + s);
    var front := op + "://" + (x + "/");
    assert whole == front + d + ("=" + s);
    PartFits(front, d, "=" + s);
    assert whole == (front + d + "=") + s + "";
    PartFits(front + d + "=", s, "");
  }

  lemma FirstPartFits(a: string, b: string, c: string)
    requires FitsPage(a + (b + c))
    ensures FitsPage(a + b)
  {
    assert a + (b + c) == a + b + c;
    PartFits(a, b, c);
  }

  /** A command or reply about a bind comes back in all its three parts. */
  lemma BindComesBack(op: string, x: Spec, d: Spec, s: Spec, tail: string, t: Target)
    requires Sane(t) && ':' !in op && Plain(x) && Plain(d) && Plain(s) && Tail(s, tail)
    requires x.name != "" && d.name != "" && s.name != ""
    requires FitsPage(PrintBind(op, x, d, s, tail))
    ensures ParseBind(PrintBind(op, x, d, s, tail), t) == Ok(BindDesc(Back(x, t), Some(Back(d, t)), Some(Back(s, t))))
  {
    assert Tail(x, "") && Tail(d, "");
    DescIsFree(x, '/');
    DescIsFree(d, '=');
    hide PrintDesc, ParseDesc, Plain, Tail, FitsPage, AfterScheme, Cut, Back;
    DescComesBack(x, "", op, t);
    DescComesBack(d, "", op, t);
    DescComesBack(s, tail, op, t);
    assert PrintDesc(d) + "" == PrintDesc(d) && PrintDesc(x) + "" == PrintDesc(x);
    ParseBindParts(op, PrintDesc(x), PrintDesc(d), PrintDesc(s) + tail, t);
  }

  /** Parsing a bind is parsing its parts. */
  lemma ParseBindParts(op: string, x: string, d: string, s: string, t: Target)
    requires Sane(t) && ':' !in op && '/' !in x && '=' !in d
    requires var whole := op + "://" + (x + "/" + (d + "=" + s)); FitsPage(whole)
    ensures var whole := op + "://" + (x + "/" + (d + "=" + s));
            var px, pd, ps := ParseDesc(op + "://" + x, t), ParseDesc(d, t), ParseDesc(s, t);
            px.Ok? && pd.Ok? && ps.Ok? ==>
              ParseBind(whole, t) == Ok(BindDesc(px.value, Some(pd.value), Some(ps.value)))
  {
    hide ParseDesc, FitsPage, AfterScheme, Cut, ParseBind;
    BindCuts(op, x, d, s);
    BindPartsFit(op, x, d, s);
    ParseBindCut(op + "://" + (x + "/" + (d + "=" + s)), op + "://", x + "/" + (d + "=" + s), x, d + "=" + s, d, s, t);
  }

  lemma ParseBindCut(whole: string, scheme: string, body: string, x: string, rest: string, d: string, s: string, t: Target)
    requires Sane(t) && FitsPage(whole) && FitsPage(scheme + x) && FitsPage(d) && FitsPage(s)
    requires AfterScheme(whole) == body && |body| <= |whole| && whole[..|whole| - |body|] == scheme
    requires Cut(body, '/') == (x, Some(rest)) && Cut(rest, '=') == (d, Some(s))
    ensures var px, pd, ps := ParseDesc(scheme + x, t), ParseDesc(d, t), ParseDesc(s, t);
            px.Ok? && pd.Ok? && ps.Ok? ==>
              ParseBind(whole, t) == Ok(BindDesc(px.value, Some(pd.value), Some(ps.value)))
  {
    hide ParseDesc, FitsPage, AfterScheme, Cut;
  }

  // ---- When the fields come back unchanged -----------------------------------------------------------------------

  lemma NumbersFitIff(d: Spec, t: Target)
    requires Sane(t)
    ensures Back(d, t).offset == d.offset <==> d.offset < t.word
    ensures Back(d, t).extent == d.extent <==> d.extent < t.word && d.extent < 0x1_0000_0000
  {
    if d.offset < t.word { RemOfSmall(d.offset, t.word); }
    if d.extent < t.word { RemOfSmall(d.extent, t.word); }
    if Rem(d.extent, t.word) < U32 { RemOfSmall(Rem(d.extent, t.word), U32); }
    hide Rem;
  }

  /** The numbers come back exactly if they fit the words they are read into: 32 bits for the extent on any machine. */
  lemma NumbersComeBackIff(d: Spec, t: Target)
    requires Sane(t) && Plain(d) && d.name != ""
    ensures var p := ParseDesc(PrintDesc(d), t);
            && p.Ok?
            && (p.value.offset == d.offset <==> d.offset < t.word)
            && (p.value.extent == d.extent <==> d.extent < t.word && d.extent < 0x1_0000_0000)
  {
    NumbersFitIff(d, t);
    assert PrintDesc(d) + "" == PrintDesc(d) && Tail(d, "");
    hide PrintDesc, Plain, ParseDesc, Tail, Back;
    DescComesBack(d, "", "", t);
  }

  /** A printed descriptor without a name: its location is taken for the name. */
  lemma NamelessBody(d: Spec, t: Target)
    requires Sane(t) && Plain(d) && d.name == "" && '.' !in Location(d)
    ensures var p := ParseBody(PrintDesc(d) + "", t); p.Ok? && p.value.name == Location(d) && p.value.location == None
  {
    QuerySplits(d, "");
    NamelessSplits(d);
    RangeSplits(d);
    NumbersRead(d, t);
    hide Cut, SplitName, SplitRange, ReadNumber, SplitOptions, PrintDesc, PrintAddress, PrintOptions, Rem, Hex, Plain, Free;
  }

  lemma NamelessSplits(d: Spec)
    requires Plain(d) && d.name == "" && '.' !in Location(d)
    ensures SplitName(PrintAddress(d.name, d.location, d.offset, d.extent))
         == (Location(d) + "#" + Hex(d.offset) + ":" + Hex(d.extent), None)
  {
    var rest := Location(d) + "#" + Hex(d.offset) + ":" + Hex(d.extent);
    HexIsFree(d.offset);
    HexIsFree(d.extent);
    assert '.' !in "#" && '.' !in ":";
    hide Hex;
    assert '.' !in rest;
    assert PrintAddress(d.name, d.location, d.offset, d.extent) == "" + ['.'] + rest;
    CutAt("", '.', rest);
    CutNone(rest, '.');
    hide Cut, PrintAddress;
  }

  /** A name in front of the first dot comes back exactly if there is one; otherwise the location takes its place. */
  lemma NameComesBackIff(d: Spec, t: Target)
    requires Sane(t) && Plain(d) && '.' !in Location(d)
    ensures var p := ParseDesc(PrintDesc(d), t);
            && p.Ok?
            && (p.value.name == d.name && p.value.location == Some(Location(d)) <==> d.name != "")
            && (d.name == "" ==> p.value.name == Location(d) && p.value.location == None)
  {
    DescIsFree(d, '/');
    NoScheme(PrintDesc(d));
    hide PrintDesc, Plain, ParseBody, AfterScheme;
    assert PrintDesc(d) + "" == PrintDesc(d);
    if d.name != "" {
      BodyComesBack(d, "", t);
    } else {
      NamelessBody(d, t);
    }
  }

  // ---- Numbers with something behind them ---------------------------------------------------------------------------

  /** A printed number and the characters behind it. */
  datatype Number = Number(n: nat, junk: string)
  {
    function Text(): string { Hex(n) + junk }
  }

  /** The junk is no part of the number: no digit, and no x that would make 0x of a zero. */
  predicate Apart(num: Number) {
    && Free(num.junk, DELIMS) && '.' !in num.junk
    && (num.junk != "" ==> DigitValue(num.junk[0]).None? && (num.n == 0 ==> num.junk[0] != 'x' && num.junk[0] != 'X'))
  }

  function TextOf(num: Option<Number>): Option<string> { if num.Some? then Some(num.value.Text()) else None }

  predicate HasJunk(num: Option<Number>) { num.Some? && num.value.junk != "" }

  /** What an unsigned long makes of the number; 0 if there is none. */
  function Value(num: Option<Number>, t: Target): nat
    requires Sane(t)
  {
    if num.Some? then Rem(num.value.n, t.word) else 0
  }

  /** An offset and an extent, each if there is one, in either order. */
  function RangeText(off: Option<string>, ext: Option<string>, extFirst: bool): string {
    var o := if off.Some? then "#" + off.value else "";
    var e := if ext.Some? then ":" + ext.value else "";
    if extFirst then e + o else o + e
  }

  function AddressText(name: string, loc: Option<string>, range: string): string {
    if loc.Some? then name + "." + (loc.value + range) else name + range
  }

  function QueryText(query: Option<string>): string { if query.Some? then "?" + query.value else "" }

  lemma {:induction false} HexLeads(n: nat)
    ensures Hex(n)[0] == '0' <==> n == 0
  {
    if n >= 16 {
      HexLeads(n / 16);
      HexIsDigits(n / 16);
    }
  }

  lemma JunkLeft(num: Number, t: Target)
    requires Sane(t) && Apart(num)
    ensures Strtoul(num.Text(), t.word) == (Rem(num.n, t.word), num.junk)
  {
    HexIsDigits(num.n);
    HexLeads(num.n);
    ReadHexPrinted(num.n, num.junk, t.word);
    var s := num.Text();
    assert s[0] == Hex(num.n)[0];
    if |Hex(num.n)| >= 2 {
      assert s[1] == Hex(num.n)[1] && Hex(num.n)[1] in Hex(num.n);
    } else if num.junk != "" {
      assert s[1] == num.junk[0];
    } else {
      assert |s| == 1;
    }
    assert num.junk == "" ==> ReadHex("", Rem(num.n, t.word), t.word) == (Rem(num.n, t.word), "");
  }

  lemma NumberRead(num: Option<Number>, t: Target)
    requires Sane(t) && (num.Some? ==> Apart(num.value))
    ensures ReadNumber(TextOf(num), t) == (Value(num, t), !t.asserts || !HasJunk(num))
  {
    if num.Some? {
      JunkLeft(num.value, t);
    }
    hide Strtoul, Rem, Hex;
  }

  lemma OnlyOffset(base: string, off: string, extFirst: bool)
    requires Free(base, "#:") && Free(off, "#:")
    ensures SplitRange(base + RangeText(Some(off), None, extFirst)) == (base, Some(off), None)
  {
    assert base + RangeText(Some(off), None, extFirst) == base + ['#'] + off;
    assert '#' in "#:" && ':' in "#:" && ':' !in "#";
    hide Cut, Free;
    CutNone(base + ['#'] + off, ':');
    CutAt(base, '#', off);
    CutNone(off, ':');
  }

  lemma OnlyExtent(base: string, ext: string, extFirst: bool)
    requires Free(base, "#:") && Free(ext, "#:")
    ensures SplitRange(base + RangeText(None, Some(ext), extFirst)) == (base, None, Some(ext))
  {
    assert base + RangeText(None, Some(ext), extFirst) == base + [':'] + ext;
    assert '#' in "#:" && ':' in "#:";
    hide Cut, Free;
    CutAt(base, ':', ext);
    CutNone(base, '#');
    CutNone(ext, '#');
  }

  lemma NoRange(base: string, extFirst: bool)
    requires Free(base, "#:")
    ensures SplitRange(base + RangeText(None, None, extFirst)) == (base, None, None)
  {
    assert base + RangeText(None, None, extFirst) == base;
    assert '#' in "#:" && ':' in "#:";
    hide Cut, Free;
    CutNone(base, ':');
    CutNone(base, '#');
  }

  lemma BothFound(base: string, off: string, ext: string, extFirst: bool)
    requires Free(base, "#:") && Free(off, "#:") && Free(ext, "#:")
    ensures SplitRange(base + RangeText(Some(off), Some(ext), extFirst)) == (base, Some(off), Some(ext))
  {
    hide SplitRange, Free;
    EitherOrder(base, off, ext);
    if extFirst {
      assert base + RangeText(Some(off), Some(ext), true) == base + ":" + ext + "#" + off;
    } else {
      assert base + RangeText(Some(off), Some(ext), false) == base + "#" + off + ":" + ext;
    }
  }

  /** Offset and extent are found whichever is there, and in whichever order. */
  lemma RangeFound(base: string, off: Option<string>, ext: Option<string>, extFirst: bool)
    requires Free(base, "#:") && (off.Some? ==> Free(off.value, "#:")) && (ext.Some? ==> Free(ext.value, "#:"))
    ensures SplitRange(base + RangeText(off, ext, extFirst)) == (base, off, ext)
  {
    hide SplitRange, Free, RangeText;
    match (off, ext)
    case (Some(o), Some(e)) => BothFound(base, o, e, extFirst);
    case (Some(o), None) => OnlyOffset(base, o, extFirst);
    case (None, Some(e)) => OnlyExtent(base, e, extFirst);
    case (None, None) => NoRange(base, extFirst);
  }

  /** The pieces of an address of any of these shapes. */
  lemma AddressFound(name: string, loc: Option<string>, off: Option<string>, ext: Option<string>, extFirst: bool)
    requires name != "" && '.' !in name && Free(name, "#:") && (loc.Some? ==> Free(loc.value, "#:"))
    requires off.Some? ==> Free(off.value, "#:.")
    requires ext.Some? ==> Free(ext.value, "#:.")
    ensures SplitAddress(AddressText(name, loc, RangeText(off, ext, extFirst))) == (name, loc, off, ext)
  {
    var range := RangeText(off, ext, extFirst);
    assert forall c :: c in "#:" ==> c in "#:.";
    assert '.' in "#:." && '.' !in "#" && '.' !in ":";
    RangeFound(if loc.Some? then loc.value else name, off, ext, extFirst);
    if loc.Some? {
      assert name + "." + (loc.value + range) == name + ['.'] + (loc.value + range);
      CutAt(name, '.', loc.value + range);
    } else {
      assert '.' !in name + range;
      CutNone(name + range, '.');
    }
    hide Cut, SplitRange, RangeText, Free;
  }

  lemma TextIsFree(num: Option<Number>, c: char)
    requires (num.Some? ==> Apart(num.value)) && (c in DELIMS || c == '.')
    ensures num.Some? ==> c !in num.value.Text()
  {
    if num.Some? {
      HexIsFree(num.value.n);
    }
    hide Hex;
  }

  /** None of the characters that end an address, or start a scheme, is in it. */
  lemma AddressTextIsFree(name: string, loc: Option<string>, off: Option<Number>, ext: Option<Number>, extFirst: bool, c: char)
    requires PlainName(name) && Free(loc.GetOr(""), DELIMS) && c in "?/"
    requires (off.Some? ==> Apart(off.value)) && (ext.Some? ==> Apart(ext.value))
    ensures c !in AddressText(name, loc, RangeText(TextOf(off), TextOf(ext), extFirst))
  {
    assert c in DELIMS && c !in "#" && c !in ":" && c !in ".";
    TextIsFree(off, c);
    TextIsFree(ext, c);
    hide Apart, Hex;
  }

  lemma QueryCut(address: string, query: Option<string>)
    requires '?' !in address
    ensures Cut(address + QueryText(query), '?') == (address, query)
  {
    if query.Some? {
      assert address + QueryText(query) == address + ['?'] + query.value;
      CutAt(address, '?', query.value);
    } else {
      assert address + "" == address;
      CutNone(address, '?');
    }
  }

  /**
   Of an address with or without location, offset, extent and options, in either order, characters behind a
   number are an error exactly in a build with assertions; in any other they are passed over, and all fields
   are what they would be without them.
   */
  lemma JunkIsRejectedIff(name: string, loc: Option<string>, off: Option<Number>, ext: Option<Number>, extFirst: bool,
                          query: Option<string>, t: Target)
    requires Sane(t) && name != "" && PlainName(name) && Free(loc.GetOr(""), DELIMS) && '/' !in query.GetOr("")
    requires (off.Some? ==> Apart(off.value)) && (ext.Some? ==> Apart(ext.value))
    ensures var p := ParseDesc(AddressText(name, loc, RangeText(TextOf(off), TextOf(ext), extFirst)) + QueryText(query), t);
            && (p.Err? <==> t.asserts && (HasJunk(off) || HasJunk(ext)))
            && (p.Ok? ==> p.value == Desc(name, loc, Value(off, t), Rem(Value(ext, t), U32),
                                          if query.Some? then SplitOptions(query.value) else []))
  {
    AddressTextIsFree(name, loc, off, ext, extFirst, '/');
    AddressTextIsFree(name, loc, off, ext, extFirst, '?');
    NumbersAreFree(off);
    NumbersAreFree(ext);
    NumberRead(off, t);
    NumberRead(ext, t);
    NameIsFree(name, loc);
    hide Apart, Free, Value, HasJunk, ReadNumber, SplitOptions, SplitAddress, Rem, TextOf, AddressText, RangeText, AfterScheme;
    AddressFound(name, loc, TextOf(off), TextOf(ext), extFirst);
    var address := AddressText(name, loc, RangeText(TextOf(off), TextOf(ext), extFirst));
    QueryCut(address, query);
    assert '/' !in address + QueryText(query);
    hide QueryText, Cut;
    NoScheme(address + QueryText(query));
  }

  lemma NumbersAreFree(num: Option<Number>)
    requires num.Some? ==> Apart(num.value)
    ensures num.Some? ==> Free(TextOf(num).value, "#:.")
  {
    if num.Some? {
      forall c | c in "#:." ensures c !in num.value.Text() {
        assert c in DELIMS || c == '.';
        TextIsFree(num, c);
      }
    }
  }

  lemma NameIsFree(name: string, loc: Option<string>)
    requires PlainName(name) && Free(loc.GetOr(""), DELIMS)
    ensures Free(name, "#:") && (loc.Some? ==> Free(loc.value, "#:"))
  {
    assert forall c :: c in "#:" ==> c in DELIMS;
  }

  // ---- Options --------------------------------------------------------------------------------------------------

  predicate Contains(s: string, pat: string) { Search(s, pat).Some? }

  /** The lookup answers from the first option whose text contains the name, wherever in it the name occurs. */
  lemma {:induction false} LookupUsesFirstContaining(options: seq<string>, needle: string, k: nat)
    requires k < |options| && Contains(options[k], needle)
    requires forall j :: 0 <= j < k ==> !Contains(options[j], needle)
    ensures GetOption(options, needle) == GetOption([options[k]], needle)
  {
    if k > 0 {
      LookupUsesFirstContaining(options[1..], needle, k - 1);
    }
  }

  /** No option before the k-th contains its name: not in a name, nor in a value, nor across the two. */
  predicate NoneBefore(os: seq<(string, string)>, k: nat)
    requires k < |os|
  {
    forall j :: 0 <= j < k ==> !Contains(Assigned(os)[j], os[k].0)
  }

  /** A printed option is found by its name, if no option before it contains that name. */
  lemma OptionFound(os: seq<(string, string)>, k: nat)
    requires k < |os| && Free(os[k].0, DELIMS) && NoneBefore(os, k)
    ensures GetOption(Assigned(os), os[k].0) == Some(os[k].1)
  {
    var (name, value) := os[k];
    AssignedAt(os, k);
    var o := name + "=" + value;
    assert name <= o[0..];
    assert Search(o, name) == Some(0);
    assert o[0..] == o && '=' in DELIMS;
    IndexAt(name, '=', value);
    assert o == name + ['='] + value;
    assert o[|name| + 1..] == value;
    assert GetOption([o], name) == Some(value);
    LookupUsesFirstContaining(Assigned(os), name, k);
  }

  lemma {:induction false} AssignedBefore(os: seq<(string, string)>, k: nat, o: (string, string), j: nat)
    requires j < k < |os|
    ensures Assigned(os[k := o])[j] == Assigned(os)[j]
  {
    AssignedAt(os, j);
    AssignedAt(os[k := o], j);
  }

  lemma NoneBeforeAny(os: seq<(string, string)>, k: nat, v: string)
    requires k < |os| && NoneBefore(os, k)
    ensures NoneBefore(os[k := (os[k].0, v)], k)
  {
    hide Contains, Assigned;
    var os' := os[k := (os[k].0, v)];
    forall j | 0 <= j < k ensures !Contains(Assigned(os')[j], os[k].0) {
      AssignedBefore(os, k, (os[k].0, v), j);
    }
    assert os'[k].0 == os[k].0;
  }

  /** With an earlier option that contains its name, there is a value that the k-th option is not found with. */
  lemma OptionHidden(os: seq<(string, string)>, k: nat)
    requires k < |os| && !NoneBefore(os, k)
    ensures exists v :: GetOption(Assigned(os[k := (os[k].0, v)]), os[k].0) != Some(v)
  {
    hide Contains, Assigned, GetOption;
    var j := FirstContaining(Assigned(os), os[k].0, k);
    AnswersFrom(os, k, j, "a");
    AnswersFrom(os, k, j, "b");
    var answer := GetOption([Assigned(os)[j]], os[k].0);
    assert Some("a") != Some("b");
    assert answer != Some("a") || answer != Some("b");
  }

  /** A printed option is found by its name, whatever its value, exactly if no option before it contains that name. */
  lemma OptionFoundIff(os: seq<(string, string)>, k: nat)
    requires k < |os| && Free(os[k].0, DELIMS)
    ensures (forall v :: GetOption(Assigned(os[k := (os[k].0, v)]), os[k].0) == Some(v)) <==> NoneBefore(os, k)
  {
    hide Free, Assigned, GetOption, NoneBefore;
    if NoneBefore(os, k) {
      forall v ensures GetOption(Assigned(os[k := (os[k].0, v)]), os[k].0) == Some(v) {
        NoneBeforeAny(os, k, v);
        OptionFound(os[k := (os[k].0, v)], k);
      }
    } else {
      OptionHidden(os, k);
    }
  }

  lemma {:induction false} FirstContaining(options: seq<string>, needle: string, k: nat) returns (j: nat)
    requires k <= |options| && exists i :: 0 <= i < k && Contains(options[i], needle)
    ensures j < k && Contains(options[j], needle) && forall i :: 0 <= i < j ==> !Contains(options[i], needle)
  {
    hide Contains;
    j := 0;
    while !Contains(options[j], needle)
      invariant j < k && forall i :: 0 <= i < j ==> !Contains(options[i], needle)
      decreases k - j
    {
      j := j + 1;
    }
  }

  /** An option before the wanted one answers whatever the wanted one's value is. */
  lemma AnswersFrom(os: seq<(string, string)>, k: nat, j: nat, v: string)
    requires j < k < |os| && Contains(Assigned(os)[j], os[k].0)
    requires forall i :: 0 <= i < j ==> !Contains(Assigned(os)[i], os[k].0)
    ensures GetOption(Assigned(os[k := (os[k].0, v)]), os[k].0) == GetOption([Assigned(os)[j]], os[k].0)
  {
    hide Contains, GetOption;
    var o := (os[k].0, v);
    var s := Assigned(os[k := o]);
    forall i | 0 <= i <= j ensures s[i] == Assigned(os)[i] {
      AssignedBefore(os, k, o, i);
    }
    assert forall i :: 0 <= i < j ==> !Contains(s[i], os[k].0);
    LookupUsesFirstContaining(s, os[k].0, j);
  }

  /** An option whose name ends in another's is found in its place when it comes first. */
  lemma OptionShadowed(prefix: string, name: string, first: string, second: string)
    requires Free(prefix, DELIMS) && Free(name, DELIMS)
    ensures GetOption([prefix + name + "=" + first, name + "=" + second], name) == Some(first)
  {
    var o := prefix + name + "=" + first;
    assert '=' in DELIMS;
    hide Search, Free, GetOption;
    var at := SuffixFound(o, prefix, name, first);
    var front := (prefix + name)[at..];
    assert [o] + [name + "=" + second] == [o, name + "=" + second];
    LookupInFirst(o, name, at, front, first, [name + "=" + second]);
  }

  /** Where the shorter name is found: in the longer one. */
  lemma SuffixFound(o: string, prefix: string, name: string, value: string) returns (at: nat)
    requires o == prefix + name + "=" + value && '=' !in prefix && '=' !in name
    ensures at <= |prefix| && Search(o, name) == Some(at)
    ensures var front := (prefix + name)[at..]; o[at..] == front + ['='] + value && '=' !in front
  {
    assert o[|prefix|..] == name + "=" + value;
    assert name <= o[|prefix|..];
    at := Search(o, name).value;
    hide Search;
    assert '=' !in prefix + name;
    assert o[at..] == (prefix + name)[at..] + ['='] + value;
  }

  lemma LookupInFirst(o: string, needle: string, at: nat, front: string, value: string, others: seq<string>)
    requires at <= |o| && Search(o, needle) == Some(at) && o[at..] == front + ['='] + value && '=' !in front
    ensures GetOption([o] + others, needle) == Some(value)
  {
    hide Search;
    IndexAt(front, '=', value);
    assert o[at..][|front| + 1..] == value;
  }

  lemma {:induction false} AssignedAt(os: seq<(string, string)>, k: nat)
    requires k < |os|
    ensures |Assigned(os)| == |os| && Assigned(os)[k] == os[k].0 + "=" + os[k].1
  {
    if k > 0 {
      AssignedAt(os[1..], k - 1);
    } else if |os| > 1 {
      AssignedAt(os[1..], 0);
    }
  }
}
