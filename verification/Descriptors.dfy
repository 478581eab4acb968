/**
 Descriptors and binds as strings: what the parser makes of a string, and what the printers write.
 */
module Descriptors {
  import opened Results
  import opened CStrings
  import opened Division

  /** A parsed descriptor; each string is what its C pointer points at. `options` is the query table up to its NULL. */
  datatype Desc = Desc(name: string, location: Option<string>, offset: nat, extent: nat, options: seq<string>)

  datatype BindDesc = BindDesc(xfer: Desc, dst: Option<Desc>, src: Option<Desc>)

  const U32: nat := 0x1_0000_0000

  /** The machine and the build: the width of an unsigned long, and whether assertions are compiled in. */
  datatype Target = Target(word: nat, asserts: bool)

  predicate Sane(t: Target) { t.word > 0 }

  // ---- Parsing ----------------------------------------------------------------------------------------------

  /** What follows the first "://", or the whole string. */
  function AfterScheme(s: string): string {
    var at := Search(s, "://");
    if at.Some? then
      assert "://" <= s[at.value..];
      s[at.value + 3..]
    else s
  }

  /** The split at the first '.', tried again while the name is empty. */
  function SplitName(s: string): (string, Option<string>)
    decreases |s|
  {
    var (name, loc) := Cut(s, '.');
    if name == "" && loc.Some? then SplitName(loc.value) else (name, loc)
  }

  /** The offset and extent strings after `s`, whichever comes first, and what is left of `s`. */
  function SplitRange(s: string): (string, Option<string>, Option<string>) {
    var (s1, ext) := Cut(s, ':');
    var (s2, off) := Cut(s1, '#');
    if ext.None? && off.Some? then
      var (off', ext') := Cut(off.value, ':');
      (s2, Some(off'), ext')
    else if off.None? && ext.Some? then
      var (ext', off') := Cut(ext.value, '#');
      (s2, off', Some(ext'))
    else (s2, off, ext)
  }

  /** One option: var(val) becomes var=val, and what follows the parenthesis is dropped. */
  function FixOption(s: string): string {
    var open := IndexOf(s, '(');
    if open == |s| then s
    else
      var t := s[open := '='];
      var tail := Cut(t[open..], ')').0;
      t[..open] + tail
  }

  /** vfi_parse_options: the comma-separated options. */
  function SplitOptions(s: string): seq<string>
    decreases |s|
  {
    var (first, rest) := Cut(s, ',');
    [FixOption(first)] + if rest.Some? then SplitOptions(rest.value) else []
  }

  /** A number of the descriptor; anything after its digits is an error, in a build that asserts. */
  function ReadNumber(s: Option<string>, t: Target): (nat, bool)
    requires Sane(t)
  {
    if s.None? then (0, true)
    else
      var (v, rest) := Strtoul(s.value, t.word);
      (v, rest == "" || !t.asserts)
  }

  /** Name, location, offset and extent of an address. */
  function SplitAddress(s: string): (string, Option<string>, Option<string>, Option<string>) {
    var (name, loc) := SplitName(s);
    var (left, off, ext) := SplitRange(if loc.Some? then loc.value else name);
    (if loc.Some? then name else left, if loc.Some? then Some(left) else None, off, ext)
  }

  /** _vfi_parse_desc, from the name on */
  function ParseBody(s: string, t: Target): Result<Desc>
    requires Sane(t)
  {
    var (address, query) := Cut(s, '?');
    var (name, loc, off, ext) := SplitAddress(address);
    var (extent, extOk) := ReadNumber(ext, t);
    var (offset, offOk) := ReadNumber(off, t);
    if !extOk || !offOk then Err(Invalid)
    else Ok(Desc(name, loc, offset, Rem(extent, U32), if query.Some? then SplitOptions(query.value) else []))
  }

  /** _vfi_parse_desc */
  function ParseDesc(s: string, t: Target): Result<Desc>
    requires Sane(t)
  {
    ParseBody(AfterScheme(s), t)
  }

  // The copy that is parsed must fit in a page, with a table of one pointer for each possible option.

  function Delimiters(s: string): nat {
    if s == [] then 0 else (if s[0] == '?' || s[0] == ',' then 1 else 0) + Delimiters(s[1..])
  }

  lemma {:induction false} DelimitersOfParts(a: string, b: string)
    ensures Delimiters(a + b) == Delimiters(a) + Delimiters(b)
  {
    if a == [] {
      assert a + b == b;
    } else {
      assert (a + b)[1..] == a[1..] + b;
      DelimitersOfParts(a[1..], b);
    }
  }

  /** Entries of the query table that vfi_str_dup sets aside. */
  function TableSize(s: string): nat { 1 + Delimiters(s) }

  /** Bytes before the table: the string and its NUL, rounded up past the next word. */
  function TableStart(s: string): nat { ((|s| + 1) / 4 + 1) * 4 }

  predicate FitsPage(s: string) { |s| + 1 <= 4096 && TableStart(s) + 4 * TableSize(s) <= 4096 }

  /** vfi_parse_desc */
  function ParseCopy(s: string, t: Target): Result<Desc>
    requires Sane(t)
  {
    if FitsPage(s) then ParseDesc(s, t) else Err(Invalid)
  }

  /** vfi_parse_bind: the three parts are cut at the first '/' and the first '=' after it. */
  function ParseBind(s: string, t: Target): Result<BindDesc>
    requires Sane(t)
  {
    if !FitsPage(s) then Err(NoMemory)
    else
      var scheme := s[..|s| - |AfterScheme(s)|];
      var (x, rest) := Cut(AfterScheme(s), '/');
      var xfer := ParseCopy(scheme + x, t);
      if rest.None? then
        if xfer.Ok? then Ok(BindDesc(xfer.value, None, None)) else Err(Invalid)
      else
        var (d, src) := Cut(rest.value, '=');
        var source := if src.Some? then ParseCopy(src.value, t) else Err(Invalid);
        var dest := ParseCopy(d, t);
        if (src.Some? && source.Err?) || dest.Err? || xfer.Err? then Err(Invalid)
        else Ok(BindDesc(xfer.value, Some(dest.value), if src.Some? then Some(source.value) else None))
  }

  /** vfi_get_option: from the first option that contains the name, what follows '=', or else the name and the rest. */
  function GetOption(options: seq<string>, needle: string): Option<string> {
    if options == [] then None
    else
      var at := Search(options[0], needle);
      if at.None? then GetOption(options[1..], needle)
      else
        var found := options[0][at.value..];
        var eq := IndexOf(found, '=');
        Some(if eq < |found| then found[eq + 1..] else found)
  }

  // ---- Printing ----------------------------------------------------------------------------------------------

  /** The conversion %s.%s#%llx:%x of a descriptor's fields; a missing location prints as it does in the kernel. */
  function PrintAddress(name: string, location: Option<string>, offset: nat, extent: nat): string {
    name + "." + location.GetOr("(null)") + "#" + Hex(offset) + ":" + Hex(extent)
  }

  function PrintOption(o: (string, string)): string { o.0 + "(" + o.1 + ")" }

  /** A list of options, as in ?event_name(%s),event_id(%d). */
  function PrintOptions(os: seq<(string, string)>): string
    requires os != []
  {
    if |os| == 1 then PrintOption(os[0]) else PrintOption(os[0]) + "," + PrintOptions(os[1..])
  }

  /** An address with its options, if any. */
  function PrintDesc(d: Spec): string {
    PrintAddress(d.name, d.location, d.offset, d.extent) + if d.options == [] then "" else "?" + PrintOptions(d.options)
  }

  /** What a printer is given. */
  datatype Spec = Spec(name: string, location: Option<string>, offset: nat, extent: nat, options: seq<(string, string)>)

  /** A command or a reply about a bind: op://xfer/dst=src, and a line end after a reply. */
  function PrintBind(op: string, x: Spec, d: Spec, s: Spec, tail: string): string {
    op + "://" + (PrintDesc(x) + "/" + (PrintDesc(d) + "=" + (PrintDesc(s) + tail)))
  }
}
