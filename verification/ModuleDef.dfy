/** Module-definition files (COFF/ModuleDef.cpp): the lexer that eats its buffer and
    the parser with its stack of tokens put back. */
module ModuleDef {
  import opened Common

  datatype Keyword = Base | Data | Exports | Heapsize | Library | Name | Noname | Private | Stacksize | Version

  /** Unknown is what a parser holds before it has read anything. */
  datatype Token = Unknown | Eof | Identifier(text: string) | Comma | Equal | Kw(k: Keyword)

  // ----- characters -----

  predicate IsSpace(c: char) {
    c in " \t\n\r" || c == '\U{0B}' || c == '\U{0C}'
  }

  /** What ends a word: a form feed does not. */
  predicate EndsWord(c: char) {
    c in "=,\r\n \t" || c == '\U{0B}'
  }

  function TrimLeft(s: string): (r: string)
    ensures |r| <= |s| && (r != [] ==> !IsSpace(r[0]))
  {
    if s != [] && IsSpace(s[0]) then TrimLeft(s[1..]) else s
  }

  function TrimRight(s: string): (r: string)
    ensures |r| <= |s| && (r != [] ==> !IsSpace(r[|r| - 1])) && r == s[..|r|]
    decreases |s|
  {
    if s != [] && IsSpace(s[|s| - 1]) then TrimRight(s[..|s| - 1]) else s
  }

  function Trim(s: string): (r: string)
    ensures |r| <= |s|
  {
    TrimRight(TrimLeft(s))
  }

  function WordLength(s: string): (n: nat)
    ensures n <= |s| && (n < |s| ==> EndsWord(s[n]))
    ensures forall i :: 0 <= i < n ==> !EndsWord(s[i])
  {
    if s == [] || EndsWord(s[0]) then 0 else 1 + WordLength(s[1..])
  }

  /** The length up to the first c, or of all of s. */
  function Until(s: string, c: char): (n: nat)
    ensures n <= |s| && (n < |s| ==> s[n] == c)
    ensures forall i :: 0 <= i < n ==> s[i] != c
  {
    if s == [] || s[0] == c then 0 else 1 + Until(s[1..], c)
  }

  function WordToken(w: string): (t: Token) {
    if w == "BASE" then Kw(Base)
    else if w == "DATA" then Kw(Data)
    else if w == "EXPORTS" then Kw(Exports)
    else if w == "HEAPSIZE" then Kw(Heapsize)
    else if w == "LIBRARY" then Kw(Library)
    else if w == "NAME" then Kw(Name)
    else if w == "NONAME" then Kw(Noname)
    else if w == "PRIVATE" then Kw(Private)
    else if w == "STACKSIZE" then Kw(Stacksize)
    else if w == "VERSION" then Kw(Version)
    else Identifier(w)
  }

  datatype Lexed = Lexed(token: Token, rest: string)

  /** lex: the next token and what is left of the buffer. */
  function Lex(buf: string): (l: Lexed)
    ensures l.token != Eof ==> |l.rest| < |buf|
    decreases |buf|
  {
    var s := Trim(buf);
    if s == [] then Lexed(Eof, s)
    else if s[0] == '\0' then Lexed(Eof, s)
    else if s[0] == ';' then Lex(s[Until(s, '\n')..])
    else if s[0] == '=' then Lexed(Equal, s[1..])
    else if s[0] == ',' then Lexed(Comma, s[1..])
    else if s[0] == '"' then
      var n := Until(s[1..], '"');
      Lexed(Identifier(s[1..][..n]), if n < |s| - 1 then s[n + 2..] else [])
    else
      WordStarts(s, buf);
      Lexed(WordToken(s[..WordLength(s)]), s[WordLength(s)..])
  }

  lemma WordStarts(s: string, buf: string)
    requires s == Trim(buf) && s != [] && s[0] != '=' && s[0] != ','
    ensures WordLength(s) > 0
  {
    assert s[0] == TrimLeft(buf)[0];
  }

  /** Every token up to the end of the file. */
  function TokensOf(buf: string): (ts: seq<Token>)
    ensures Eof !in ts
    decreases |buf|
  {
    var l := Lex(buf);
    if l.token == Eof then [] else [l.token] + TokensOf(l.rest)
  }

  // ----- numbers -----

  predicate IsDigit(c: char) {
    '0' <= c <= '9'
  }

  function Digits(s: string): (n: nat)
    requires forall i :: 0 <= i < |s| ==> IsDigit(s[i])
  {
    if s == [] then 0
    else
      assert IsDigit(s[|s| - 1]);
      10 * Digits(s[..|s| - 1]) + (s[|s| - 1] as int - '0' as int)
  }

  /** getAsInteger in base ten into a type of the given bound: None is its error. */
  function GetAsInteger(s: string, bound: nat): (n: Option<nat>) {
    if s != [] && (forall i :: 0 <= i < |s| ==> IsDigit(s[i])) && Digits(s) < bound then Some(Digits(s)) else None
  }

  const UINT16: nat := 0x1_0000
  const UINT32: nat := 0x1_0000_0000
  const UINT64: nat := 0x1_0000_0000_0000_0000

  // ----- the parser on a list of tokens -----

  datatype Export = Export(extName: string, name: string, ordinal: nat, noname: bool, data: bool, isPrivate: bool)

  /** The part of the configuration a file can set. */
  datatype Config = Config(
    exports: seq<Export>, outputFile: string, imageBase: nat,
    heapReserve: nat, heapCommit: nat, stackReserve: nat, stackCommit: nat, major: nat, minor: nat)

  datatype Parsed<T> = Parsed(value: Option<T>, rest: seq<Token>)

  function First(ts: seq<Token>): (t: Token) {
    if ts == [] then Eof else ts[0]
  }

  function Rest(ts: seq<Token>): (r: seq<Token>) {
    if ts == [] then [] else ts[1..]
  }

  /** Does the token give an ordinal? An empty quoted name has no first character
      to look at and is taken not to. */
  predicate IsOrdinal(t: Token) {
    t.Identifier? && t.text != "" && t.text[0] == '@'
  }

  /** An ordinal that does not scan, or does not fit, leaves the old one. */
  function OrdinalOf(t: Token, old_: nat): (n: nat)
    requires IsOrdinal(t)
  {
    var v := GetAsInteger(t.text[1..], UINT16);
    if v.Some? then v.value else old_
  }

  /** The loop over an export's attributes; NONAME is one only after an ordinal. */
  function ParseAttributes(e: Export, ts: seq<Token>): (r: Parsed<Export>)
    ensures |r.rest| <= |ts| && r.value.Some?
    decreases |ts|
  {
    if IsOrdinal(First(ts)) then
      var e' := e.(ordinal := OrdinalOf(First(ts), e.ordinal));
      if First(ts[1..]) == Kw(Noname) then ParseAttributes(e'.(noname := true), ts[2..])
      else ParseAttributes(e', ts[1..])
    else if First(ts) == Kw(Data) then ParseAttributes(e.(data := true), ts[1..])
    else if First(ts) == Kw(Private) then ParseAttributes(e.(isPrivate := true), ts[1..])
    else Parsed(Some(e), ts)
  }

  function Decorated(name: string, is64: bool): (s: string) {
    if !is64 && !("_@?" <= name) then "_" + name else name
  }

  /** parseExport, the external name being the first token. */
  function ParseExport(ts: seq<Token>, is64: bool): (r: Parsed<Export>)
    requires First(ts).Identifier?
    ensures |r.rest| < |ts|
  {
    var ext := ts[0].text;
    if First(ts[1..]) == Equal then
      if First(ts[2..]).Identifier? then
        ParseAttributes(Export(ext, Decorated(ts[2].text, is64), 0, false, false, false), ts[3..])
      else Parsed(None, Rest(ts[2..]))
    else ParseAttributes(Export(ext, Decorated(ext, is64), 0, false, false, false), ts[1..])
  }

  /** The exports read before an error stay in the configuration. */
  function ParseExports(c: Config, ts: seq<Token>, is64: bool): (r: Parsed<Config>)
    ensures |r.rest| <= |ts|
    decreases |ts|
  {
    if First(ts).Identifier? then
      var p := ParseExport(ts, is64);
      if p.value.None? then Parsed(None, p.rest)
      else ParseExports(c.(exports := c.exports + [p.value.value]), p.rest, is64)
    else Parsed(Some(c), ts)
  }

  function ReadAsInt(ts: seq<Token>): (n: Option<nat>) {
    if First(ts).Identifier? then GetAsInteger(First(ts).text, UINT64) else None
  }

  datatype Numbers = Numbers(reserve: nat, commit: nat)

  /** Without a commit size the old one stays: it is the pointer that is cleared. */
  function ParseNumbers(old_: Numbers, ts: seq<Token>): (r: Parsed<Numbers>)
    ensures |r.rest| <= |ts|
  {
    var n := ReadAsInt(ts);
    if n.None? then Parsed(None, Rest(ts))
    else if First(Rest(ts)) != Comma then Parsed(Some(Numbers(n.value, old_.commit)), Rest(ts))
    else
      var m := ReadAsInt(Rest(Rest(ts)));
      if m.None? then Parsed(None, Rest(Rest(Rest(ts))))
      else Parsed(Some(Numbers(n.value, m.value)), Rest(Rest(Rest(ts))))
  }

  /** parseName: the base is kept only if no name is given. */
  function ParseName(c: Config, ts: seq<Token>): (r: Parsed<Config>)
    ensures |r.rest| <= |ts|
  {
    if !First(ts).Identifier? then Parsed(Some(c.(outputFile := "")), ts)
    else
      var c' := c.(outputFile := ts[0].text);
      if First(ts[1..]) != Kw(Base) then Parsed(Some(c'.(imageBase := 0)), ts[1..])
      else if First(ts[2..]) != Equal then Parsed(None, Rest(ts[2..]))
      else
        var n := ReadAsInt(ts[3..]);
        if n.None? then Parsed(None, Rest(ts[3..])) else Parsed(Some(c'.(imageBase := n.value)), Rest(ts[3..]))
  }

  function ParseVersion(c: Config, ts: seq<Token>): (r: Parsed<Config>)
    ensures |r.rest| <= |ts|
  {
    if !First(ts).Identifier? then Parsed(None, Rest(ts))
    else
      var s := ts[0].text;
      var n := Until(s, '.');
      var v2 := if n < |s| then s[n + 1..] else "";
      var major := GetAsInteger(s[..n], UINT32);
      var minor := if v2 == "" then Some(0) else GetAsInteger(v2, UINT32);
      if major.None? || minor.None? then Parsed(None, ts[1..])
      else Parsed(Some(c.(major := major.value, minor := minor.value)), ts[1..])
  }

  function Lower(s: string): (r: string)
    ensures |r| == |s|
  {
    seq(|s|, i requires 0 <= i < |s| => if 'A' <= s[i] <= 'Z' then s[i] + ('a' - 'A') else s[i])
  }

  function WithDll(name: string): (r: string) {
    if |name| >= 4 && Lower(name[|name| - 4..]) == ".dll" then name else name + ".dll"
  }

  /** parseOne, at a directive. */
  function ParseOne(c: Config, ts: seq<Token>, is64: bool): (r: Parsed<Config>)
    requires ts != []
    ensures |r.rest| < |ts|
  {
    match ts[0]
    case Kw(Exports) => ParseExports(c, ts[1..], is64)
    case Kw(Heapsize) =>
      var p := ParseNumbers(Numbers(c.heapReserve, c.heapCommit), ts[1..]);
      if p.value.None? then Parsed(None, p.rest)
      else Parsed(Some(c.(heapReserve := p.value.value.reserve, heapCommit := p.value.value.commit)), p.rest)
    case Kw(Stacksize) =>
      var p := ParseNumbers(Numbers(c.stackReserve, c.stackCommit), ts[1..]);
      if p.value.None? then Parsed(None, p.rest)
      else Parsed(Some(c.(stackReserve := p.value.value.reserve, stackCommit := p.value.value.commit)), p.rest)
    case Kw(Library) =>
      var p := ParseName(c, ts[1..]);
      if p.value.None? then p
      else Parsed(Some(p.value.value.(outputFile := WithDll(p.value.value.outputFile))), p.rest)
    case Kw(Name) => ParseName(c, ts[1..])
    case Kw(Version) => ParseVersion(c, ts[1..])
    case _ => Parsed(None, ts[1..])
  }

  /** parse: None is an error. */
  function Parse(c: Config, ts: seq<Token>, is64: bool): (r: Option<Config>)
    decreases |ts|
  {
    if ts == [] then Some(c)
    else
      var p := ParseOne(c, ts, is64);
      if p.value.None? then None else Parse(p.value.value, p.rest, is64)
  }
}
