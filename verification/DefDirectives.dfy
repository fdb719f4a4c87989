/** What the directives of a module-definition file other than EXPORTS say
    (COFF/ModuleDef.cpp): sizes, versions and image bases written in decimal. */
module DefDirectives {
  import opened Common
  import opened ModuleDef
  import opened DefRoundTrip

  function Decimal(n: nat): (t: Token) {
    Identifier(Show(n))
  }

  lemma ReadsNumber(n: nat, bound: nat)
    ensures GetAsInteger(Show(n), bound) == if n < bound then Some(n) else None
  {
    ShowReads(n);
  }

  lemma ReadsInt(n: nat, ts: seq<Token>)
    ensures ReadAsInt([Decimal(n)] + ts) == (if n < 0x1_0000_0000_0000_0000 then Some(n) else None) && Rest([Decimal(n)] + ts) == ts
  {
    ReadsNumber(n, 0x1_0000_0000_0000_0000);
    assert ([Decimal(n)] + ts)[1..] == ts;
  }

  /** Two sizes are read back if and only if both fit in 64 bits. */
  lemma SizesAreRead(c: Config, reserve: nat, commit: nat, is64: bool)
    ensures var ts := [Decimal(reserve), Comma, Decimal(commit)];
      var fit := reserve < 0x1_0000_0000_0000_0000 && commit < 0x1_0000_0000_0000_0000;
      && Parse(c, [Kw(Heapsize)] + ts, is64)
           == (if fit then Some(c.(heapReserve := reserve, heapCommit := commit)) else None)
      && Parse(c, [Kw(Stacksize)] + ts, is64)
           == (if fit then Some(c.(stackReserve := reserve, stackCommit := commit)) else None)
  {
    hide Show, GetAsInteger;
    var ts := [Decimal(reserve), Comma, Decimal(commit)];
    var more := [Decimal(commit)];
    ReadsInt(reserve, [Comma] + more);
    ReadsInt(commit, []);
    assert ts == [Decimal(reserve)] + ([Comma] + more) && ([Comma] + more)[1..] == more && more + [] == more;
    ReadsPair(ts, reserve, commit, Numbers(c.heapReserve, c.heapCommit));
    ReadsPair(ts, reserve, commit, Numbers(c.stackReserve, c.stackCommit));
    assert ([Kw(Heapsize)] + ts)[1..] == ts && ([Kw(Stacksize)] + ts)[1..] == ts;
  }

  lemma ReadsPair(ts: seq<Token>, reserve: nat, commit: nat, old_: Numbers)
    requires ReadAsInt(ts) == (if reserve < 0x1_0000_0000_0000_0000 then Some(reserve) else None) && First(Rest(ts)) == Comma
    requires ReadAsInt(Rest(Rest(ts))) == (if commit < 0x1_0000_0000_0000_0000 then Some(commit) else None)
    requires Rest(Rest(Rest(ts))) == []
    ensures ParseNumbers(old_, ts).value
         == if reserve < 0x1_0000_0000_0000_0000 && commit < 0x1_0000_0000_0000_0000 then Some(Numbers(reserve, commit)) else None
    ensures ParseNumbers(old_, ts).value.Some? ==> ParseNumbers(old_, ts).rest == []
  {
  }

  /** One size alone leaves the commit size as it was; it is 0 afterwards, as meant,
      if and only if it was 0 before. */
  lemma CommitIsKept(c: Config, reserve: nat, is64: bool)
    requires reserve < 0x1_0000_0000_0000_0000
    ensures var r := Parse(c, [Kw(Heapsize), Decimal(reserve)], is64);
      r == Some(c.(heapReserve := reserve)) && (r.value.heapCommit == 0 <==> c.heapCommit == 0)
    ensures var r := Parse(c, [Kw(Stacksize), Decimal(reserve)], is64);
      r == Some(c.(stackReserve := reserve)) && (r.value.stackCommit == 0 <==> c.stackCommit == 0)
  {
    hide Show, GetAsInteger;
    var ts := [Decimal(reserve)];
    ReadsInt(reserve, []);
    assert ts + [] == ts;
    assert [Kw(Heapsize), Decimal(reserve)][1..] == ts && [Kw(Stacksize), Decimal(reserve)][1..] == ts;
    assert ParseNumbers(Numbers(c.heapReserve, c.heapCommit), ts) == Parsed(Some(Numbers(reserve, c.heapCommit)), []);
    assert ParseNumbers(Numbers(c.stackReserve, c.stackCommit), ts) == Parsed(Some(Numbers(reserve, c.stackCommit)), []);
  }

  /** A name with a base is read back if and only if the base fits in 64 bits; a
      name alone clears the base. */
  lemma NamesAreRead(c: Config, name: string, base: nat, is64: bool)
    ensures Parse(c, [Kw(Name), Identifier(name)], is64) == Some(c.(outputFile := name, imageBase := 0))
    ensures Parse(c, [Kw(Name), Identifier(name), Kw(Base), Equal, Decimal(base)], is64)
         == if base < 0x1_0000_0000_0000_0000 then Some(c.(outputFile := name, imageBase := base)) else None
  {
    hide Show, GetAsInteger;
    var ts := [Identifier(name), Kw(Base), Equal, Decimal(base)];
    assert [Kw(Name), Identifier(name)][1..] == [Identifier(name)];
    assert [Kw(Name), Identifier(name), Kw(Base), Equal, Decimal(base)][1..] == ts;
    assert ts[1..] == [Kw(Base), Equal, Decimal(base)] && ts[2..] == [Equal, Decimal(base)] && ts[3..] == [Decimal(base)];
    ReadsInt(base, []);
    assert [Decimal(base)] + [] == [Decimal(base)];
  }

  lemma {:induction false} DigitsHoldNoDot(s: string)
    requires forall i :: 0 <= i < |s| ==> IsDigit(s[i])
    ensures '.' !in s && Until(s, '.') == |s|
    decreases |s|
  {
    if s != "" {
      assert IsDigit(s[0]);
      DigitsHoldNoDot(s[1..]);
    }
  }

  lemma SplitsAtDot(a: string, b: string)
    requires '.' !in a
    ensures var s := a + "." + b; Until(s, '.') == |a| && s[..|a|] == a && s[|a| + 1..] == b
  {
    assert a + "." + b == a + ("." + b);
    UntilIs(a, '.', "." + b);
  }

  lemma OneDirective(c: Config, t: Token, is64: bool)
    ensures Parse(c, [Kw(Version), t], is64)
         == var p := ParseVersion(c, [t]); if p.value.None? then None else Parse(p.value.value, p.rest, is64)
  {
    hide ParseVersion;
    assert [Kw(Version), t][1..] == [t];
  }

  lemma ReadsVersion(c: Config, major: nat, minor: nat)
    ensures ParseVersion(c, [Identifier(Show(major) + "." + Show(minor))])
         == Parsed(if major < 0x1_0000_0000 && minor < 0x1_0000_0000 then Some(c.(major := major, minor := minor)) else None, [])
  {
    DigitsHoldNoDot(Show(major));
    ReadsNumber(major, 0x1_0000_0000);
    ReadsNumber(minor, 0x1_0000_0000);
    SplitsAtDot(Show(major), Show(minor));
    assert Show(minor) != "";
    hide Show, GetAsInteger, Until;
    assert [Identifier(Show(major) + "." + Show(minor))][1..] == [];
  }

  lemma ReadsMajor(c: Config, major: nat)
    ensures ParseVersion(c, [Decimal(major)])
         == Parsed(if major < 0x1_0000_0000 then Some(c.(major := major, minor := 0)) else None, [])
  {
    DigitsHoldNoDot(Show(major));
    ReadsNumber(major, 0x1_0000_0000);
    assert Show(major)[..|Show(major)|] == Show(major);
    hide Show, GetAsInteger, Until;
    assert [Decimal(major)][1..] == [];
  }

  /** A version is read back if and only if both numbers fit in 32 bits; without a
      minor number it is 0. */
  lemma VersionsAreRead(c: Config, major: nat, minor: nat, is64: bool)
    ensures Parse(c, [Kw(Version), Identifier(Show(major) + "." + Show(minor))], is64)
         == if major < 0x1_0000_0000 && minor < 0x1_0000_0000 then Some(c.(major := major, minor := minor)) else None
    ensures Parse(c, [Kw(Version), Decimal(major)], is64)
         == if major < 0x1_0000_0000 then Some(c.(major := major, minor := 0)) else None
  {
    OneDirective(c, Identifier(Show(major) + "." + Show(minor)), is64);
    OneDirective(c, Decimal(major), is64);
    ReadsVersion(c, major, minor);
    ReadsMajor(c, major);
    hide ParseVersion, Show;
  }

  // ----- exports and library names -----

  /** An ordinal is read if it fits in sixteen bits; otherwise the export keeps the
      one it had. */
  lemma OrdinalIsRead(e: Export, n: nat)
    ensures ParseAttributes(e, [Identifier("@" + Show(n))]) ==
      Parsed(Some(if n < 0x1_0000 then e.(ordinal := n) else e), [])
  {
    var t := Identifier("@" + Show(n));
    ReadsNumber(n, 0x1_0000);
    assert t.text[1..] == Show(n);
    assert [t][1..] == [];
    hide Show, GetAsInteger;
    assert ParseAttributes(e.(ordinal := OrdinalOf(t, e.ordinal)), []).rest == [];
    assert e.(ordinal := e.ordinal) == e;
  }

  /** After an equals sign stands the symbol's own name, before it the name it is
      exported under; without one both are the same. */
  lemma RenamedIsRead(ext: string, name: string, ts: seq<Token>)
    requires First(ts) != Equal && !IsOrdinal(First(ts)) && First(ts) != Kw(Data) && First(ts) != Kw(Private)
    ensures ParseExport([Identifier(ext), Equal, Identifier(name)] + ts, true)
         == Parsed(Some(Export(ext, name, 0, false, false, false)), ts)
    ensures ParseExport([Identifier(ext)] + ts, true) == Parsed(Some(Export(ext, ext, 0, false, false, false)), ts)
  {
    assert ([Identifier(ext), Equal, Identifier(name)] + ts)[3..] == ts && ([Identifier(ext)] + ts)[1..] == ts;
    assert First(([Identifier(ext), Equal, Identifier(name)] + ts)[2..]) == Identifier(name);
    hide IsOrdinal;
  }

  /** On 32-bit targets a name gets an underscore unless it starts with _@?. */
  lemma NamesAreDecorated(ext: string, name: string, ts: seq<Token>)
    requires First(ts) != Equal && !IsOrdinal(First(ts)) && First(ts) != Kw(Data) && First(ts) != Kw(Private)
    ensures var r := ParseExport([Identifier(ext), Equal, Identifier(name)] + ts, false);
      && r.value.Some? && r.rest == ts && r.value.value.extName == ext
      && (r.value.value.name == name <==> |name| >= 3 && name[..3] == "_@?")
      && (r.value.value.name == name || r.value.value.name == "_" + name)
  {
    assert ([Identifier(ext), Equal, Identifier(name)] + ts)[3..] == ts;
    assert First(([Identifier(ext), Equal, Identifier(name)] + ts)[2..]) == Identifier(name);
    hide IsOrdinal;
    assert |"_" + name| != |name|;
    assert "_@?" <= name <==> |name| >= 3 && name[..3] == "_@?";
  }

  predicate EndsInDll(s: string) {
    |s| >= 4 && s[|s| - 4] == '.' && s[|s| - 3] in "dD" && s[|s| - 2] in "lL" && s[|s| - 1] in "lL"
  }

  /** The output of a library ends in .dll, in any case, and a name that already does
      is kept. */
  lemma LibraryIsRead(c: Config, library: string, is64: bool)
    ensures var r := Parse(c, [Kw(Library), Identifier(library)], is64);
      && r.Some? && r.value == c.(outputFile := r.value.outputFile, imageBase := 0)
      && EndsInDll(r.value.outputFile) && library <= r.value.outputFile
      && (r.value.outputFile == library <==> EndsInDll(library))
      && |r.value.outputFile| <= |library| + 4
  {
    assert [Kw(Library), Identifier(library)][1..] == [Identifier(library)];
    assert ParseOne(c, [Kw(Library), Identifier(library)], is64).rest == [];
    WithDllEnds(library);
  }

  lemma WithDllEnds(s: string)
    ensures EndsInDll(WithDll(s)) && s <= WithDll(s) && |WithDll(s)| <= |s| + 4
    ensures WithDll(s) == s <==> EndsInDll(s)
  {
    if |s| >= 4 {
      LowerEnds(s);
    }
  }

  lemma LowerEnds(s: string)
    requires |s| >= 4
    ensures Lower(s[|s| - 4..]) == ".dll" <==> EndsInDll(s)
  {
    var t, l := s[|s| - 4..], Lower(s[|s| - 4..]);
    assert t[0] == s[|s| - 4] && t[1] == s[|s| - 3] && t[2] == s[|s| - 2] && t[3] == s[|s| - 1];
    if EndsInDll(s) {
      assert l[0] == '.' && l[1] == 'd' && l[2] == 'l' && l[3] == 'l';
    }
    if l == ".dll" {
      assert l[0] == '.' && l[1] == 'd' && l[2] == 'l' && l[3] == 'l';
    }
  }

  // ----- directives as text -----

  lemma NoKeyword(w: string)
    requires w != "" && IsDigit(w[0])
    ensures WordToken(w) == Identifier(w)
  {
  }

  predicate PlainWord(w: string) {
    forall i :: 0 <= i < |w| ==> PlainChar(w[i])
  }

  lemma DigitsArePlain(n: nat)
    ensures PlainWord(Show(n)) && IsDigit(Show(n)[0])
  {
    forall i | 0 <= i < |Show(n)| ensures PlainChar(Show(n)[i]) {
      assert IsDigit(Show(n)[i]);
    }
  }

  lemma NumberIsWord(n: nat)
    ensures Word(Show(n)) && WordToken(Show(n)) == Decimal(n)
  {
    DigitsArePlain(n);
    NoKeyword(Show(n));
    hide Show, WordToken, PlainChar;
  }

  lemma VersionIsWord(major: nat, minor: nat)
    ensures var w := Show(major) + "." + Show(minor); Word(w) && WordToken(w) == Identifier(w)
  {
    var a, b := Show(major), Show(minor);
    DigitsArePlain(major);
    DigitsArePlain(minor);
    assert PlainChar('.');
    hide Show, WordToken, PlainChar;
    assert (a + "." + b)[0] == a[0];
    NoKeyword(a + "." + b);
  }

  lemma DirectiveWords()
    ensures Word("HEAPSIZE") && Word("STACKSIZE") && Word("NAME") && Word("BASE") && Word("VERSION")
    ensures WordToken("HEAPSIZE") == Kw(Heapsize) && WordToken("STACKSIZE") == Kw(Stacksize)
    ensures WordToken("NAME") == Kw(Name) && WordToken("BASE") == Kw(Base) && WordToken("VERSION") == Kw(Version)
  {
    hide Word;
    UpperCaseIsWord("HEAPSIZE");
    UpperCaseIsWord("STACKSIZE");
    UpperCaseIsWord("NAME");
    UpperCaseIsWord("BASE");
    UpperCaseIsWord("VERSION");
  }

  /** A directive's word, a space, and the rest. */
  lemma LexesDirective(w: string, tail: string)
    requires Word(w)
    ensures TokensOf(w + (" " + tail)) == [WordToken(w)] + TokensOf(tail)
  {
    hide TokensOf, Word, WordToken;
    assert "" + w + (" " + tail) == w + (" " + tail);
    LexesWord("", w, " " + tail);
    SkipsSpace(" ", tail);
  }

  lemma LexesLast(w: string)
    requires Word(w)
    ensures TokensOf(w) == [WordToken(w)]
  {
    hide Word, WordToken;
    assert "" + w + "" == w;
    LexesWord("", w, "");
    LexesNothing("");
  }

  lemma LexesPair(reserve: nat, commit: nat)
    ensures TokensOf(Show(reserve) + ("," + Show(commit))) == [Decimal(reserve), Comma, Decimal(commit)]
  {
    hide TokensOf, Word, WordToken, Show;
    NumberIsWord(reserve);
    NumberIsWord(commit);
    assert "" + Show(reserve) + ("," + Show(commit)) == Show(reserve) + ("," + Show(commit));
    LexesWord("", Show(reserve), "," + Show(commit));
    assert "" + "," + Show(commit) == "," + Show(commit);
    LexesSign("", ',', Show(commit));
    LexesLast(Show(commit));
  }

  /** The text of a directive with two sizes sets them, if they fit. */
  lemma SizesText(c: Config, reserve: nat, commit: nat, is64: bool)
    requires reserve < 0x1_0000_0000_0000_0000 && commit < 0x1_0000_0000_0000_0000
    ensures Parse(c, TokensOf("HEAPSIZE " + Show(reserve) + "," + Show(commit)), is64)
         == Some(c.(heapReserve := reserve, heapCommit := commit))
    ensures Parse(c, TokensOf("STACKSIZE " + Show(reserve) + "," + Show(commit)), is64)
         == Some(c.(stackReserve := reserve, stackCommit := commit))
  {
    hide TokensOf, Word, WordToken, Show, Parse;
    var pair := Show(reserve) + ("," + Show(commit));
    DirectiveWords();
    LexesPair(reserve, commit);
    LexesDirective("HEAPSIZE", pair);
    LexesDirective("STACKSIZE", pair);
    assert "HEAPSIZE " + Show(reserve) + "," + Show(commit) == "HEAPSIZE" + (" " + pair);
    assert "STACKSIZE " + Show(reserve) + "," + Show(commit) == "STACKSIZE" + (" " + pair);
    SizesAreRead(c, reserve, commit, is64);
  }

  /** The text of a name with its base sets both, if the base fits. */
  lemma NameText(c: Config, name: string, base: nat, is64: bool)
    requires ExportName(name) && base < 0x1_0000_0000_0000_0000
    ensures Parse(c, TokensOf("NAME " + name + " BASE=" + Show(base)), is64)
         == Some(c.(outputFile := name, imageBase := base))
  {
    hide TokensOf, Word, WordToken, Show, Parse;
    DirectiveWords();
    NumberIsWord(base);
    LexesLast(Show(base));
    assert "" + "=" + Show(base) == "=" + Show(base);
    LexesSign("", '=', Show(base));
    assert "" + "BASE" + ("=" + Show(base)) == "BASE" + ("=" + Show(base));
    LexesWord("", "BASE", "=" + Show(base));
    LexesDirective(name, "BASE" + ("=" + Show(base)));
    LexesDirective("NAME", name + (" " + ("BASE" + ("=" + Show(base)))));
    assert "NAME " + name + " BASE=" + Show(base) == "NAME" + (" " + (name + (" " + ("BASE" + ("=" + Show(base))))));
    assert [Kw(Name)] + ([Identifier(name)] + ([Kw(Base)] + ([Equal] + [Decimal(base)])))
        == [Kw(Name), Identifier(name), Kw(Base), Equal, Decimal(base)];
    NamesAreRead(c, name, base, is64);
  }

  /** The text of a version sets both numbers, if they fit. */
  lemma VersionText(c: Config, major: nat, minor: nat, is64: bool)
    requires major < 0x1_0000_0000 && minor < 0x1_0000_0000
    ensures Parse(c, TokensOf("VERSION " + Show(major) + "." + Show(minor)), is64)
         == Some(c.(major := major, minor := minor))
  {
    hide TokensOf, Word, WordToken, Show, Parse;
    var v := Show(major) + "." + Show(minor);
    DirectiveWords();
    VersionIsWord(major, minor);
    LexesLast(v);
    LexesDirective("VERSION", v);
    assert "VERSION " + Show(major) + "." + Show(minor) == "VERSION" + (" " + v);
    assert [Kw(Version)] + [Identifier(v)] == [Kw(Version), Identifier(v)];
    VersionsAreRead(c, major, minor, is64);
  }
}
