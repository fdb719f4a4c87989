/** What the module-definition file the linker writes for lib.exe
    (COFF/DriverUtils.cpp) says to the reader of COFF/ModuleDef.cpp. */
module DefRoundTrip {
  import opened Common
  import opened ModuleDef

  // ----- the writer -----

  function Show(n: nat): (s: string)
    ensures s != "" && forall i :: 0 <= i < |s| ==> IsDigit(s[i])
    decreases n
  {
    var last := [('0' as int + n % 10) as char];
    if n < 10 then last else Show(n / 10) + last
  }

  lemma {:induction false} ShowReads(n: nat)
    ensures Digits(Show(n)) == n
    decreases n
  {
    var s := Show(n);
    if n >= 10 {
      ShowReads(n / 10);
      assert s[..|s| - 1] == Show(n / 10);
    }
  }

  function Flag(on: bool, text: string): (s: string) {
    if on then " " + text else ""
  }

  function OrdinalText(n: nat): (s: string) {
    Flag(n > 0, "@" + Show(n))
  }

  function Line(e: Export): (s: string) {
    "  " + e.extName + OrdinalText(e.ordinal) + Flag(e.noname, "NONAME") + Flag(e.data, "DATA")
    + Flag(e.isPrivate, "PRIVATE") + "\n"
  }

  function Lines(es: seq<Export>): (s: string) {
    if es == [] then "" else Line(es[0]) + Lines(es[1..])
  }

  lemma {:induction false} LinesSnoc(es: seq<Export>, e: Export)
    ensures Lines(es + [e]) == Lines(es) + Line(e)
  {
    hide Line;
    if es == [] {
      assert [e][1..] == [];
    } else {
      assert (es + [e])[1..] == es[1..] + [e];
      LinesSnoc(es[1..], e);
      Associates(Line(es[0]), Lines(es[1..]), Line(e));
    }
  }

  /** createModuleDefinitionFile, given the file name of the output. */
  function Write(library: string, es: seq<Export>): (s: string) {
    "LIBRARY \"" + library + "\"\n" + "EXPORTS\n" + Lines(es)
  }

  // ----- trimming -----

  predicate AllSpace(s: string) {
    forall i :: 0 <= i < |s| ==> IsSpace(s[i])
  }

  lemma {:induction false} TrimLeftOf(pre: string, s: string)
    requires AllSpace(pre)
    ensures TrimLeft(pre + s) == TrimLeft(s)
    decreases |pre|
  {
    if pre == "" {
      assert pre + s == s;
    } else {
      assert (pre + s)[1..] == pre[1..] + s;
      TrimLeftOf(pre[1..], s);
    }
  }

  lemma {:induction false} TrimRightOf(s: string, post: string)
    requires AllSpace(post)
    ensures TrimRight(s + post) == TrimRight(s)
    decreases |post|
  {
    if post == "" {
      assert s + post == s;
    } else {
      assert (s + post)[..|s + post| - 1] == s + post[..|post| - 1];
      TrimRightOf(s, post[..|post| - 1]);
    }
  }

  /** Trimming on the right stops at the last character of s that stays. */
  lemma {:induction false} TrimRightKeeps(s: string, t: string)
    requires s != "" && !IsSpace(s[|s| - 1])
    ensures TrimRight(s + t) == s + TrimRight(t)
    decreases |t|
  {
    if t == "" {
      assert s + t == s;
    } else if IsSpace(t[|t| - 1]) {
      assert (s + t)[..|s + t| - 1] == s + t[..|t| - 1];
      TrimRightKeeps(s, t[..|t| - 1]);
    }
  }

  lemma Split(s: string) returns (pre: string, post: string)
    ensures AllSpace(pre) && AllSpace(post) && s == pre + Trim(s) + post
    ensures TrimRight(s) == "" || TrimRight(s) == pre + Trim(s)
    ensures TrimRight(s) == "" <==> Trim(s) == ""
  {
    hide TrimLeft, IsSpace;
    pre := Leading(s);
    var t := TrimLeft(s);
    post := Trailing(t);
    var mid := Trim(s);
    assert t == mid + post && s == (pre + mid) + post;
    TrimRightOf(pre + mid, post);
    if mid == "" {
      assert pre + mid == "" + pre;
      TrimRightOf("", pre);
    } else {
      EndsLike(pre, mid);
    }
  }

  lemma EndsLike(pre: string, mid: string)
    requires mid != "" && !IsSpace(mid[|mid| - 1])
    ensures TrimRight(pre + mid) == pre + mid
  {
  }

  lemma {:induction false} Leading(s: string) returns (pre: string)
    ensures AllSpace(pre) && s == pre + TrimLeft(s)
    decreases |s|
  {
    if s != "" && IsSpace(s[0]) {
      var rest := Leading(s[1..]);
      pre := [s[0]] + rest;
    } else {
      pre := "";
    }
  }

  lemma {:induction false} Trailing(s: string) returns (post: string)
    ensures AllSpace(post) && s == TrimRight(s) + post
    decreases |s|
  {
    hide IsSpace;
    if s != "" && IsSpace(s[|s| - 1]) {
      var rest := Trailing(s[..|s| - 1]);
      post := rest + [s[|s| - 1]];
      assert s == s[..|s| - 1] + [s[|s| - 1]];
    } else {
      post := "";
    }
  }

  /** Trimming the right end first changes nothing. */
  lemma {:induction false} TrimTrimRight(s: string)
    ensures Trim(TrimRight(s)) == Trim(s)
  {
    var pre, post := Split(s);
    if Trim(s) == "" {
    } else {
      TrimLeftOf(pre, Trim(s));
      TrimLeftOf(pre, Trim(s) + post);
      assert s == pre + (Trim(s) + post);
      assert TrimLeft(Trim(s)) == Trim(s) by { TrimStarts(s); }
      TrimRightIsDone(TrimLeft(s));
    }
  }

  lemma TrimStarts(s: string)
    requires Trim(s) != ""
    ensures TrimLeft(Trim(s)) == Trim(s)
  {
    assert Trim(s)[0] == TrimLeft(s)[0];
  }

  lemma TrimRightIsDone(s: string)
    ensures TrimRight(TrimRight(s)) == TrimRight(s)
  {
  }

  /** Only the trimmed buffer matters. */
  lemma SameTokens(s: string, t: string)
    requires Trim(s) == Trim(t)
    ensures TokensOf(s) == TokensOf(t)
  {
  }

  // ----- reading one piece of text -----

  predicate PlainChar(c: char) {
    !IsSpace(c) && !EndsWord(c)
  }

  /** A word that lexes as itself. */
  predicate Word(w: string) {
    && w != "" && w[0] != '\0' && w[0] != ';' && w[0] != '"'
    && forall i :: 0 <= i < |w| ==> PlainChar(w[i])
  }

  lemma TrimWord(pre: string, w: string, tail: string)
    requires AllSpace(pre) && Word(w)
    ensures Trim(pre + w + tail) == w + TrimRight(tail)
  {
    assert pre + w + tail == pre + (w + tail);
    TrimLeftOf(pre, w + tail);
    assert PlainChar(w[0]) && PlainChar(w[|w| - 1]);
    assert (w + tail)[0] == w[0];
    assert TrimLeft(w + tail) == w + tail;
    TrimRightKeeps(w, tail);
  }

  lemma LexTrimmedWord(buf: string, w: string, r: string)
    requires Word(w) && Trim(buf) == w + r && (r != "" ==> EndsWord(r[0]))
    ensures Lex(buf) == Lexed(WordToken(w), r)
  {
    hide Trim, WordToken;
    assert PlainChar(w[0]);
    WordEnds(w, r);
    assert (w + r)[..|w|] == w && (w + r)[|w|..] == r;
    assert (w + r)[0] == w[0];
  }

  lemma LexesWord(pre: string, w: string, tail: string)
    requires AllSpace(pre) && Word(w) && (tail != "" ==> EndsWord(tail[0]))
    ensures TokensOf(pre + w + tail) == [WordToken(w)] + TokensOf(tail)
  {
    var r := TrimRight(tail);
    hide Lex, TrimRight, Trim, WordToken;
    TrimWord(pre, w, tail);
    LexTrimmedWord(pre + w + tail, w, r);
    NeverEof(w);
    TrimTrimRight(tail);
    SameTokens(r, tail);
  }

  /** A comma or an equals sign is a token by itself. */
  lemma LexesSign(pre: string, c: char, tail: string)
    requires AllSpace(pre) && c in ",="
    ensures TokensOf(pre + [c] + tail) == [if c == ',' then Comma else Equal] + TokensOf(tail)
  {
    hide TrimRight, Trim;
    assert pre + [c] + tail == pre + ([c] + tail);
    assert !IsSpace(c);
    TrimsTo(pre, [c] + tail);
    TrimRightKeeps([c], tail);
    var r := TrimRight(tail);
    assert ([c] + r)[1..] == r;
    assert Lex(pre + [c] + tail) == Lexed(if c == ',' then Comma else Equal, r);
    TrimTrimRight(tail);
    SameTokens(r, tail);
  }

  lemma NeverEof(w: string)
    ensures WordToken(w) != Eof
  {
  }

  lemma {:induction false} WordEnds(w: string, r: string)
    requires forall i :: 0 <= i < |w| ==> !EndsWord(w[i])
    requires r != "" ==> EndsWord(r[0])
    ensures WordLength(w + r) == |w|
    decreases |w|
  {
    if w == "" {
      assert w + r == r;
    } else {
      assert (w + r)[1..] == w[1..] + r;
      WordEnds(w[1..], r);
    }
  }

  lemma TrimQuoted(pre: string, s: string, tail: string)
    requires AllSpace(pre)
    ensures Trim(pre + "\"" + s + "\"" + tail) == "\"" + s + "\"" + TrimRight(tail)
  {
    var q := "\"" + s + "\"";
    assert pre + "\"" + s + "\"" + tail == pre + (q + tail);
    TrimLeftOf(pre, q + tail);
    assert TrimLeft(q + tail) == q + tail;
    TrimRightKeeps(q, tail);
  }

  lemma LexTrimmedQuoted(buf: string, s: string, r: string)
    requires '"' !in s && Trim(buf) == "\"" + s + "\"" + r
    ensures Lex(buf) == Lexed(Identifier(s), r)
  {
    hide Trim, WordToken;
    var t := Trim(buf);
    assert t[0] == '"' && t[1..] == s + ("\"" + r);
    UntilIs(s, '"', "\"" + r);
    assert t[1..][..|s|] == s && t[|s| + 2..] == r;
  }

  lemma LexesQuoted(pre: string, s: string, tail: string)
    requires AllSpace(pre) && '"' !in s
    ensures TokensOf(pre + "\"" + s + "\"" + tail) == [Identifier(s)] + TokensOf(tail)
  {
    hide Lex, TrimRight, Trim;
    var r := TrimRight(tail);
    TrimQuoted(pre, s, tail);
    LexTrimmedQuoted(pre + "\"" + s + "\"" + tail, s, r);
    TrimTrimRight(tail);
    SameTokens(r, tail);
  }

  lemma {:induction false} UntilIs(s: string, c: char, r: string)
    requires c !in s && r != "" && r[0] == c
    ensures Until(s + r, c) == |s|
    decreases |s|
  {
    if s == "" {
      assert s + r == r;
    } else {
      assert (s + r)[1..] == s[1..] + r;
      UntilIs(s[1..], c, r);
    }
  }

  lemma LexesNothing(s: string)
    requires AllSpace(s)
    ensures TokensOf(s) == []
  {
    assert s == s + "";
    TrimLeftOf(s, "");
  }

  lemma SkipsSpace(pre: string, tail: string)
    requires AllSpace(pre)
    ensures TokensOf(pre + tail) == TokensOf(tail)
  {
    TrimLeftOf(pre, tail);
    SameTokens(pre + tail, tail);
  }

  // ----- comments and the end of the text -----

  /** A comment runs to the end of its line, whatever it holds, and what follows is
      read as if it were not there. */
  lemma SkipsComment(pre: string, c: string, tail: string)
    requires AllSpace(pre) && '\n' !in c
    ensures TokensOf(pre + ";" + c + "\n" + tail) == TokensOf(tail)
  {
    hide Trim, TokensOf, TrimLeft, TrimRight;
    var line := ";" + c + "\n";
    var buf := pre + ";" + c + "\n" + tail;
    assert buf == pre + (line + tail);
    TrimsTo(pre, line + tail);
    if Trim(tail) == "" {
      BlankTail(c, tail);
      CommentAtEnd(buf, c);
      NoTokens(tail);
    } else {
      TrimRightInside(line, tail);
      assert line + TrimRight(tail) == ";" + c + ("\n" + TrimRight(tail));
      CommentEnds(buf, c, "\n" + TrimRight(tail));
      SkipsSpace("\n", TrimRight(tail));
      TrimTrimRight(tail);
      SameTokens(TrimRight(tail), tail);
    }
  }

  lemma TrimsTo(pre: string, s: string)
    requires AllSpace(pre) && s != "" && !IsSpace(s[0])
    ensures Trim(pre + s) == TrimRight(s)
  {
    TrimLeftOf(pre, s);
  }

  lemma CommentEnds(buf: string, c: string, r: string)
    requires Trim(buf) == ";" + c + r && '\n' !in c && r != "" && r[0] == '\n'
    ensures TokensOf(buf) == TokensOf(r)
  {
    hide Trim;
    var s := Trim(buf);
    UntilIs(";" + c, '\n', r);
    assert s == (";" + c) + r && s[|c| + 1..] == r;
    assert Lex(buf) == Lex(r);
  }

  /** A comment without a line after it ends the text. */
  lemma CommentAtEnd(buf: string, c: string)
    requires Trim(buf) == ";" + TrimRight(c) && '\n' !in c
    ensures TokensOf(buf) == []
  {
    hide Trim, TrimLeft;
    var s := Trim(buf);
    assert TrimRight(c) == c[..|TrimRight(c)|];
    assert s[0] == ';' && '\n' !in s && Until(s, '\n') == |s|;
    assert s[|s|..] == "";
    assert Lex("") == Lexed(Eof, "") by { NothingToLex(); }
  }

  lemma NothingToLex()
    ensures Lex("") == Lexed(Eof, "")
  {
  }

  lemma NoTokens(s: string)
    requires Trim(s) == ""
    ensures TokensOf(s) == []
  {
  }

  lemma BlankTail(c: string, tail: string)
    requires Trim(tail) == ""
    ensures TrimRight(";" + c + "\n" + tail) == ";" + TrimRight(c)
  {
    hide Trim, TrimLeft, TrimRight;
    var pre, post := Split(tail);
    assert tail == pre + post;
    var blank := "\n" + tail;
    assert AllSpace(blank);
    assert ";" + c + "\n" + tail == (";" + c) + blank;
    TrimRightOf(";" + c, blank);
    TrimRightKeeps(";", c);
  }

  lemma TrimRightInside(line: string, tail: string)
    requires Trim(tail) != ""
    ensures TrimRight(line + tail) == line + TrimRight(tail)
  {
    hide TrimLeft, TrimRight;
    var pre, post := Split(tail);
    var mid := Trim(tail);
    assert line + tail == ((line + pre) + mid) + post;
    TrimRightOf((line + pre) + mid, post);
    EndsLike(line + pre, mid);
    assert (line + pre) + mid == line + (pre + mid);
  }

  /** The text ends at a zero character between its tokens. */
  lemma StopsAtZero(pre: string, tail: string)
    requires AllSpace(pre)
    ensures TokensOf(pre + "\0" + tail) == []
  {
    hide TrimLeft, TrimRight;
    assert pre + "\0" + tail == pre + ("\0" + tail);
    TrimsTo(pre, "\0" + tail);
    TrimRightKeeps("\0", tail);
    hide Trim;
    assert Trim(pre + "\0" + tail)[0] == '\0';
  }

  // ----- the tokens of the whole file -----

  /** A name the lexer reads as one: a plain word, no keyword. */
  predicate ExportName(n: string) {
    Word(n) && WordToken(n) == Identifier(n)
  }

  /** What the reader of attributes takes for an ordinal. */
  predicate AtName(n: string) {
    n != "" && n[0] == '@'
  }

  /** No name but the first starts with @. */
  predicate NoLaterAt(es: seq<Export>) {
    forall k :: 1 <= k < |es| ==> !AtName(es[k].extName)
  }

  function If(on: bool, t: Token): (ts: seq<Token>) {
    if on then [t] else []
  }

  function FlagTokens(e: Export): (ts: seq<Token>) {
    If(e.noname, Kw(Noname)) + If(e.data, Kw(Data)) + If(e.isPrivate, Kw(Private))
  }

  function LineTokens(e: Export): (ts: seq<Token>)
    ensures First(ts) == Identifier(e.extName)
  {
    [Identifier(e.extName)] + If(e.ordinal > 0, Identifier("@" + Show(e.ordinal))) + FlagTokens(e)
  }

  function LinesTokens(es: seq<Export>): (ts: seq<Token>)
    ensures es != [] ==> First(ts) == Identifier(es[0].extName)
    ensures es == [] ==> ts == []
  {
    if es == [] then [] else LineTokens(es[0]) + LinesTokens(es[1..])
  }

  predicate StartsWithSpace(s: string) {
    s != "" && IsSpace(s[0]) && EndsWord(s[0])
  }

  lemma LexesFlag(on: bool, w: string, tail: string)
    requires Word(w) && StartsWithSpace(tail)
    ensures TokensOf(Flag(on, w) + tail) == If(on, WordToken(w)) + TokensOf(tail)
    ensures StartsWithSpace(Flag(on, w) + tail)
  {
    if on {
      assert Flag(on, w) + tail == " " + w + tail;
      hide TokensOf, WordToken, Word;
      LexesWord(" ", w, tail);
    } else {
      assert Flag(on, w) + tail == tail;
      hide TokensOf, WordToken, Word;
      assert If(on, WordToken(w)) + TokensOf(tail) == TokensOf(tail);
    }
  }

  lemma OrdinalIsWord(n: nat)
    ensures Word("@" + Show(n)) && WordToken("@" + Show(n)) == Identifier("@" + Show(n))
  {
    var w := "@" + Show(n);
    assert w[0] == '@';
    forall i | 0 <= i < |w| ensures PlainChar(w[i]) {
      if i > 0 {
        assert IsDigit(Show(n)[i - 1]);
      }
    }
  }

  /** What follows the name and the ordinal on a line. */
  function FlagText(e: Export): (s: string) {
    Flag(e.noname, "NONAME") + Flag(e.data, "DATA") + Flag(e.isPrivate, "PRIVATE") + "\n"
  }

  lemma LexesFlags(e: Export, tail: string)
    ensures TokensOf(FlagText(e) + tail) == FlagTokens(e) + TokensOf(tail)
    ensures StartsWithSpace(FlagText(e) + tail)
  {
    hide TokensOf, WordToken, Flag, Word;
    FlagWords();
    var t3 := "\n" + tail;
    SkipsSpace("\n", tail);
    var t2 := Flag(e.isPrivate, "PRIVATE") + t3;
    LexesFlag(e.isPrivate, "PRIVATE", t3);
    var t1 := Flag(e.data, "DATA") + t2;
    LexesFlag(e.data, "DATA", t2);
    LexesFlag(e.noname, "NONAME", t1);
    assert FlagText(e) + tail == Flag(e.noname, "NONAME") + t1;
    assert FlagTokens(e) + TokensOf(tail)
        == If(e.noname, Kw(Noname)) + (If(e.data, Kw(Data)) + (If(e.isPrivate, Kw(Private)) + TokensOf(tail)));
  }

  lemma LexesLine(e: Export, tail: string)
    requires ExportName(e.extName)
    ensures TokensOf(Line(e) + tail) == LineTokens(e) + TokensOf(tail)
  {
    hide TokensOf, WordToken, Show, Flag, Word, FlagTokens;
    var t2 := FlagText(e) + tail;
    LexesFlags(e, tail);
    var t1 := OrdinalText(e.ordinal) + t2;
    OrdinalIsWord(e.ordinal);
    LexesFlag(e.ordinal > 0, "@" + Show(e.ordinal), t2);
    assert Line(e) + tail == "  " + e.extName + t1;
    LexesWord("  ", e.extName, t1);
    assert LineTokens(e) + TokensOf(tail)
        == [Identifier(e.extName)] + (If(e.ordinal > 0, Identifier("@" + Show(e.ordinal))) + (FlagTokens(e) + TokensOf(tail)));
  }

  predicate UpperCase(w: string) {
    w != "" && forall i :: 0 <= i < |w| ==> 'A' <= w[i] <= 'Z'
  }

  lemma UpperCaseIsWord(w: string)
    requires UpperCase(w)
    ensures Word(w)
  {
    forall i | 0 <= i < |w| ensures PlainChar(w[i]) {
      assert 'A' <= w[i] <= 'Z';
    }
  }

  lemma FlagWords()
    ensures Word("PRIVATE") && Word("DATA") && Word("NONAME") && Word("LIBRARY") && Word("EXPORTS")
    ensures WordToken("PRIVATE") == Kw(Private) && WordToken("DATA") == Kw(Data) && WordToken("NONAME") == Kw(Noname)
    ensures WordToken("LIBRARY") == Kw(Library) && WordToken("EXPORTS") == Kw(Exports)
  {
    hide Word;
    UpperCaseIsWord("PRIVATE");
    UpperCaseIsWord("DATA");
    UpperCaseIsWord("NONAME");
    UpperCaseIsWord("LIBRARY");
    UpperCaseIsWord("EXPORTS");
  }

  lemma {:induction false} LexesLines(es: seq<Export>)
    requires forall k :: 0 <= k < |es| ==> ExportName(es[k].extName)
    ensures TokensOf(Lines(es)) == LinesTokens(es)
  {
    if es == [] {
      LexesNothing("");
    } else {
      hide TokensOf, Line, ExportName, LineTokens;
      LexesLines(es[1..]);
      LexesLine(es[0], Lines(es[1..]));
    }
  }

  /** The file the linker writes, as the reader's lexer sees it. */
  lemma {:induction false} LexesFile(library: string, es: seq<Export>)
    requires '"' !in library && forall k :: 0 <= k < |es| ==> ExportName(es[k].extName)
    ensures TokensOf(Write(library, es)) == [Kw(Library), Identifier(library), Kw(Exports)] + LinesTokens(es)
  {
    hide TokensOf, Lines, LinesTokens, Word, WordToken, ExportName;
    var t3 := "\n" + Lines(es);
    var t2 := "\n" + "EXPORTS" + t3;
    var t1 := " \"" + library + "\"" + t2;
    FlagWords();
    LexesLines(es);
    SkipsSpace("\n", Lines(es));
    LexesWord("\n", "EXPORTS", t3);
    LexesQuoted(" ", library, t2);
    assert t1 == " " + "\"" + library + "\"" + t2;
    assert "LIBRARY \"" == "LIBRARY" + " \"" && "EXPORTS\n" == "EXPORTS" + "\n";
    assert "\"\n" == "\"" + "\n";
    assert Write(library, es) == "" + "LIBRARY" + t1;
    LexesWord("", "LIBRARY", t1);
    assert [Kw(Library)] + ([Identifier(library)] + ([Kw(Exports)] + LinesTokens(es)))
        == [Kw(Library), Identifier(library), Kw(Exports)] + LinesTokens(es);
  }

  // ----- parsing them -----

  /** What can follow an export: another name, or nothing. */
  predicate NextLine(ts: seq<Token>) {
    First(ts) == Eof || (First(ts).Identifier? && !IsOrdinal(First(ts)))
  }

  function Bare(e: Export): (r: Export) {
    Export(e.extName, e.extName, 0, false, false, false)
  }

  lemma ParsesFlags(e: Export, data: bool, isPrivate: bool, ts: seq<Token>)
    requires NextLine(ts) && !e.data && !e.isPrivate
    ensures ParseAttributes(e, If(data, Kw(Data)) + If(isPrivate, Kw(Private)) + ts)
         == Parsed(Some(e.(data := data, isPrivate := isPrivate)), ts)
  {
    var rest := If(isPrivate, Kw(Private)) + ts;
    var d := e.(data := data);
    assert If(data, Kw(Data)) + If(isPrivate, Kw(Private)) + ts == If(data, Kw(Data)) + rest;
    assert ParseAttributes(d.(isPrivate := isPrivate), ts) == Parsed(Some(d.(isPrivate := isPrivate)), ts);
    assert isPrivate ==> rest[1..] == ts;
    assert ParseAttributes(d, rest) == Parsed(Some(d.(isPrivate := isPrivate)), ts);
    assert data ==> ([Kw(Data)] + rest)[1..] == rest;
  }

  /** What follows the name on a line, and the lines after it. */
  function AfterName(e: Export, ts: seq<Token>): (r: seq<Token>) {
    If(e.ordinal > 0, Identifier("@" + Show(e.ordinal)))
    + (If(e.noname, Kw(Noname)) + (If(e.data, Kw(Data)) + If(e.isPrivate, Kw(Private)) + ts))
  }

  lemma ParsesName(e: Export, ts: seq<Token>)
    requires e.name == e.extName && NextLine(ts)
    ensures ParseExport(LineTokens(e) + ts, true) == ParseAttributes(Bare(e), AfterName(e, ts))
  {
    hide ParseAttributes, Show, IsOrdinal;
    var all := LineTokens(e) + ts;
    assert all == [Identifier(e.extName)] + AfterName(e, ts);
    assert all[1..] == AfterName(e, ts) && First(all[1..]) != Equal;
  }

  /** An export whose NONAME, if any, has an ordinal is read back as it was. */
  lemma ParsesLine(e: Export, ts: seq<Token>)
    requires e.name == e.extName && e.ordinal < UINT16 && (e.noname ==> e.ordinal > 0) && NextLine(ts)
    ensures ParseExport(LineTokens(e) + ts, true) == Parsed(Some(e), ts)
  {
    ParsesName(e, ts);
    hide ParseAttributes, Show, IsOrdinal, ParseExport, LineTokens;
    var flags := If(e.data, Kw(Data)) + If(e.isPrivate, Kw(Private)) + ts;
    if e.ordinal > 0 {
      ParsesOrdinal(e, flags);
      ParsesFlags(Bare(e).(ordinal := e.ordinal, noname := e.noname), e.data, e.isPrivate, ts);
    } else {
      assert AfterName(e, ts) == flags;
      ParsesFlags(Bare(e), e.data, e.isPrivate, ts);
    }
  }

  lemma ParsesOrdinal(e: Export, flags: seq<Token>)
    requires 0 < e.ordinal < UINT16 && First(flags) != Kw(Noname)
    ensures ParseAttributes(Bare(e), [Identifier("@" + Show(e.ordinal))] + (If(e.noname, Kw(Noname)) + flags))
         == ParseAttributes(Bare(e).(ordinal := e.ordinal, noname := e.noname), flags)
  {
    var t := Identifier("@" + Show(e.ordinal));
    assert t.text[1..] == Show(e.ordinal);
    ShowReads(e.ordinal);
    assert OrdinalOf(t, 0) == e.ordinal && IsOrdinal(t);
    hide Show, GetAsInteger, OrdinalOf, IsOrdinal;
    var ts := [t] + (If(e.noname, Kw(Noname)) + flags);
    assert ts[1..] == If(e.noname, Kw(Noname)) + flags;
    if e.noname {
      assert ts[2..] == flags;
    } else {
      assert ts[1..] == flags;
    }
  }

  predicate Printable(e: Export) {
    ExportName(e.extName) && e.ordinal < UINT16
  }

  /** Exported under its own name, as the reader takes every line without "=". */
  predicate Named(e: Export) {
    Printable(e) && e.name == e.extName
  }

  /** The exports under their external names: the writer looks at no others. */
  function External(es: seq<Export>): (r: seq<Export>)
    ensures |r| == |es| && forall k :: 0 <= k < |es| ==> r[k] == es[k].(name := es[k].extName)
  {
    seq(|es|, k requires 0 <= k < |es| => es[k].(name := es[k].extName))
  }

  lemma {:induction false} LinesExternal(es: seq<Export>)
    ensures Lines(External(es)) == Lines(es)
  {
    if es != [] {
      LinesExternal(es[1..]);
      assert External(es)[1..] == External(es[1..]);
    }
  }

  /** NONAME is read only after an ordinal. */
  predicate Placed(e: Export) {
    e.noname ==> e.ordinal > 0
  }

  lemma NextLineStarts(es: seq<Export>)
    requires es == [] || !AtName(es[0].extName)
    ensures NextLine(LinesTokens(es))
  {
    hide Word, WordToken, LineTokens;
  }

  lemma NextExport(c: Config, ts: seq<Token>, e: Export, rest: seq<Token>)
    requires First(ts).Identifier? && ParseExport(ts, true) == Parsed(Some(e), rest)
    ensures ParseExports(c, ts, true) == ParseExports(c.(exports := c.exports + [e]), rest, true)
  {
  }

  lemma {:induction false} ParsesLines(c: Config, es: seq<Export>)
    requires NoLaterAt(es) && forall k :: 0 <= k < |es| ==> Named(es[k]) && Placed(es[k])
    ensures ParseExports(c, LinesTokens(es), true) == Parsed(Some(c.(exports := c.exports + es)), [])
    decreases |es|
  {
    hide Named, LineTokens, ParseExport, ParseExports;
    if es == [] {
      NoExports(c);
    } else {
      var ts := LinesTokens(es[1..]);
      assert LinesTokens(es) == LineTokens(es[0]) + ts;
      NextLineStarts(es[1..]);
      NamedFacts(es[0]);
      ParsesLine(es[0], ts);
      NextExport(c, LineTokens(es[0]) + ts, es[0], ts);
      var c' := c.(exports := c.exports + [es[0]]);
      ParsesLines(c', es[1..]);
      assert c'.exports + es[1..] == c.exports + es;
    }
  }

  lemma NoExports(c: Config)
    ensures ParseExports(c, [], true) == Parsed(Some(c.(exports := c.exports + [])), [])
  {
    assert c.exports + [] == c.exports;
  }

  lemma NamedFacts(e: Export)
    requires Named(e)
    ensures e.name == e.extName && e.ordinal < UINT16
  {
  }

  /** NONAME without an ordinal stops the list of exports there. */
  lemma {:induction false} StopsAtNoname(c: Config, es: seq<Export>, bad: nat)
    requires NoLaterAt(es) && forall k :: 0 <= k < |es| ==> Named(es[k])
    requires bad < |es| && !Placed(es[bad])
    ensures var r := ParseExports(c, LinesTokens(es), true);
      r.value.Some? && First(r.rest) == Kw(Noname)
    decreases |es|
  {
    var ts := LinesTokens(es[1..]);
    var e := es[0];
    var all := LineTokens(e) + ts;
    assert First(all).Identifier?;
    if Placed(e) {
      hide Word, WordToken, LineTokens, ParseExport;
      NextLineStarts(es[1..]);
      ParsesLine(e, ts);
      StopsAtNoname(c.(exports := c.exports + [e]), es[1..], bad - 1);
    } else {
      assert First(all[1..]) == Kw(Noname);
      assert ParseExport(all, true) == Parsed(Some(Bare(e)), all[1..]);
    }
  }

  // ----- names that start with @ -----

  /** How many tokens can start an export in the middle of a list. */
  function Starts(ts: seq<Token>): (n: nat) {
    if ts == [] then 0 else Starts(ts[1..]) + (if ts[0].Identifier? && !IsOrdinal(ts[0]) then 1 else 0)
  }

  /** What is left of ts starts no export that ts did not, and holds no new token. */
  ghost predicate Within(rest: seq<Token>, ts: seq<Token>) {
    Starts(rest) <= Starts(ts) && forall t :: t in rest ==> t in ts
  }

  lemma {:induction false} AttributesStop(e: Export, ts: seq<Token>)
    ensures var rest := ParseAttributes(e, ts).rest; Within(rest, ts) && !IsOrdinal(First(rest))
    decreases |ts|
  {
    hide OrdinalOf;
    if IsOrdinal(First(ts)) {
      var e' := e.(ordinal := OrdinalOf(First(ts), e.ordinal));
      AttributesStop(e', ts[1..]);
      if First(ts[1..]) == Kw(Noname) {
        assert ts[1..][1..] == ts[2..];
        AttributesStop(e'.(noname := true), ts[2..]);
      }
    } else if First(ts) == Kw(Data) {
      AttributesStop(e.(data := true), ts[1..]);
    } else if First(ts) == Kw(Private) {
      AttributesStop(e.(isPrivate := true), ts[1..]);
    }
  }

  lemma ExportStops(ts: seq<Token>)
    requires First(ts).Identifier? && ParseExport(ts, true).value.Some?
    ensures var rest := ParseExport(ts, true).rest; Within(rest, ts[1..]) && !IsOrdinal(First(rest))
  {
    hide ParseAttributes, IsOrdinal;
    var ext := ts[0].text;
    if First(ts[1..]) == Equal {
      assert ts[1..][1..] == ts[2..] && ts[2..][1..] == ts[3..];
      assert Within(ts[2..], ts[1..]) && Within(ts[3..], ts[2..]);
      AttributesStop(Export(ext, Decorated(ts[2].text, true), 0, false, false, false), ts[3..]);
    } else {
      AttributesStop(Export(ext, Decorated(ext, true), 0, false, false, false), ts[1..]);
    }
  }

  /** A list of exports is no longer than its starting tokens; only the first token
      starts one whatever it is. */
  lemma {:induction false} FewExports(c: Config, ts: seq<Token>)
    ensures var p := ParseExports(c, ts, true);
      && (forall t :: t in p.rest ==> t in ts) && !(p.value.Some? && First(p.rest).Identifier?)
      && (p.value.Some? ==>
            |p.value.value.exports| <= |c.exports| + Starts(ts) + (if IsOrdinal(First(ts)) then 1 else 0))
    decreases |ts|
  {
    if First(ts).Identifier? {
      var p := ParseExport(ts, true);
      if p.value.Some? {
        ExportStops(ts);
        hide ParseExport, IsOrdinal;
        FewExports(c.(exports := c.exports + [p.value.value]), p.rest);
      } else {
        assert forall t :: t in p.rest ==> t in ts;
      }
    }
  }

  function PlainNames(es: seq<Export>): (n: nat)
    ensures n <= |es|
  {
    if es == [] then 0 else PlainNames(es[1..]) + (if AtName(es[0].extName) then 0 else 1)
  }

  lemma {:induction false} AtIsNotPlain(es: seq<Export>, k: nat)
    requires k < |es| && AtName(es[k].extName)
    ensures PlainNames(es) < |es|
  {
    if k > 0 {
      AtIsNotPlain(es[1..], k - 1);
    }
  }

  lemma {:induction false} StartsAppend(a: seq<Token>, b: seq<Token>)
    ensures Starts(a + b) == Starts(a) + Starts(b)
  {
    if a == [] {
      assert a + b == b;
    } else {
      assert (a + b)[1..] == a[1..] + b;
      StartsAppend(a[1..], b);
    }
  }

  predicate InLine(t: Token) {
    t.Identifier? || t in [Kw(Noname), Kw(Data), Kw(Private)]
  }

  lemma LineStarts(e: Export)
    requires e.extName != ""
    ensures Starts(LineTokens(e)) == if AtName(e.extName) then 0 else 1
    ensures forall t :: t in LineTokens(e) ==> InLine(t)
  {
    hide Show, LineTokens;
    var name, ordinal := [Identifier(e.extName)], If(e.ordinal > 0, Identifier("@" + Show(e.ordinal)));
    var noname, data, isPrivate := If(e.noname, Kw(Noname)), If(e.data, Kw(Data)), If(e.isPrivate, Kw(Private));
    assert LineTokens(e) == name + ordinal + (noname + data + isPrivate) by { LineIs(e); }
    StartsAppend(name + ordinal, noname + data + isPrivate);
    StartsAppend(name, ordinal);
    StartsAppend(noname + data, isPrivate);
    StartsAppend(noname, data);
  }

  lemma LineIs(e: Export)
    ensures LineTokens(e) == [Identifier(e.extName)] + If(e.ordinal > 0, Identifier("@" + Show(e.ordinal)))
                             + (If(e.noname, Kw(Noname)) + If(e.data, Kw(Data)) + If(e.isPrivate, Kw(Private)))
  {
  }

  lemma {:induction false} LinesStart(es: seq<Export>)
    requires forall k :: 0 <= k < |es| ==> es[k].extName != ""
    ensures Starts(LinesTokens(es)) == PlainNames(es)
    ensures forall t :: t in LinesTokens(es) ==> InLine(t)
  {
    if es != [] {
      hide LineTokens, InLine;
      LineStarts(es[0]);
      LinesStart(es[1..]);
      StartsAppend(LineTokens(es[0]), LinesTokens(es[1..]));
    }
  }

  lemma OnlyEndIsRead(c: Config, ts: seq<Token>)
    requires !First(ts).Identifier? && forall t :: t in ts ==> InLine(t)
    ensures Parse(c, ts, true) == if ts == [] then Some(c) else None
  {
    assert ts != [] ==> InLine(ts[0]);
  }

  /** With such a name after the first, exports are lost or the file is refused. */
  lemma LaterAtLoses(c: Config, es: seq<Export>)
    requires !NoLaterAt(es) && forall k :: 0 <= k < |es| ==> es[k].extName != ""
    ensures var p := ParseExports(c, LinesTokens(es), true);
      p.value.None? || Parse(p.value.value, p.rest, true).None?
      || |Parse(p.value.value, p.rest, true).value.exports| < |c.exports| + |es|
  {
    hide ParseExports, LinesTokens, InLine;
    var ts := LinesTokens(es);
    var p := ParseExports(c, ts, true);
    var k :| 1 <= k < |es| && AtName(es[k].extName);
    LinesStart(es);
    FewExports(c, ts);
    AtIsNotPlain(es[1..], k - 1);
    assert First(ts) == Identifier(es[0].extName);
    if p.value.Some? {
      OnlyEndIsRead(p.value.value, p.rest);
    }
  }

  // ----- the round trip -----

  /** The configuration the file is meant to give. */
  function Meant(library: string, es: seq<Export>, c: Config): (r: Config) {
    c.(outputFile := WithDll(library), imageBase := 0, exports := c.exports + es)
  }

  lemma ReadsLibrary(library: string, es: seq<Export>, c: Config)
    requires '"' !in library && forall k :: 0 <= k < |es| ==> ExportName(es[k].extName)
    ensures var p := ParseExports(c.(outputFile := WithDll(library), imageBase := 0), LinesTokens(es), true);
      Parse(c, TokensOf(Write(library, es)), true)
        == if p.value.None? then None else Parse(p.value.value, p.rest, true)
  {
    hide TokensOf, Word, WordToken, ParseExports, ParseExport, LinesTokens, Write, WithDll;
    LexesFile(library, es);
    var ts := TokensOf(Write(library, es));
    var c1 := c.(outputFile := WithDll(library), imageBase := 0);
    var ts1 := [Kw(Exports)] + LinesTokens(es);
    assert ts[1..] == [Identifier(library)] + ts1 && ts[1..][1..] == ts1;
    assert ParseOne(c, ts, true) == Parsed(Some(c1), ts1);
    assert ts1[1..] == LinesTokens(es);
    assert Parse(c, ts, true) == Parse(c1, ts1, true);
  }

  lemma NotEmpty(e: Export)
    requires Named(e)
    ensures e.extName != ""
  {
  }

    lemma RoundTripNamed(library: string, es: seq<Export>, c: Config)
    requires '"' !in library && forall k :: 0 <= k < |es| ==> Named(es[k])
    ensures Parse(c, TokensOf(Write(library, es)), true) == Some(Meant(library, es, c))
       <==> NoLaterAt(es) && forall k :: 0 <= k < |es| ==> Placed(es[k])
    ensures NoLaterAt(es) && (exists k :: 0 <= k < |es| && !Placed(es[k])) ==>
              Parse(c, TokensOf(Write(library, es)), true) == None
    ensures var p := Parse(c, TokensOf(Write(library, es)), true);
      !NoLaterAt(es) && p.Some? ==> |p.value.exports| < |c.exports| + |es|
  {
    hide TokensOf, Word, WordToken, ParseExports, LinesTokens, Write, WithDll, Parse, NoLaterAt;
    var c1 := c.(outputFile := WithDll(library), imageBase := 0);
    ReadsLibrary(library, es, c);
    if !NoLaterAt(es) {
      forall k | 0 <= k < |es| ensures es[k].extName != "" { NotEmpty(es[k]); }
      LaterAtLoses(c1, es);
    } else if forall k :: 0 <= k < |es| ==> Placed(es[k]) {
      ParsesLines(c1, es);
      OnlyEndIsRead(c1.(exports := c1.exports + es), []);
    } else {
      var bad: nat :| bad < |es| && !Placed(es[bad]);
      StopsAtNoname(c1, es, bad);
      var p := ParseExports(c1, LinesTokens(es), true);
      NonameIsUnknown(p.value.value, p.rest);
    }
  }

  /** Reading the file back gives the library name made to end in .dll, no base, and
      every export in order with its external name, ordinal and flags, if and only if
      every NONAME comes with an ordinal and no name but the first starts with @. */
  lemma RoundTrip(library: string, es: seq<Export>, c: Config)
    requires '"' !in library && forall k :: 0 <= k < |es| ==> Printable(es[k])
    ensures Parse(c, TokensOf(Write(library, es)), true) == Some(Meant(library, External(es), c))
       <==> NoLaterAt(es) && forall k :: 0 <= k < |es| ==> Placed(es[k])
    ensures NoLaterAt(es) && (exists k :: 0 <= k < |es| && !Placed(es[k])) ==>
              Parse(c, TokensOf(Write(library, es)), true) == None
    ensures var p := Parse(c, TokensOf(Write(library, es)), true);
      !NoLaterAt(es) && p.Some? ==> |p.value.exports| < |c.exports| + |es|
  {
    hide ExportName, TokensOf, Parse, Lines, Meant, AtName;
    var r := External(es);
    LinesExternal(es);
    assert NoLaterAt(r) <==> NoLaterAt(es);
    assert forall k :: 0 <= k < |es| ==> Named(r[k]) && (Placed(r[k]) <==> Placed(es[k]));
    RoundTripNamed(library, r, c);
  }

  lemma NonameIsUnknown(c: Config, ts: seq<Token>)
    requires First(ts) == Kw(Noname)
    ensures Parse(c, ts, true) == None
  {
  }

  /** A name that starts with @ is lost if it is not the first: it becomes the
      ordinal of the export before it. */
  lemma AtNameIsLost(c: Config, name: string, ordinal: nat)
    requires ExportName(name) && 0 < ordinal < UINT16
    ensures var at := Export("@" + Show(ordinal), "@" + Show(ordinal), 0, false, false, false);
      var first := Export(name, name, 0, false, false, false);
      ParseExports(c, LinesTokens([first, at]), true)
        == Parsed(Some(c.(exports := c.exports + [first.(ordinal := ordinal)])), [])
  {
    hide Word, WordToken, Show;
    var t := Identifier("@" + Show(ordinal));
    var at := Export(t.text, t.text, 0, false, false, false);
    var first := Export(name, name, 0, false, false, false);
    assert LinesTokens([first, at][1..]) == LineTokens(at) + LinesTokens([at][1..]) by { assert [first, at][1..] == [at]; }
    assert LinesTokens([first, at]) == [Identifier(name), t];
    var ts := [Identifier(name), t];
    assert ts[1..] == [t] && [t][1..] == [];
    assert t.text[1..] == Show(ordinal);
    ShowReads(ordinal);
    var e := first.(ordinal := ordinal);
    assert ParseAttributes(e, []) == Parsed(Some(e), []);
    assert ParseAttributes(first, [t]) == Parsed(Some(e), []);
    assert ParseExport(ts, true) == Parsed(Some(e), []);
  }
}
