/** COFF/ModuleDef.cpp's Lexer and Parser on their own fields, tied to ModuleDef. */
module ModuleDefReader {
  import opened Common
  import opened ModuleDef
  import DefRoundTrip

  lemma {:induction false} EofStays(buf: string)
    requires ModuleDef.Lex(buf).token == Eof
    ensures TokensOf(ModuleDef.Lex(buf).rest) == []
    decreases |buf|
  {
    hide WordLength, TrimLeft, TrimRight, TokensOf;
    var s := Trim(buf);
    if s == [] {
      EmptyHasNone();
    } else if s[0] == '\0' {
      ZeroHasNone(buf);
    } else if s[0] == ';' {
      assert Until(s, '\n') > 0;
      EofStays(s[Until(s, '\n')..]);
    } else {
      DefRoundTrip.NeverEof(s[..WordLength(s)]);
    }
  }

  lemma EmptyHasNone()
    ensures TokensOf("") == []
  {
    DefRoundTrip.LexesNothing("");
  }

  lemma ZeroHasNone(buf: string)
    requires Trim(buf) != "" && Trim(buf)[0] == '\0'
    ensures TokensOf(Trim(buf)) == []
  {
    DefRoundTrip.TrimStarts(buf);
    DefRoundTrip.TrimRightIsDone(TrimLeft(buf));
    assert Trim(Trim(buf)) == Trim(buf);
  }

  class Lexer {
    var buf: string

    constructor (s: string)
      ensures buf == s
    {
      buf := s;
    }

    method Lex() returns (t: Token)
      modifies this
      ensures Lexed(t, buf) == ModuleDef.Lex(old(buf))
      decreases |buf|
    {
      buf := Trim(buf);
      if buf == "" || buf[0] == '\0' {
        return Eof;
      }
      match buf[0]
      case ';' =>
        buf := buf[Until(buf, '\n')..];
        t := Lex();
      case '=' =>
        buf := buf[1..];
        t := Equal;
      case ',' =>
        buf := buf[1..];
        t := Comma;
      case '"' =>
        var end := Until(buf[1..], '"');
        t := Identifier(buf[1..][..end]);
        buf := if end < |buf| - 1 then buf[end + 2..] else "";
      case _ =>
        var end := WordLength(buf);
        t := WordToken(buf[..end]);
        buf := buf[end..];
    }
  }

  class Parser {
    const lexer: Lexer
    const is64: bool
    var tok: Token
    var stack: seq<Token>
    var config: Config

    constructor (s: string, is64: bool, config: Config)
      ensures Valid() && fresh(lexer) && Pending() == TokensOf(s)
      ensures this.is64 == is64 && this.config == config
    {
      this.lexer := new Lexer(s);
      this.is64, this.config := is64, config;
      tok, stack := Unknown, [];
    }

    /** The stack is never deeper than one token, and holds the end of the file
        only at the end. */
    ghost predicate Valid()
      reads `stack, `tok, lexer
    {
      |stack| <= 1 && (stack == [Eof] ==> TokensOf(lexer.buf) == []) && (tok == Eof ==> Pending() == [])
    }

    ghost function Pending(): (ts: seq<Token>)
      reads `stack, lexer
      ensures Eof !in ts
      ensures stack == [] ==> ts == TokensOf(lexer.buf)
    {
      (if stack == [] || stack[0] == Eof then [] else [stack[0]]) + TokensOf(lexer.buf)
    }

    method Read()
      requires Valid()
      modifies this`tok, this`stack, lexer
      ensures Valid() && stack == [] && config == old(config)
      ensures tok == First(old(Pending())) && Pending() == Rest(old(Pending()))
    {
      if stack == [] {
        ghost var was := lexer.buf;
        tok := lexer.Lex();
        if tok == Eof {
          EofStays(was);
        }
        return;
      }
      tok := stack[|stack| - 1];
      stack := stack[..|stack| - 1];
    }

    method Unget()
      requires Valid() && stack == []
      modifies this`stack
      ensures Valid()
      ensures Pending() == if tok == Eof then [] else [tok] + old(Pending())
    {
      stack := stack + [tok];
      assert stack[0] == tok;
    }

    method ReadAsInt() returns (n: Option<nat>)
      requires Valid()
      modifies this`tok, this`stack, lexer
      ensures Valid() && n == ModuleDef.ReadAsInt(old(Pending())) && Pending() == Rest(old(Pending()))
    {
      Read();
      n := if tok.Identifier? then GetAsInteger(tok.text, UINT64) else None;
    }

    method Expect(t: Token) returns (ok: bool)
      requires Valid()
      modifies this`tok, this`stack, lexer
      ensures Valid() && (ok <==> First(old(Pending())) == t) && Pending() == Rest(old(Pending()))
    {
      Read();
      ok := tok == t;
    }

    method ReadAttributes(e: Export) returns (r: Export)
      requires Valid()
      modifies this`tok, this`stack, lexer
      ensures Valid() && Parsed(Some(r), Pending()) == ParseAttributes(e, old(Pending()))
    {
      hide Pending, TokensOf;
      r := e;
      while true
        invariant Valid() && |Pending()| <= |old(Pending())|
        invariant ParseAttributes(r, Pending()) == ParseAttributes(e, old(Pending()))
        decreases |Pending()|
      {
        ghost var ts := Pending();
        Read();
        if tok.Identifier? && tok.text != "" && tok.text[0] == '@' {
          var v := GetAsInteger(tok.text[1..], UINT16);
          if v.Some? {
            r := r.(ordinal := v.value);
          }
          Read();
          if tok == Kw(Noname) {
            r := r.(noname := true);
          } else {
            Unget();
          }
          assert Pending() == if First(ts[1..]) == Kw(Noname) then ts[2..] else ts[1..];
        } else if tok == Kw(Data) {
          r := r.(data := true);
        } else if tok == Kw(Private) {
          r := r.(isPrivate := true);
        } else {
          Unget();
          assert Pending() == ts;
          return;
        }
      }
    }

    /** parseExport: tok is the external name. */
    method ReadExport() returns (ok: bool)
      requires Valid() && stack == [] && tok.Identifier?
      modifies this`tok, this`stack, this`config, lexer
      ensures Valid()
      ensures var p := ParseExport([old(tok)] + old(Pending()), is64);
        && (ok <==> p.value.Some?) && Pending() == p.rest
        && config == if ok then old(config).(exports := old(config.exports) + [p.value.value]) else old(config)
    {
      hide Pending, TokensOf;
      var ext := tok.text;
      var name := ext;
      ghost var ts := [tok] + Pending();
      assert ts[1..] == Pending();
      Read();
      if tok == Equal {
        Read();
        assert Pending() == Rest(ts[2..]);
        if !tok.Identifier? {
          return false;
        }
        name := tok.text;
      } else {
        Unget();
        assert Pending() == ts[1..];
      }
      var e := Export(ext, Decorated(name, is64), 0, false, false, false);
      e := ReadAttributes(e);
      config := config.(exports := config.exports + [e]);
      ok := true;
    }

    method ReadExports() returns (ok: bool)
      requires Valid()
      modifies this`tok, this`stack, this`config, lexer
      ensures Valid()
      ensures var p := ParseExports(old(config), old(Pending()), is64);
        (ok <==> p.value.Some?) && Pending() == p.rest && (ok ==> config == p.value.value)
    {
      hide Pending, TokensOf;
      while true
        invariant Valid() && |Pending()| <= |old(Pending())|
        invariant ParseExports(config, Pending(), is64) == ParseExports(old(config), old(Pending()), is64)
        decreases |Pending()|
      {
        ghost var ts := Pending();
        Read();
        if !tok.Identifier? {
          Unget();
          assert Pending() == ts;
          return true;
        }
        assert [tok] + Pending() == ts;
        ok := ReadExport();
        if !ok {
          return;
        }
      }
    }

    method ReadNumbers(old_: Numbers) returns (r: Option<Numbers>)
      requires Valid()
      modifies this`tok, this`stack, lexer
      ensures Valid() && Parsed(r, Pending()) == ParseNumbers(old_, old(Pending()))
    {
      hide Pending, TokensOf;
      ghost var ts := Pending();
      var reserve := ReadAsInt();
      if reserve == None {
        return None;
      }
      Read();
      if tok != Comma {
        Unget();
        assert Pending() == Rest(ts);
        return Some(Numbers(reserve.value, old_.commit));
      }
      var commit := ReadAsInt();
      r := if commit == None then None else Some(Numbers(reserve.value, commit.value));
    }

    method ReadName() returns (ok: bool)
      requires Valid()
      modifies this`tok, this`stack, this`config, lexer
      ensures Valid()
      ensures var p := ParseName(old(config), old(Pending()));
        (ok <==> p.value.Some?) && Pending() == p.rest && (ok ==> config == p.value.value)
    {
      hide Pending, TokensOf;
      ghost var ts := Pending();
      Read();
      if !tok.Identifier? {
        config := config.(outputFile := "");
        Unget();
        assert Pending() == ts;
        return true;
      }
      config := config.(outputFile := tok.text);
      Read();
      if tok != Kw(Base) {
        Unget();
        assert Pending() == ts[1..];
        config := config.(imageBase := 0);
        return true;
      }
      assert Pending() == ts[2..];
      ok := Expect(Equal);
      if !ok {
        return;
      }
      var n := ReadAsInt();
      if n == None {
        return false;
      }
      config := config.(imageBase := n.value);
    }

    method ReadVersion() returns (ok: bool)
      requires Valid()
      modifies this`tok, this`stack, this`config, lexer
      ensures Valid()
      ensures var p := ParseVersion(old(config), old(Pending()));
        (ok <==> p.value.Some?) && Pending() == p.rest && (ok ==> config == p.value.value)
    {
      hide Pending, TokensOf;
      Read();
      if !tok.Identifier? {
        return false;
      }
      var n := Until(tok.text, '.');
      var v2 := if n < |tok.text| then tok.text[n + 1..] else "";
      var major := GetAsInteger(tok.text[..n], UINT32);
      if major == None {
        return false;
      }
      var minor := Some(0);
      if v2 != "" {
        minor := GetAsInteger(v2, UINT32);
        if minor == None {
          return false;
        }
      }
      config := config.(major := major.value, minor := minor.value);
      ok := true;
    }

    /** parseOne, at the end of the file or at a directive. */
    method ReadOne() returns (ok: bool)
      requires Valid()
      modifies this`tok, this`stack, this`config, lexer
      ensures Valid()
      ensures old(Pending()) == [] ==> ok && tok == Eof && Pending() == [] && config == old(config)
      ensures old(Pending()) != [] ==>
        var p := ParseOne(old(config), old(Pending()), is64);
        (ok <==> p.value.Some?) && Pending() == p.rest && (ok ==> config == p.value.value)
    {
      hide Pending, TokensOf;
      ghost var ts := Pending();
      Read();
      match tok
      case Eof =>
        assert ts == [];
        ok := true;
      case Kw(Exports) => ok := ReadExports();
      case Kw(Heapsize) =>
        var n := ReadNumbers(Numbers(config.heapReserve, config.heapCommit));
        ok := n.Some?;
        if ok {
          config := config.(heapReserve := n.value.reserve, heapCommit := n.value.commit);
        }
      case Kw(Library) =>
        ok := ReadName();
        if ok {
          config := config.(outputFile := WithDll(config.outputFile));
        }
      case Kw(Stacksize) =>
        var n := ReadNumbers(Numbers(config.stackReserve, config.stackCommit));
        ok := n.Some?;
        if ok {
          config := config.(stackReserve := n.value.reserve, stackCommit := n.value.commit);
        }
      case Kw(Name) => ok := ReadName();
      case Kw(Version) => ok := ReadVersion();
      case _ => ok := false;
    }

    /** parse, which ends at the first error or at the end of the file. */
    method Parse() returns (ok: bool)
      requires Valid()
      modifies this`tok, this`stack, this`config, lexer
      ensures ModuleDef.Parse(old(config), old(Pending()), is64) == if ok then Some(config) else None
    {
      hide Pending, TokensOf;
      while true
        invariant Valid()
        invariant ModuleDef.Parse(config, Pending(), is64) == ModuleDef.Parse(old(config), old(Pending()), is64)
        decreases |Pending()|
      {
        ghost var was := Pending();
        ok := ReadOne();
        if !ok {
          return;
        }
        if tok == Eof {
          return;
        }
      }
    }
  }
}
