/** The part of bash's word reading the panel relies on when it builds
    command lines: words made of single-quoted segments, backslash escapes and
    plain characters, separated by spaces and `|`. The reader is deliberately
    conservative: any other unquoted character (`$`, `;`, `"`, a newline, …)
    makes it give up. On the command lines the panel builds, which hold at most
    one `|` between words and none at either end, a successful reading gives
    the words bash reads; a `||` or a leading `|`, which bash treats
    differently, never occurs in them. A word is any string of characters;
    that Node refuses to run a command line holding a NUL character is not
    modelled. */
module Shell {
  import opened Wrappers
  import opened Text

  datatype Token = Word(text: string) | Pipe

  /** Unquoted characters that stand for themselves. */
  predicate IsPlain(c: char)
  {
    IsAsciiLetter(c) || IsAsciiDigit(c)
    || c == '/' || c == '-' || c == '_' || c == '.' || c == '%' || c == ','
    || c == ':' || c == '@' || c == '+' || c == '='
  }

  /** Unquoted characters that end a word. */
  predicate IsDelim(c: char) { c == ' ' || c == '|' }

  predicate AllPlain(s: string)
  {
    forall i :: 0 <= i < |s| ==> IsPlain(s[i])
  }

  /** A word read so far, put in front of the rest of its reading. */
  function Prepend(w: string, r: Option<(string, string)>): (p: Option<(string, string)>)
    ensures p.Some? == r.Some?
    ensures p.Some? ==> p.value.1 == r.value.1
  {
    match r
    case None => None
    case Some(p) => Some((w + p.0, p.1))
  }

  /** Reads one word at the start of `s`: its value and the text after it. */
  function ReadWord(s: string): (r: Option<(string, string)>)
    ensures r.Some? ==> |r.value.1| <= |s| && r.value.1 == s[|s| - |r.value.1|..]
    ensures r.Some? ==> r.value.1 == [] || IsDelim(r.value.1[0])
    ensures r.Some? && s != [] && !IsDelim(s[0]) ==> |r.value.1| < |s|
    decreases |s|
  {
    if s == [] || IsDelim(s[0]) then Some(("", s))
    else if s[0] == '\'' then
      var k := IndexOf(s[1..], '\'');
      if k == |s| - 1 then None
      else Prepend(s[1..k + 1], ReadWord(s[k + 2..]))
    else if s[0] == '\\' then
      if |s| < 2 || s[1] == '\n' then None
      else Prepend([s[1]], ReadWord(s[2..]))
    else if IsPlain(s[0]) then Prepend([s[0]], ReadWord(s[1..]))
    else None
  }

  function Cons(t: Token, r: Option<seq<Token>>): Option<seq<Token>>
  {
    match r
    case None => None
    case Some(ts) => Some([t] + ts)
  }

  /** The words and pipes of a command line, or None where the reader gives up. */
  function Lex(s: string): (r: Option<seq<Token>>)
    decreases |s|
  {
    if s == [] then Some([])
    else if s[0] == ' ' then Lex(s[1..])
    else if s[0] == '|' then Cons(Pipe, Lex(s[1..]))
    else
      match ReadWord(s)
      case None => None
      case Some(p) => Cons(Word(p.0), Lex(p.1))
  }

  /** `'` + `p.replace(/'/g, "'\\''")` + `'`: the single-quoted bash word for `p`. */
  function SingleQuote(p: string): (r: string)
    ensures |r| >= 2 && r[0] == '\'' && r[|r| - 1] == '\''
  {
    "'" + ReplaceChar(p, '\'', "'\\''") + "'"
  }

  lemma PrependPrepend(a: string, b: string, r: Option<(string, string)>)
    ensures Prepend(a, Prepend(b, r)) == Prepend(a + b, r)
  {
    if r.Some? {
      assert a + (b + r.value.0) == (a + b) + r.value.0;
    }
  }

  /** A quoted segment contributes its inside, whatever it holds but `'`. */
  lemma ReadQuotedSegment(a: string, t: string)
    requires '\'' !in a
    ensures ReadWord("'" + a + "'" + t) == Prepend(a, ReadWord(t))
  {
    var s := "'" + a + "'" + t;
    var u := a + "'" + t;
    assert s[0] == '\'' && s[1..] == u;
    IndexOfFirst(a, t, '\'');
    assert s[1..|a| + 1] == a && s[|a| + 2..] == t;
    ReadWordQuote(s, |a|);
  }

  /** A word that opens with a closed quote: its inside, then the rest. */
  lemma ReadWordQuote(s: string, k: nat)
    requires s != [] && s[0] == '\'' && k == IndexOf(s[1..], '\'') && k < |s| - 1
    ensures ReadWord(s) == Prepend(s[1..k + 1], ReadWord(s[k + 2..]))
  {
    assert !IsDelim(s[0]);
    assert k != |s| - 1;
  }

  /** The first `c` after a part without `c` is the one that ends it. */
  lemma IndexOfFirst(a: string, t: string, c: char)
    requires c !in a
    ensures IndexOf(a + [c] + t, c) == |a|
  {
    var u := a + [c] + t;
    assert u[|a|] == c;
    assert forall k :: 0 <= k < |a| ==> u[k] == a[k];
  }

  /** `\c` outside quotes contributes `c`. */
  lemma ReadEscaped(c: char, t: string)
    requires c != '\n'
    ensures ReadWord(['\\', c] + t) == Prepend([c], ReadWord(t))
  {
    assert (['\\', c] + t)[2..] == t;
  }

  /** A run of plain characters contributes itself. */
  lemma {:induction false} ReadPlain(w: string, t: string)
    requires AllPlain(w)
    ensures ReadWord(w + t) == Prepend(w, ReadWord(t))
    decreases |w|
  {
    if w == [] {
      assert w + t == t;
      if ReadWord(t).Some? {
        assert w + ReadWord(t).value.0 == ReadWord(t).value.0;
      }
    } else {
      var s := w + t;
      assert s[0] == w[0] && !IsDelim(w[0]) && w[0] != '\'' && w[0] != '\\';
      assert s[1..] == w[1..] + t;
      ReadPlain(w[1..], t);
      PrependPrepend([w[0]], w[1..], ReadWord(t));
      assert [w[0]] + w[1..] == w;
    }
  }

  /** The text after a word, where the word ends. */
  predicate EndsWord(t: string) { t == [] || IsDelim(t[0]) }

  lemma ReadEnd(t: string)
    requires EndsWord(t)
    ensures ReadWord(t) == Some(("", t))
  {
  }

  lemma ReplaceQuoteHead(b: string, rep: string)
    ensures ReplaceChar("'" + b, '\'', rep) == rep + ReplaceChar(b, '\'', rep)
  {
    var qb := "'" + b;
    assert qb[0] == '\'' && qb[1..] == b;
  }

  lemma RegroupQuote(a: string, rep: string, y: string)
    requires rep == "'" + ['\\', '\''] + "'"
    ensures "'" + (a + (rep + y)) + "'" == "'" + a + "'" + (['\\', '\''] + ("'" + y + "'"))
  {
  }

  /** Quoting a text with a `'` after a quote-free part `a`. */
  lemma SingleQuoteSplit(a: string, b: string)
    requires '\'' !in a
    ensures SingleQuote(a + "'" + b) == "'" + a + "'" + (['\\', '\''] + SingleQuote(b))
  {
    var rep := "'\\''";
    var rb := ReplaceChar(b, '\'', rep);
    ReplaceQuoteHead(b, rep);
    ReplaceCharAppend(a, "'" + b, '\'', rep);
    assert a + "'" + b == a + ("'" + b);
    RegroupQuote(a, rep, rb);
  }

  /** The quoting of `p` reads back as exactly `p`, whatever `p` holds. */
  lemma {:induction false} ReadSingleQuote(p: string, t: string)
    requires EndsWord(t)
    ensures ReadWord(SingleQuote(p) + t) == Some((p, t))
    decreases |p|
  {
    ReadEnd(t);
    var i := IndexOf(p, '\'');
    if i == |p| {
      ReadQuotedSegment(p, t);
      assert p + "" == p;
    } else {
      var a, b := p[..i], p[i + 1..];
      assert p == a + "'" + b;
      SingleQuoteSplit(a, b);
      var q := SingleQuote(b) + t;
      assert SingleQuote(p) + t == "'" + a + "'" + (['\\', '\''] + q);
      ReadQuotedSegment(a, ['\\', '\''] + q);
      ReadEscaped('\'', q);
      ReadSingleQuote(b, t);
      PrependPrepend(a, "'", Some((b, t)));
    }
  }

  /** A quoted word followed by the rest of the line is one word. */
  lemma LexSingleQuote(p: string, t: string)
    requires EndsWord(t)
    ensures Lex(SingleQuote(p) + t) == Cons(Word(p), Lex(t))
  {
    ReadSingleQuote(p, t);
  }

  /** A plain word followed by the rest of the line is one word. */
  lemma LexPlain(w: string, t: string)
    requires w != [] && AllPlain(w) && EndsWord(t)
    ensures Lex(w + t) == Cons(Word(w), Lex(t))
  {
    ReadPlain(w, t);
    ReadEnd(t);
    assert (w + t)[0] == w[0];
    assert w + "" == w;
  }

  lemma LexSpace(t: string)
    ensures Lex(" " + t) == Lex(t)
  {
    assert (" " + t)[1..] == t;
  }

  lemma LexPipe(t: string)
    ensures Lex("|" + t) == Cons(Pipe, Lex(t))
  {
    assert ("|" + t)[1..] == t;
  }

  /** A quote with no partner ends the reading: bash waits for more input. */
  lemma ReadUnclosed(t: string)
    requires '\'' !in t
    ensures ReadWord("'" + t) == None
  {
    var s := "'" + t;
    assert s[1..] == t;
  }

  /** A text without `'` is quoted by putting it between two quotes. */
  lemma SingleQuotePlain(x: string)
    requires '\'' !in x
    ensures SingleQuote(x) == "'" + x + "'"
  {
  }

  /** The arguments `args`, each quoted and preceded by a space. */
  function QuotedArgs(args: seq<string>): string
    decreases |args|
  {
    if args == [] then "" else " " + SingleQuote(args[0]) + QuotedArgs(args[1..])
  }

  function Words(args: seq<string>): (ts: seq<Token>)
    ensures |ts| == |args| && forall i :: 0 <= i < |args| ==> ts[i] == Word(args[i])
    decreases |args|
  {
    if args == [] then [] else [Word(args[0])] + Words(args[1..])
  }

  function Concat(ts: seq<Token>, r: Option<seq<Token>>): Option<seq<Token>>
  {
    match r
    case None => None
    case Some(us) => Some(ts + us)
  }

  lemma ConsConcat(w: Token, ws: seq<Token>, r: Option<seq<Token>>)
    ensures Cons(w, Concat(ws, r)) == Concat([w] + ws, r)
  {
    if r.Some? {
      assert [w] + (ws + r.value) == ([w] + ws) + r.value;
    }
  }

  /** Each quoted argument is read back as one word holding exactly that argument. */
  lemma {:induction false} LexQuotedArgs(args: seq<string>, t: string)
    requires EndsWord(t)
    ensures Lex(QuotedArgs(args) + t) == Concat(Words(args), Lex(t))
    decreases |args|
  {
    if args == [] {
      assert QuotedArgs(args) + t == t;
      if Lex(t).Some? {
        assert [] + Lex(t).value == Lex(t).value;
      }
    } else {
      var q := SingleQuote(args[0]);
      var rest := QuotedArgs(args[1..]) + t;
      QuotedArgsCons(args, t);
      LexSpace(q + rest);
      QuotedArgsEnds(args[1..], t);
      LexSingleQuote(args[0], rest);
      LexQuotedArgs(args[1..], t);
      ConsConcat(Word(args[0]), Words(args[1..]), Lex(t));
    }
  }

  lemma QuotedArgsCons(args: seq<string>, t: string)
    requires args != []
    ensures QuotedArgs(args) + t == " " + (SingleQuote(args[0]) + (QuotedArgs(args[1..]) + t))
  {
  }

  /** What follows the quoted arguments still ends a word. */
  lemma QuotedArgsEnds(args: seq<string>, t: string)
    requires EndsWord(t)
    ensures EndsWord(QuotedArgs(args) + t)
  {
    if args == [] {
      assert QuotedArgs(args) + t == t;
    } else {
      assert (QuotedArgs(args) + t)[0] == ' ';
    }
  }

  lemma LexPlainLast(w: string)
    requires w != [] && AllPlain(w)
    ensures Lex(w) == Some([Word(w)])
  {
    LexPlain(w, "");
    assert w + "" == w;
    assert Lex("") == Some([]);
    assert [Word(w)] + [] == [Word(w)];
  }

  /** ` | script` ends a command line with a pipe into a plain word. */
  lemma LexPipeTo(script: string)
    requires script != [] && AllPlain(script)
    ensures Lex(" | " + script) == Some([Pipe, Word(script)])
  {
    var x2 := " " + script;
    var x3 := "|" + x2;
    LexPlainLast(script);
    LexSpace(script);
    LexPipe(x2);
    LexSpace(x3);
    assert " " + x3 == " | " + script;
    assert [Pipe] + [Word(script)] == [Pipe, Word(script)];
  }

  /** A plain command name followed by quoted arguments and then `t`. */
  lemma LexCommand(name: string, args: seq<string>, t: string, tail: seq<Token>)
    requires name != [] && AllPlain(name)
    requires EndsWord(t) && Lex(t) == Some(tail)
    ensures Lex(name + (QuotedArgs(args) + t)) == Some([Word(name)] + Words(args) + tail)
  {
    var u := QuotedArgs(args) + t;
    LexQuotedArgs(args, t);
    assert EndsWord(u) by {
      if args == [] {
        assert u == t;
      } else {
        assert u[0] == ' ';
      }
    }
    LexPlain(name, u);
    assert [Word(name)] + (Words(args) + tail) == [Word(name)] + Words(args) + tail;
  }

  /** `name args… | script`: a plain command name, quoted arguments, one pipe. */
  lemma LexQuotedPipeline(name: string, args: seq<string>, script: string)
    requires name != [] && AllPlain(name)
    requires script != [] && AllPlain(script)
    ensures Lex(name + (QuotedArgs(args) + (" | " + script))) == Some([Word(name)] + Words(args) + [Pipe, Word(script)])
  {
    LexPipeTo(script);
    LexCommand(name, args, " | " + script, [Pipe, Word(script)]);
  }
}
