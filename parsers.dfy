/** The text extraction pipeline of parsers.js: `clean` (normalisation of
    console output), `kvParse` (label/value lines into a map),
    `extractAccountBlock` (the lines from the first `Remarks` line on) and
    `esc` (HTML escaping). The four card renderers and `parseTrial` are in
    module Cards. */
module Parsers {
  import opened Wrappers
  import opened Text
  import opened Ansi

  // ------------------------------------------------------------------ clean

  /** `[\-=━─]` */
  predicate IsRuleChar(c: char)
  {
    c == '-' || c == '=' || c == '\U{2501}' || c == '\U{2500}'
  }

  /** `/^[\-=━─]{10,}$/`: a decorative rule of ten or more rule characters. */
  predicate IsRuleLine(l: string)
  {
    |l| >= 10 && forall i :: 0 <= i < |l| ==> IsRuleChar(l[i])
  }

  /** Where the match of `^\s*\|\s*` ends at the start of `l`, or 0 when there is none. */
  function LeadingBorderEnd(l: string): (e: nat)
    ensures e <= |l|
  {
    var i := SkipWhile(l, 0, IsSpace);
    if i < |l| && l[i] == '|' then SkipWhile(l, i + 1, IsSpace) else 0
  }

  /** `l.replace(/^\s*\|\s*|\s*\|\s*$/g, "")`. The first alternative can only
      match at position 0. The second matches from the leftmost position at or
      after the end of the first match from which only white space, one `|`
      and white space remain: it removes the last `|` when nothing but white
      space follows it, with the white space around it. */
  function StripBorders(l: string): (r: string)
    ensures |r| <= |l|
    ensures forall c :: c in r ==> c in l
  {
    var rest := l[LeadingBorderEnd(l)..];
    var t := TrimEnd(rest);
    if t != [] && t[|t| - 1] == '|' then
      var u := TrimEnd(t[..|t| - 1]);
      assert u == rest[..|u|];
      u
    else rest
  }

  /** The per-line step of `clean`: borders stripped, then `trim()`. */
  function CleanLine(l: string): (r: string)
    ensures IsTrimmed(r)
    ensures forall c :: c in r ==> c in l
  {
    Trim(StripBorders(l))
  }

  /** The lines `clean` keeps: non-empty and not a decorative rule. */
  predicate Kept(l: string)
  {
    l != "" && !IsRuleLine(l)
  }

  /** What every line of `clean`'s output satisfies. */
  predicate IsCleanLine(l: string)
  {
    l != "" && IsTrimmed(l) && !IsRuleLine(l) && '\n' !in l && '\r' !in l
  }

  /** `lines.map(CleanLine).filter(Kept)` */
  function CleanLines(lines: seq<string>): (r: seq<string>)
    requires forall i :: 0 <= i < |lines| ==> '\n' !in lines[i] && '\r' !in lines[i]
    ensures |r| <= |lines|
    ensures forall i :: 0 <= i < |r| ==> IsCleanLine(r[i])
  {
    if lines == [] then []
    else
      var l := CleanLine(lines[0]);
      var rest := CleanLines(lines[1..]);
      CleanLineClean(lines[0]);
      CleanPrefix(if Kept(l) then [l] else [], rest);
      (if Kept(l) then [l] else []) + rest
  }

  /** A kept line of a split is a clean line. */
  lemma CleanLineClean(l: string)
    requires '\n' !in l && '\r' !in l
    ensures Kept(CleanLine(l)) ==> IsCleanLine(CleanLine(l))
  {
    var r := CleanLine(l);
    assert '\n' !in r && '\r' !in r;
  }

  /** Clean lines put in front of clean lines. */
  lemma CleanPrefix(h: seq<string>, rest: seq<string>)
    requires forall i :: 0 <= i < |h| ==> IsCleanLine(h[i])
    requires forall i :: 0 <= i < |rest| ==> IsCleanLine(rest[i])
    ensures forall i :: 0 <= i < |h + rest| ==> IsCleanLine((h + rest)[i])
  {
  }

  /** `clean(raw)`: ANSI sequences and carriage returns removed, each line's
      table borders stripped and the line trimmed, empty lines and decorative
      rules dropped, lines joined by `\n`. A null or undefined input counts as "". */
  function Clean(raw: Option<string>): (r: string)
    ensures raw.None? ==> r == ""
    ensures '\r' !in r
    ensures r != "" ==> forall i :: 0 <= i < |Split(r, '\n')| ==> IsCleanLine(Split(r, '\n')[i])
  {
    var text := RemoveCarriageReturns(StripLetterCsi(OrEmpty(raw)));
    var lines := Split(text, '\n');
    SplitChars(text, '\n', '\r');
    var kept := CleanLines(lines);
    var r := Join(kept, '\n');
    JoinChars(kept, '\n', '\r');
    assert r != "" ==> Split(r, '\n') == kept by {
      if r != "" {
        SplitJoin(kept, '\n');
      }
    }
    r
  }

  /** A clean line that neither starts nor ends with `|`. */
  predicate IsFixedLine(l: string)
  {
    IsCleanLine(l) && l[0] != '|' && l[|l| - 1] != '|'
  }

  /** A text `clean` leaves as it is: no ESC, and its lines are clean lines
      that neither start nor end with `|`. */
  predicate IsCleanDocument(t: string)
  {
    && ESC !in t
    && (t != "" ==> forall i :: 0 <= i < |Split(t, '\n')| ==> IsFixedLine(Split(t, '\n')[i]))
  }

  /** A trimmed line without borders is its own clean line. */
  lemma CleanLinePlain(l: string)
    requires IsTrimmed(l) && (l != [] ==> l[0] != '|' && l[|l| - 1] != '|')
    ensures CleanLine(l) == l
  {
    if l != [] {
      SkipWhileRun(l, 0, 0, IsSpace);
    }
    assert l[LeadingBorderEnd(l)..] == l;
    TrimTrimmed(l);
  }

  lemma {:induction false} CleanLinesFixed(lines: seq<string>)
    requires forall i :: 0 <= i < |lines| ==> '\n' !in lines[i] && '\r' !in lines[i]
    requires forall i :: 0 <= i < |lines| ==> IsFixedLine(lines[i])
    ensures CleanLines(lines) == lines
    decreases |lines|
  {
    if lines != [] {
      CleanLinePlain(lines[0]);
      CleanLinesFixed(lines[1..]);
      ConsSplit(lines, []);
    }
  }

  /** `clean` changes nothing in a clean document. */
  lemma CleanFixesCleanDocument(t: string)
    requires IsCleanDocument(t)
    ensures Clean(Some(t)) == t
  {
    var lines := Split(t, '\n');
    if t == "" {
      assert lines == [""];
      assert CleanLine("") == "";
    } else {
      JoinChars(lines, '\n', '\r');
      assert RemoveCarriageReturns(StripLetterCsi(t)) == t;
      CleanLinesFixed(lines);
    }
  }

  /** `clean` is idempotent on the inputs whose output contains no ESC and has
      no line that starts or ends with `|`. It is not idempotent in general
      (CleanNotIdempotent). */
  lemma CleanIdempotentWhen(raw: Option<string>)
    ensures var c := Clean(raw);
      (&& ESC !in c
       && (c != "" ==> forall i :: 0 <= i < |Split(c, '\n')| ==>
             && Split(c, '\n')[i] != ""
             && Split(c, '\n')[i][0] != '|'
             && Split(c, '\n')[i][|Split(c, '\n')[i]| - 1] != '|'))
      ==> Clean(Some(c)) == c
  {
    BorderFreeFixed(Clean(raw));
  }

  /** A text with the properties of `clean`'s output, no ESC and no bar-edged
      line is a fixed point of `clean`. */
  lemma BorderFreeFixed(c: string)
    requires c != "" ==> forall i :: 0 <= i < |Split(c, '\n')| ==> IsCleanLine(Split(c, '\n')[i])
    ensures (&& ESC !in c
             && (c != "" ==> forall i :: 0 <= i < |Split(c, '\n')| ==>
                   && Split(c, '\n')[i] != ""
                   && Split(c, '\n')[i][0] != '|'
                   && Split(c, '\n')[i][|Split(c, '\n')[i]| - 1] != '|'))
      ==> Clean(Some(c)) == c
  {
    if ESC !in c && (c != "" ==> forall i :: 0 <= i < |Split(c, '\n')| ==>
         && Split(c, '\n')[i] != ""
         && Split(c, '\n')[i][0] != '|'
         && Split(c, '\n')[i][|Split(c, '\n')[i]| - 1] != '|')
    {
      BorderFreeDocument(c);
      CleanFixesCleanDocument(c);
    }
  }

  /** An output of `clean` without ESC and bar-edged lines is a clean document. */
  lemma BorderFreeDocument(c: string)
    requires ESC !in c
    requires c != "" ==> forall i :: 0 <= i < |Split(c, '\n')| ==> IsCleanLine(Split(c, '\n')[i])
    requires c != "" ==> forall i :: 0 <= i < |Split(c, '\n')| ==>
      && Split(c, '\n')[i] != ""
      && Split(c, '\n')[i][0] != '|'
      && Split(c, '\n')[i][|Split(c, '\n')[i]| - 1] != '|'
    ensures IsCleanDocument(c)
  {
  }

  /** `clean` of a single line keeps that line's clean form, unless it is empty
      or a rule. */
  lemma CleanOneLine(l: string)
    requires ESC !in l && '\r' !in l && '\n' !in l
    ensures Clean(Some(l)) == if Kept(CleanLine(l)) then CleanLine(l) else ""
  {
    assert RemoveCarriageReturns(StripLetterCsi(l)) == l;
    assert IndexOf(l, '\n') == |l|;
    assert Split(l, '\n') == [l];
    assert CleanLines([l]) == (if Kept(CleanLine(l)) then [CleanLine(l)] else []) + CleanLines([]);
  }

  /** Twelve `=` form a rule and are dropped. */
  lemma TwelveEqualsDropped(a: string)
    requires a == "============"
    ensures Clean(Some(a)) == ""
  {
    assert ESC !in a && '\r' !in a && '\n' !in a;
    CleanLinePlain(a);
    assert IsRuleLine(a);
    CleanOneLine(a);
  }

  /** Nine `=` are too few for a rule and are kept. */
  lemma NineEqualsKept(b: string)
    requires b == "========="
    ensures Clean(Some(b)) == b
  {
    assert ESC !in b && '\r' !in b && '\n' !in b;
    CleanLinePlain(b);
    assert !IsRuleLine(b);
    CleanOneLine(b);
  }

  /** The pieces of a line framed by one pair of borders. */
  lemma BorderedPieces(w1: string, y: string, w2: string)
    ensures var l := "|" + w1 + y + w2 + "|";
      && l[0] == '|'
      && (forall m :: 1 <= m < 1 + |w1| ==> l[m] == w1[m - 1])
      && (y != [] ==> l[1 + |w1|] == y[0])
      && l[1 + |w1|..] == y + w2 + "|"
  {
  }

  /** A trimmed text framed by one pair of borders, with white space inside
      the borders, is cleaned to that text: one pair is stripped. */
  lemma CleanBordered(w1: string, y: string, w2: string)
    requires forall k :: 0 <= k < |w1| ==> IsSpace(w1[k])
    requires forall k :: 0 <= k < |w2| ==> IsSpace(w2[k])
    requires y != [] && IsTrimmed(y)
    ensures CleanLine("|" + w1 + y + w2 + "|") == y
  {
    var l := "|" + w1 + y + w2 + "|";
    var rest := y + w2 + "|";
    BorderedPieces(w1, y, w2);
    SkipWhileRun(l, 0, 0, IsSpace);
    SkipWhileRun(l, 1, 1 + |w1|, IsSpace);
    assert LeadingBorderEnd(l) == 1 + |w1|;
    assert rest[..|rest| - 1] == y + w2;
    assert TrimEnd(rest) == rest;
    TrimEndBeforeSpaces(y, w2);
    TrimTrimmed(y);
  }

  lemma StripOuterBorder()
    ensures CleanLine("|| a ||") == "| a |"
  {
    assert "|| a ||" == "|" + "" + "| a |" + "" + "|";
    CleanBordered("", "| a |", "");
  }

  lemma StripInnerBorder()
    ensures CleanLine("| a |") == "a"
  {
    assert "| a |" == "|" + " " + "a" + " " + "|";
    CleanBordered(" ", "a", " ");
  }

  /** Each pass of `clean` strips one border pair only, so a second pass can
      change the output of the first. */
  lemma CleanNotIdempotent(a: string)
    requires a == "|| a ||"
    ensures Clean(Some(a)) == "| a |"
    ensures Clean(Some(Clean(Some(a)))) == "a" != Clean(Some(a))
  {
    CleanOuterPass(a);
    CleanInnerPass("| a |");
  }

  lemma CleanOuterPass(a: string)
    requires a == "|| a ||"
    ensures Clean(Some(a)) == "| a |"
  {
    assert ESC !in a && '\r' !in a && '\n' !in a;
    StripOuterBorder();
    assert !IsRuleLine("| a |");
    CleanOneLine(a);
  }

  lemma CleanInnerPass(b: string)
    requires b == "| a |"
    ensures Clean(Some(b)) == "a"
  {
    assert ESC !in b && '\r' !in b && '\n' !in b;
    StripInnerBorder();
    assert !IsRuleLine("a");
    CleanOneLine(b);
  }

  /** `clean` of a text whose ANSI-stripped form is one line without `\r`. */
  lemma CleanOfStripped(l: string, t: string)
    requires StripLetterCsi(l) == t && '\r' !in t && '\n' !in t
    ensures Clean(Some(l)) == if Kept(CleanLine(t)) then CleanLine(t) else ""
  {
    assert RemoveCarriageReturns(StripLetterCsi(l)) == t;
    assert IndexOf(t, '\n') == |t|;
    assert Split(t, '\n') == [t];
    assert CleanLines([t]) == (if Kept(CleanLine(t)) then [CleanLine(t)] else []) + CleanLines([]);
  }

  /** Removing one ANSI sequence can bring together the pieces of another,
      which only a second pass removes: `clean` is not idempotent on text
      that still holds ESC after cleaning, even without any `|`. */
  lemma CleanEscExposed(a: string, b: string)
    requires a == [ESC, '[', ESC, '[', '1', 'm', 'A'] && b == [ESC, '[', 'A']
    ensures Clean(Some(a)) == b
    ensures Clean(Some(b)) == "" != b
  {
    CleanEscFirst(a, b);
    CleanEscSecond(b);
  }

  /** `clean` keeps the outer `ESC [` and removes the inner sequence. */
  lemma CleanEscFirst(a: string, b: string)
    requires a == [ESC, '[', ESC, '[', '1', 'm', 'A'] && b == [ESC, '[', 'A']
    ensures Clean(Some(a)) == b
  {
    StripExposed(a, b);
    CleanLinePlain(b);
    assert !IsRuleLine(b);
    CleanOfStripped(a, b);
  }

  /** The inner sequence `ESC [ 1 m` goes, the outer `ESC [` is kept. */
  lemma StripExposed(a: string, b: string)
    requires a == [ESC, '[', ESC, '[', '1', 'm', 'A'] && b == [ESC, '[', 'A']
    ensures StripLetterCsi(a) == b
  {
    var inner := [ESC, '['] + "1" + ['m'] + "A";
    ExposedPieces(a, b, inner);
    OpenKept(inner);
    LetterCsiRemoved("1", 'm', "A");
    StripLetterCsiPlainPrefix("A", "");
  }

  lemma ExposedPieces(a: string, b: string, inner: string)
    requires a == [ESC, '[', ESC, '[', '1', 'm', 'A'] && b == [ESC, '[', 'A']
    requires inner == [ESC, '['] + "1" + ['m'] + "A"
    ensures a == [ESC] + (['['] + inner) && inner != [] && inner[0] == ESC
    ensures b == [ESC] + (['['] + ("A" + "")) && ESC !in "A"
  {
  }

  /** `ESC [ A` is itself a complete sequence. */
  lemma CleanEscSecond(b: string)
    requires b == [ESC, '[', 'A']
    ensures Clean(Some(b)) == ""
  {
    assert b == [ESC, '['] + "" + ['A'] + "";
    LetterCsiRemoved("", 'A', "");
    CleanOfStripped(b, "");
  }

  // ---------------------------------------------------------------- kvParse

  /** The label class `[A-Za-z0-9 \/()#-]`. */
  predicate IsLabelChar(c: char)
  {
    IsAsciiLetter(c) || IsAsciiDigit(c) || c == ' ' || c == '/' || c == '(' || c == ')' || c == '#' || c == '-'
  }

  /** Whether the text before the first colon matches `^\s*([label]+?)\s*`:
      its trimmed form is made of label characters, or, when it is all white
      space, it holds a plain space that the lazy group can take. */
  predicate LabelMatches(p: string)
  {
    if Trim(p) != "" then forall i :: 0 <= i < |Trim(p)| ==> IsLabelChar(Trim(p)[i])
    else ' ' in p
  }

  /** A key as `kvParse` stores it: trimmed and in lower case. */
  predicate IsKey(k: string)
  {
    IsTrimmed(k) && forall i :: 0 <= i < |k| ==> IsLabelChar(k[i]) && !('A' <= k[i] <= 'Z')
  }

  /** Whether `\s*(.*)$` matches what follows the colon. */
  predicate ValueMatches(rest: string)
  {
    forall k :: 0 <= k < |TrimStart(rest)| ==> !IsLineTerminator(TrimStart(rest)[k])
  }

  /** Lower-casing a matched label gives a key. */
  lemma LabelKey(p: string)
    requires LabelMatches(p)
    ensures IsKey(LowerAscii(Trim(p)))
  {
    var t := Trim(p);
    if t != "" {
      LowerLabel(t);
    }
  }

  /** Lowering a trimmed run of label characters keeps it a key. */
  lemma LowerLabel(t: string)
    requires t != [] && IsTrimmed(t)
    requires forall i :: 0 <= i < |t| ==> IsLabelChar(t[i])
    ensures IsKey(LowerAscii(t))
  {
    var key := LowerAscii(t);
    forall i | 0 <= i < |key|
      ensures IsLabelChar(key[i]) && !('A' <= key[i] <= 'Z')
    {
      assert key[i] == LowerChar(t[i]);
      assert IsLabelChar(t[i]);
    }
    assert key[0] == LowerChar(t[0]) && key[|key| - 1] == LowerChar(t[|t| - 1]);
  }


  /** `line.match(/^\s*([A-Za-z0-9 \/()#-]+?)\s*:\s*(.*)$/)` followed by
      `[m[1].trim().toLowerCase(), m[2].trim()]`. Neither the group nor the
      white space before the colon can hold a colon, so the colon matched is
      the first one; `(.*)$` needs the text after the colon, past its leading
      white space, to be free of line terminators. */
  function KvLine(line: string): (r: Option<(string, string)>)
    ensures r.Some? ==> ':' in line && IsKey(r.value.0) && IsTrimmed(r.value.1)
    ensures r.Some? ==> r.value.1 == Trim(line[IndexOf(line, ':') + 1..])
  {
    var i := IndexOf(line, ':');
    if i == |line| then None
    else if LabelMatches(line[..i]) && ValueMatches(line[i + 1..]) then
      LabelKey(line[..i]);
      Some((LowerAscii(Trim(line[..i])), Trim(line[i + 1..])))
    else None
  }

  /** A `Label : value` line yields the lower-cased label and the whole value:
      white space around both is dropped and colons inside the value are kept. */
  lemma KvLineLabelled(w1: string, name: string, w2: string, w3: string, value: string, w4: string)
    requires forall k :: 0 <= k < |w1| ==> IsSpace(w1[k])
    requires forall k :: 0 <= k < |w2| ==> IsSpace(w2[k])
    requires forall k :: 0 <= k < |w3| ==> IsSpace(w3[k])
    requires forall k :: 0 <= k < |w4| ==> IsSpace(w4[k]) && !IsLineTerminator(w4[k])
    requires name != "" && IsTrimmed(name) && forall k :: 0 <= k < |name| ==> IsLabelChar(name[k])
    requires value != "" && IsTrimmed(value) && forall k :: 0 <= k < |value| ==> !IsLineTerminator(value[k])
    ensures KvLine((w1 + name + w2) + ":" + (w3 + value + w4)) == Some((LowerAscii(name), value))
  {
    PaddedLabel(w1, name, w2);
    PaddedValue(w3, value, w4);
    KvLineSplit(w1 + name + w2, w3 + value + w4);
  }

  /** A line with a colon after a colon-free matching label. */
  lemma KvLineSplit(p: string, rest: string)
    requires ':' !in p && LabelMatches(p) && ValueMatches(rest)
    ensures KvLine(p + ":" + rest) == Some((LowerAscii(Trim(p)), Trim(rest)))
  {
    ColonAfter(p, rest);
  }

  lemma PaddedLabel(w1: string, name: string, w2: string)
    requires forall k :: 0 <= k < |w1| ==> IsSpace(w1[k])
    requires forall k :: 0 <= k < |w2| ==> IsSpace(w2[k])
    requires name != "" && IsTrimmed(name) && forall k :: 0 <= k < |name| ==> IsLabelChar(name[k])
    ensures ':' !in w1 + name + w2 && LabelMatches(w1 + name + w2) && Trim(w1 + name + w2) == name
  {
    TrimPadded(w1, name, w2);
    PaddedNoColon(w1, name, w2);
  }

  lemma PaddedNoColon(w1: string, name: string, w2: string)
    requires forall k :: 0 <= k < |w1| ==> IsSpace(w1[k])
    requires forall k :: 0 <= k < |w2| ==> IsSpace(w2[k])
    requires forall k :: 0 <= k < |name| ==> IsLabelChar(name[k])
    ensures ':' !in w1 + name + w2
  {
    var p := w1 + name + w2;
    forall k | 0 <= k < |p|
      ensures p[k] != ':'
    {
      if k < |w1| {
        assert p[k] == w1[k];
      } else if k < |w1| + |name| {
        assert p[k] == name[k - |w1|];
      } else {
        assert p[k] == w2[k - |w1| - |name|];
      }
    }
  }

  lemma PaddedValue(w3: string, value: string, w4: string)
    requires forall k :: 0 <= k < |w3| ==> IsSpace(w3[k])
    requires forall k :: 0 <= k < |w4| ==> IsSpace(w4[k]) && !IsLineTerminator(w4[k])
    requires value != "" && IsTrimmed(value) && forall k :: 0 <= k < |value| ==> !IsLineTerminator(value[k])
    ensures ValueMatches(w3 + value + w4) && Trim(w3 + value + w4) == value
  {
    TrimStartAfterSpaces(w3, value + w4);
    assert w3 + (value + w4) == w3 + value + w4;
    TrimPadded(w3, value, w4);
  }

  /** The first colon of `p + ":" + rest` is the one after `p` when `p` has none. */
  lemma ColonAfter(p: string, rest: string)
    requires ':' !in p
    ensures var line := p + ":" + rest;
      IndexOf(line, ':') == |p| && line[..|p|] == p && line[|p| + 1..] == rest
  {
    var line := p + ":" + rest;
    assert forall k :: 0 <= k < |p| ==> line[k] == p[k];
    assert line[|p|] == ':';
    assert line[..|p|] == p;
    assert line[|p| + 1..] == rest;
  }

  lemma LinkTlsName(name: string)
    requires name == "Link TLS"
    ensures IsTrimmed(name) && forall k :: 0 <= k < |name| ==> IsLabelChar(name[k])
  {
  }

  lemma LinkTlsLower(name: string)
    requires name == "Link TLS"
    ensures LowerAscii(name) == "link tls"
  {
    var l := LowerAscii(name);
    assert l[0] == 'l' && l[5] == 't' && l[6] == 'l' && l[7] == 's';
  }

  lemma LinkTlsValue(v: string)
    requires v == "vmess://abc:443?x=1"
    ensures IsTrimmed(v) && forall k :: 0 <= k < |v| ==> !IsLineTerminator(v[k])
  {
  }

  lemma LinkTlsLine(line: string, name: string, v: string)
    requires line == "Link TLS: vmess://abc:443?x=1"
    requires name == "Link TLS" && v == "vmess://abc:443?x=1"
    ensures line == ("" + name + "") + ":" + (" " + v + "")
  {
  }

  /** URLs survive: the value is everything after the first colon. */
  lemma LinkTlsExample(line: string, name: string, v: string)
    requires line == "Link TLS: vmess://abc:443?x=1"
    requires name == "Link TLS" && v == "vmess://abc:443?x=1"
    ensures KvLine(line) == Some(("link tls", v))
  {
    LinkTlsName(name);
    LinkTlsLower(name);
    LinkTlsValue(v);
    LinkTlsLine(line, name, v);
    KvLineLabelled("", name, "", " ", v, "");
  }

  /** What each line contributes: a key and a value, or nothing. */
  type Entry = Option<(string, string)>

  /** The object built by assigning `obj[key] = val` for each entry in turn,
      so a later entry overwrites an earlier one with the same key. */
  function Assign(entries: seq<Entry>): (m: map<string, string>)
    decreases |entries|
  {
    if entries == [] then map[]
    else
      var m := Assign(entries[..|entries| - 1]);
      match entries[|entries| - 1]
      case None => m
      case Some(kv) => m[kv.0 := kv.1]
  }

  /** The entries of the lines, in order. */
  function KvEntries(lines: seq<string>): (es: seq<Entry>)
    ensures |es| == |lines| && forall i :: 0 <= i < |lines| ==> es[i] == KvLine(lines[i])
  {
    seq(|lines|, i requires 0 <= i < |lines| => KvLine(lines[i]))
  }

  /** The object `kvParse` builds from `lines`. */
  function KvOfLines(lines: seq<string>): map<string, string>
  {
    Assign(KvEntries(lines))
  }

  /** `kvParse(block)` */
  method KvParse(block: string) returns (obj: map<string, string>)
    ensures obj == KvOfLines(Split(block, '\n'))
  {
    var lines := Split(block, '\n');
    ghost var es := KvEntries(lines);
    obj := map[];
    var i := 0;
    while i < |lines|
      invariant i <= |lines|
      invariant obj == Assign(es[..i])
    {
      var m := KvLine(lines[i]);
      assert m == es[i];
      AssignPrefixStep(es, i);
      if m.Some? {
        obj := obj[m.value.0 := m.value.1];
      }
      i := i + 1;
    }
    assert es[..i] == es;
  }

  /** Assigning one more entry of a sequence. */
  lemma AssignPrefixStep(es: seq<Entry>, i: nat)
    requires i < |es|
    ensures Assign(es[..i + 1]) == match es[i]
      case None => Assign(es[..i])
      case Some(kv) => Assign(es[..i])[kv.0 := kv.1]
  {
    assert es[..i + 1][..i] == es[..i];
  }

  /** A key is present exactly when some entry carries it. */
  lemma {:induction false} AssignKeys(es: seq<Entry>, k: string)
    ensures k in Assign(es) <==> exists i :: 0 <= i < |es| && es[i].Some? && es[i].value.0 == k
    decreases |es|
  {
    if es != [] {
      var n := |es| - 1;
      AssignKeys(es[..n], k);
      assert forall i :: 0 <= i < n ==> es[..n][i] == es[i];
    }
  }

  /** The value of a key is the one of the last entry that carries it. */
  lemma {:induction false} AssignLastWins(es: seq<Entry>, i: nat, k: string, v: string)
    requires i < |es| && es[i] == Some((k, v))
    requires forall j :: i < j < |es| ==> es[j].None? || es[j].value.0 != k
    ensures k in Assign(es) && Assign(es)[k] == v
    decreases |es|
  {
    if i < |es| - 1 {
      var n := |es| - 1;
      assert forall j :: 0 <= j < n ==> es[..n][j] == es[j];
      AssignLastWins(es[..n], i, k, v);
    }
  }

  /** A key is present exactly when some line yields it. */
  lemma KvKeys(lines: seq<string>, k: string)
    ensures k in KvOfLines(lines) <==>
      exists i :: 0 <= i < |lines| && KvLine(lines[i]).Some? && KvLine(lines[i]).value.0 == k
  {
    AssignKeys(KvEntries(lines), k);
  }

  /** A repeated label: the value is the one on the last line that yields the key. */
  lemma KvLastWins(lines: seq<string>, i: nat, k: string, v: string)
    requires i < |lines| && KvLine(lines[i]) == Some((k, v))
    requires forall j :: i < j < |lines| ==> KvLine(lines[j]).None? || KvLine(lines[j]).value.0 != k
    ensures k in KvOfLines(lines) && KvOfLines(lines)[k] == v
  {
    AssignLastWins(KvEntries(lines), i, k, v);
  }

  /** Every stored value is the value of some entry with its key. */
  lemma {:induction false} AssignValues(es: seq<Entry>, k: string)
    requires k in Assign(es)
    ensures exists i :: 0 <= i < |es| && es[i] == Some((k, Assign(es)[k]))
    decreases |es|
  {
    var n := |es| - 1;
    if es[n].Some? && es[n].value.0 == k {
      assert es[n] == Some((k, Assign(es)[k]));
    } else {
      AssignValues(es[..n], k);
      var i :| 0 <= i < n && es[..n][i] == Some((k, Assign(es[..n])[k]));
      assert es[i] == Some((k, Assign(es)[k]));
    }
  }

  /** Keys are trimmed and lower-cased label text; values are trimmed. */
  lemma KvNormalised(lines: seq<string>)
    ensures forall k :: k in KvOfLines(lines) ==> IsKey(k) && IsTrimmed(KvOfLines(lines)[k])
  {
    var es := KvEntries(lines);
    forall k | k in KvOfLines(lines)
      ensures IsKey(k) && IsTrimmed(KvOfLines(lines)[k])
    {
      AssignValues(es, k);
      var i :| 0 <= i < |es| && es[i] == Some((k, Assign(es)[k]));
      assert KvLine(lines[i]) == es[i];
    }
  }

  // ---------------------------------------------------- extractAccountBlock

  /** `\w`: ASCII letters, digits and `_`. */
  predicate IsWordChar(c: char)
  {
    IsAsciiLetter(c) || IsAsciiDigit(c) || c == '_'
  }

  /** `/^remarks\b/i`: the line starts with "remarks" in any ASCII case and the
      word ends there. Without the `u` flag, case-insensitive matching maps no
      non-ASCII character onto these letters. */
  predicate IsRemarksLine(l: string)
  {
    |l| >= 7 && LowerAscii(l[..7]) == "remarks" && (|l| == 7 || !IsWordChar(l[7]))
  }

  /** `lines.findIndex(l => /^remarks\b/i.test(l))` from index `j` on, with
      `|lines|` standing for -1. */
  function FirstRemarks(lines: seq<string>, j: nat): (i: nat)
    requires j <= |lines|
    ensures j <= i <= |lines|
    ensures forall k :: j <= k < i ==> !IsRemarksLine(lines[k])
    ensures i < |lines| ==> IsRemarksLine(lines[i])
    decreases |lines| - j
  {
    if j == |lines| then j
    else if IsRemarksLine(lines[j]) then j
    else FirstRemarks(lines, j + 1)
  }

  /** The lines of `c` from its first "remarks" line on, or `c` itself when
      there is none. */
  function AccountBlock(c: string): string
  {
    var lines := Split(c, '\n');
    var i := FirstRemarks(lines, 0);
    if i == |lines| then c else Join(lines[i..], '\n')
  }

  /** The block is a suffix of the text. */
  lemma AccountBlockSuffix(c: string)
    ensures |AccountBlock(c)| <= |c| && AccountBlock(c) == c[|c| - |AccountBlock(c)|..]
  {
    var lines := Split(c, '\n');
    var i := FirstRemarks(lines, 0);
    if i < |lines| {
      SplitSuffix(c, '\n', i);
      assert AccountBlock(c) == Join(lines[i..], '\n');
    } else {
      assert AccountBlock(c) == c;
      assert c[0..] == c;
    }
  }

  /** With a "remarks" line, the block splits into the lines from the first
      one on. */
  lemma AccountBlockLines(c: string)
    requires FirstRemarks(Split(c, '\n'), 0) < |Split(c, '\n')|
    ensures Split(AccountBlock(c), '\n') == Split(c, '\n')[FirstRemarks(Split(c, '\n'), 0)..]
  {
    SplitSuffix(c, '\n', FirstRemarks(Split(c, '\n'), 0));
  }

  /** Without a "remarks" line the block is the whole cleaned text. */
  lemma AccountBlockWithoutRemarks(c: string)
    requires forall k :: 0 <= k < |Split(c, '\n')| ==> !IsRemarksLine(Split(c, '\n')[k])
    ensures AccountBlock(c) == c
  {
  }

  /** `extractAccountBlock(raw)` */
  function ExtractAccountBlock(raw: Option<string>): string
  {
    AccountBlock(Clean(raw))
  }

  /** The block of a cleaned text `c` is a suffix of it: from the first line
      that starts with the word "remarks" to the end, or the whole text when
      no line does. */
  lemma AccountBlockCases(c: string)
    ensures |AccountBlock(c)| <= |c| && AccountBlock(c) == c[|c| - |AccountBlock(c)|..]
    ensures var lines := Split(c, '\n'); var i := FirstRemarks(lines, 0);
      && (i == |lines| <==> forall k :: 0 <= k < |lines| ==> !IsRemarksLine(lines[k]))
      && (i == |lines| ==> AccountBlock(c) == c)
      && (i < |lines| ==> IsRemarksLine(lines[i]) && Split(AccountBlock(c), '\n') == lines[i..])
  {
    AccountBlockSuffix(c);
    if FirstRemarks(Split(c, '\n'), 0) < |Split(c, '\n')| {
      AccountBlockLines(c);
    }
  }

  /** The account block of a cleaned text starts at its first "remarks" line. */
  lemma ExtractFromRemarks(raw: string, lines: seq<string>, i: nat)
    requires IsCleanDocument(raw) && raw != ""
    requires lines == Split(raw, '\n')
    requires i < |lines| && IsRemarksLine(lines[i])
    requires forall k :: 0 <= k < i ==> !IsRemarksLine(lines[k])
    ensures ExtractAccountBlock(Some(raw)) == Join(lines[i..], '\n')
  {
    CleanFixesCleanDocument(raw);
    AccountBlockFrom(raw, lines, i);
  }

  /** The block of a text starts at its first "remarks" line. */
  lemma AccountBlockFrom(c: string, lines: seq<string>, i: nat)
    requires lines == Split(c, '\n')
    requires i < |lines| && IsRemarksLine(lines[i])
    requires forall k :: 0 <= k < i ==> !IsRemarksLine(lines[k])
    ensures AccountBlock(c) == Join(lines[i..], '\n')
  {
    FirstRemarksAt(lines, i);
  }

  /** The first "remarks" line is the one with none before it. */
  lemma FirstRemarksAt(lines: seq<string>, i: nat)
    requires i < |lines| && IsRemarksLine(lines[i])
    requires forall k :: 0 <= k < i ==> !IsRemarksLine(lines[k])
    ensures FirstRemarks(lines, 0) == i
  {
  }

  lemma JoinTwo(a: string, b: string)
    ensures Join([a, b], '\n') == a + "\n" + b
  {
    assert [a, b][1..] == [b];
  }

  lemma JoinThree(a: string, b: string, c: string)
    ensures Join([a, b, c], '\n') == a + "\n" + b + "\n" + c
  {
    assert [a, b, c][1..] == [b, c];
    JoinTwo(b, c);
  }

  /** A line of a clean document. */
  predicate IsDocumentLine(l: string)
  {
    IsFixedLine(l) && ESC !in l
  }

  /** Lines that join into a clean document. */
  predicate LinesOfCleanDocument(lines: seq<string>)
  {
    |lines| >= 1 && forall k :: 0 <= k < |lines| ==> IsDocumentLine(lines[k])
  }

  predicate IsWordOrPunct(c: char)
  {
    IsAsciiLetter(c) || IsAsciiDigit(c) || c == ' ' || c == ':'
  }

  /** A line of letters, digits, spaces and colons that starts and ends with
      a letter or digit is a document line. */
  lemma WordLine(l: string)
    requires l != [] && forall k :: 0 <= k < |l| ==> IsWordOrPunct(l[k])
    requires IsAsciiLetter(l[0]) || IsAsciiDigit(l[0])
    requires IsAsciiLetter(l[|l| - 1]) || IsAsciiDigit(l[|l| - 1])
    ensures IsDocumentLine(l)
  {
    assert !IsRuleChar(l[0]);
    assert forall k :: 0 <= k < |l| ==> l[k] != ESC && l[k] != '\n' && l[k] != '\r';
  }

  /** Joining such lines gives a text that `clean` leaves alone and splits back. */
  lemma CleanDocumentOfLines(lines: seq<string>)
    requires LinesOfCleanDocument(lines)
    ensures Split(Join(lines, '\n'), '\n') == lines
    ensures IsCleanDocument(Join(lines, '\n')) && Join(lines, '\n') != ""
    ensures Clean(Some(Join(lines, '\n'))) == Join(lines, '\n')
  {
    SplitJoin(lines, '\n');
    JoinChars(lines, '\n', ESC);
    var t := Join(lines, '\n');
    CleanFixesCleanDocument(t);
  }

  lemma RemarksWord(l1: string)
    requires l1 == "Remarks: x"
    ensures IsRemarksLine(l1)
  {
    var w := LowerAscii(l1[..7]);
    assert w[0] == 'r' && w[1] == 'e' && w[2] == 'm' && w[3] == 'a' && w[4] == 'r' && w[5] == 'k' && w[6] == 's';
    assert w == "remarks";
  }

  lemma JunkThenRemarksLines(raw: string, l0: string, l1: string, l2: string)
    requires raw == "junk\nRemarks: x\nid: 1"
    requires l0 == "junk" && l1 == "Remarks: x" && l2 == "id: 1"
    ensures raw == Join([l0, l1, l2], '\n') && Join([l1, l2], '\n') == "Remarks: x\nid: 1"
    ensures LinesOfCleanDocument([l0, l1, l2])
    ensures !IsRemarksLine(l0) && IsRemarksLine(l1)
  {
    JunkThenRemarksJoin(raw, l0, l1, l2);
    RemarksWord(l1);
    ThreeWordLines(l0, l1, l2);
  }

  lemma JunkThenRemarksJoin(raw: string, l0: string, l1: string, l2: string)
    requires raw == "junk\nRemarks: x\nid: 1"
    requires l0 == "junk" && l1 == "Remarks: x" && l2 == "id: 1"
    ensures raw == Join([l0, l1, l2], '\n') && Join([l1, l2], '\n') == "Remarks: x\nid: 1"
  {
    JoinTwo(l1, l2);
    JoinThree(l0, l1, l2);
  }

  lemma ThreeWordLines(l0: string, l1: string, l2: string)
    requires l0 == "junk" && l1 == "Remarks: x" && l2 == "id: 1"
    ensures LinesOfCleanDocument([l0, l1, l2])
  {
    WordLine(l0);
    WordLine(l1);
    WordLine(l2);
  }

  /** The block starts at the "Remarks" line and drops the junk before it. */
  lemma JunkThenRemarks(raw: string)
    requires raw == "junk\nRemarks: x\nid: 1"
    ensures ExtractAccountBlock(Some(raw)) == "Remarks: x\nid: 1"
  {
    var lines := ["junk", "Remarks: x", "id: 1"];
    JunkThenRemarksLines(raw, lines[0], lines[1], lines[2]);
    CleanDocumentOfLines(lines);
    ExtractFromRemarks(raw, lines, 1);
    assert lines[1..] == [lines[1], lines[2]];
  }
  lemma NoRemarksLines(raw: string, l0: string, l1: string)
    requires raw == "no remarks here\nfoo: bar"
    requires l0 == "no remarks here" && l1 == "foo: bar"
    ensures raw == Join([l0, l1], '\n')
    ensures LinesOfCleanDocument([l0, l1])
    ensures !IsRemarksLine(l0) && !IsRemarksLine(l1)
  {
    JoinTwo(l0, l1);
    WordLine(l0);
    WordLine(l1);
    assert LowerAscii(l0[..7])[0] == 'n';
    assert LowerAscii(l1[..7])[0] == 'f';
  }

  /** Without a "remarks" line the cleaned text comes back whole. */
  lemma ExtractWithoutRemarks(lines: seq<string>)
    requires LinesOfCleanDocument(lines)
    requires forall k :: 0 <= k < |lines| ==> !IsRemarksLine(lines[k])
    ensures ExtractAccountBlock(Some(Join(lines, '\n'))) == Join(lines, '\n')
  {
    CleanDocumentOfLines(lines);
    AccountBlockWithoutRemarks(Join(lines, '\n'));
  }

  lemma NoRemarks(raw: string)
    requires raw == "no remarks here\nfoo: bar"
    ensures ExtractAccountBlock(Some(raw)) == raw
  {
    var lines := ["no remarks here", "foo: bar"];
    NoRemarksLines(raw, lines[0], lines[1]);
    ExtractWithoutRemarks(lines);
  }

  // -------------------------------------------------------------------- esc

  /** `esc(s)` for a string: `&`, then `<`, then `>` replaced by their HTML entities. */
  function Esc(s: string): string
  {
    ReplaceChar(ReplaceChar(ReplaceChar(s, '&', "&amp;"), '<', "&lt;"), '>', "&gt;")
  }

  /** `esc(v)` for a string, null or undefined (`String(s ?? "")`). */
  function EscAny(v: Option<string>): (r: string)
    ensures v.None? ==> r == ""
  {
    Esc(OrEmpty(v))
  }

  /** What one character becomes: the reference definition Esc is proved against. */
  function EscChar(c: char): string
  {
    if c == '&' then "&amp;" else if c == '<' then "&lt;" else if c == '>' then "&gt;" else [c]
  }

  function EscEach(s: string): string
    decreases |s|
  {
    if s == [] then [] else EscChar(s[0]) + EscEach(s[1..])
  }

  /** The three `replaceAll` passes escape each character on its own: the
      entities the first pass inserts have no `<` or `>`, and the later passes
      add no `&`. */
  lemma {:induction false} EscIsEscEach(s: string)
    ensures Esc(s) == EscEach(s)
    decreases |s|
  {
    if s != [] {
      var c := s[0];
      assert s == [c] + s[1..];
      ReplaceCharAppend([c], s[1..], '&', "&amp;");
      var a1 := ReplaceChar([c], '&', "&amp;");
      var b1 := ReplaceChar(s[1..], '&', "&amp;");
      ReplaceCharAppend(a1, b1, '<', "&lt;");
      var a2 := ReplaceChar(a1, '<', "&lt;");
      var b2 := ReplaceChar(b1, '<', "&lt;");
      ReplaceCharAppend(a2, b2, '>', "&gt;");
      EscIsEscEach(s[1..]);
      EscOneChar(c);
    }
  }

  lemma EscOneChar(c: char)
    ensures Esc([c]) == EscChar(c)
  {
    var a1 := ReplaceChar([c], '&', "&amp;");
    if c == '&' {
      assert a1 == "&amp;" + ReplaceChar([], '&', "&amp;");
      assert ReplaceChar(a1, '<', "&lt;") == a1;
      assert ReplaceChar(a1, '>', "&gt;") == a1;
    } else {
      assert a1 == [c] + ReplaceChar([], '&', "&amp;");
      var a2 := ReplaceChar(a1, '<', "&lt;");
      if c == '<' {
        assert a2 == "&lt;" + ReplaceChar([], '<', "&lt;");
        assert ReplaceChar(a2, '>', "&gt;") == a2;
      } else {
        assert a2 == [c] + ReplaceChar([], '<', "&lt;");
        assert ReplaceChar(a2, '>', "&gt;") == (if c == '>' then "&gt;" else [c]) + ReplaceChar([], '>', "&gt;");
      }
    }
  }

  /** The entity that starts at `i`, if any. */
  predicate EntityAt(r: string, i: nat)
  {
    || (i + 5 <= |r| && r[i..i + 5] == "&amp;")
    || (i + 4 <= |r| && r[i..i + 4] == "&lt;")
    || (i + 4 <= |r| && r[i..i + 4] == "&gt;")
  }

  /** Every `&` of `r` begins `&amp;`, `&lt;` or `&gt;`. */
  predicate AmpsOk(r: string)
  {
    forall i :: 0 <= i < |r| && r[i] == '&' ==> EntityAt(r, i)
  }

  /** HTML-safe text: no angle brackets, and every ampersand begins an entity. */
  predicate Escaped(r: string)
  {
    '<' !in r && '>' !in r && AmpsOk(r)
  }

  lemma EntityAtAppend(a: string, b: string, i: nat)
    ensures i < |a| && EntityAt(a, i) ==> EntityAt(a + b, i)
    ensures EntityAt(b, i) ==> EntityAt(a + b, |a| + i)
  {
    if i < |a| && EntityAt(a, i) {
      if i + 5 <= |a| { assert (a + b)[i..i + 5] == a[i..i + 5]; }
      if i + 4 <= |a| { assert (a + b)[i..i + 4] == a[i..i + 4]; }
    }
    if EntityAt(b, i) {
      if i + 5 <= |b| { assert (a + b)[|a| + i..|a| + i + 5] == b[i..i + 5]; }
      if i + 4 <= |b| { assert (a + b)[|a| + i..|a| + i + 4] == b[i..i + 4]; }
    }
  }

  /** Entities survive concatenation. */
  lemma AmpsOkAppend(a: string, b: string)
    requires AmpsOk(a) && AmpsOk(b)
    ensures AmpsOk(a + b)
  {
    var r := a + b;
    forall i | 0 <= i < |r| && r[i] == '&'
      ensures EntityAt(r, i)
    {
      if i < |a| {
        assert a[i] == '&';
        EntityAtAppend(a, b, i);
      } else {
        assert b[i - |a|] == '&';
        EntityAtAppend(a, b, i - |a|);
      }
    }
  }

  /** Escaped text stays escaped when concatenated. */
  lemma EscapedAppend(a: string, b: string)
    requires Escaped(a) && Escaped(b)
    ensures Escaped(a + b)
  {
    AmpsOkAppend(a, b);
  }

  /** Entities survive joining with a separator other than `&`. */
  lemma {:induction false} AmpsOkJoin(parts: seq<string>, sep: char)
    requires sep != '&'
    requires forall i :: 0 <= i < |parts| ==> AmpsOk(parts[i])
    ensures AmpsOk(Join(parts, sep))
    decreases |parts|
  {
    if |parts| > 1 {
      AmpsOkJoin(parts[1..], sep);
      AmpsOkAppend(parts[0], [sep]);
      AmpsOkAppend(parts[0] + [sep], Join(parts[1..], sep));
    }
  }

  lemma SliceOfSlice(s: string, a: nat, n: nat, i: nat, m: nat)
    requires a + n <= |s| && i + m <= n
    ensures s[a..a + n][i..i + m] == s[a + i..a + i + m]
  {
    var x, y := s[a..a + n][i..i + m], s[a + i..a + i + m];
    forall k | 0 <= k < m
      ensures x[k] == y[k]
    {
      assert x[k] == s[a..a + n][i + k] == s[a + i + k];
    }
  }

  /** An entity inside a text stays whole in a slice when only white space
      follows the slice: an entity ends in `;`, which is no white space. */
  lemma EntityWithin(s: string, a: nat, n: nat, i: nat)
    requires a + n <= |s| && i < n && EntityAt(s, a + i)
    requires forall k :: a + n <= k < |s| ==> IsSpace(s[k])
    ensures EntityAt(s[a..a + n], i)
  {
    var j := a + i;
    if j + 5 <= |s| && s[j..j + 5] == "&amp;" {
      assert s[j..j + 5][4] == s[j + 4] == ';';
      SliceOfSlice(s, a, n, i, 5);
    } else {
      var e := s[j..j + 4];
      assert e == "&lt;" || e == "&gt;";
      assert e[3] == s[j + 3] == ';';
      SliceOfSlice(s, a, n, i, 4);
    }
  }

  /** Trimming keeps every entity whole. */
  lemma AmpsOkTrim(s: string)
    requires AmpsOk(s)
    ensures AmpsOk(Trim(s))
  {
    var r := Trim(s);
    var a := |s| - |TrimStart(s)|;
    forall i | 0 <= i < |r| && r[i] == '&'
      ensures EntityAt(r, i)
    {
      assert s[a + i] == '&';
      EntityWithin(s, a, |r|, i);
    }
  }

  lemma {:induction false} EscEachEscaped(s: string)
    ensures Escaped(EscEach(s))
    decreases |s|
  {
    if s != [] {
      var e := EscChar(s[0]);
      assert Escaped(e) by {
        if s[0] == '&' {
          assert e[0..5] == "&amp;";
          assert EntityAt(e, 0);
        }
      }
      EscEachEscaped(s[1..]);
      EscapedAppend(e, EscEach(s[1..]));
    }
  }

  /** Decoding of the three entities `esc` produces. */
  function Unescape(r: string): string
    decreases |r|
  {
    if r == [] then []
    else if |r| >= 5 && r[..5] == "&amp;" then "&" + Unescape(r[5..])
    else if |r| >= 4 && r[..4] == "&lt;" then "<" + Unescape(r[4..])
    else if |r| >= 4 && r[..4] == "&gt;" then ">" + Unescape(r[4..])
    else [r[0]] + Unescape(r[1..])
  }

  lemma UnescapeAmp(rest: string)
    ensures Unescape("&amp;" + rest) == "&" + Unescape(rest)
  {
    var r := "&amp;" + rest;
    assert r[..5] == "&amp;";
    assert r[5..] == rest;
  }

  lemma UnescapeLt(rest: string)
    ensures Unescape("&lt;" + rest) == "<" + Unescape(rest)
  {
    var r := "&lt;" + rest;
    assert r[1] == 'l';
    assert r[..4] == "&lt;";
    assert r[4..] == rest;
  }

  lemma UnescapeGt(rest: string)
    ensures Unescape("&gt;" + rest) == ">" + Unescape(rest)
  {
    var r := "&gt;" + rest;
    assert r[1] == 'g';
    assert r[..4] != "&lt;";
    assert r[..4] == "&gt;";
    assert r[4..] == rest;
  }

  lemma UnescapePlain(c: char, rest: string)
    requires c != '&'
    ensures Unescape([c] + rest) == [c] + Unescape(rest)
  {
    var r := [c] + rest;
    assert r[0] == c;
    assert r[1..] == rest;
  }

  lemma UnescapeEscChar(c: char, rest: string)
    ensures Unescape(EscChar(c) + rest) == [c] + Unescape(rest)
  {
    if c == '&' {
      UnescapeAmp(rest);
    } else if c == '<' {
      UnescapeLt(rest);
    } else if c == '>' {
      UnescapeGt(rest);
    } else {
      UnescapePlain(c, rest);
    }
  }

  lemma {:induction false} UnescapeEscEach(s: string)
    ensures Unescape(EscEach(s)) == s
    decreases |s|
  {
    if s != [] {
      UnescapeEscChar(s[0], EscEach(s[1..]));
      UnescapeEscEach(s[1..]);
    }
  }

  /** The output of `esc` is HTML-safe. */
  lemma EscEscaped(s: string)
    ensures Escaped(Esc(s))
  {
    EscIsEscEach(s);
    EscEachEscaped(s);
  }

  /** A word of letters and `/` is left as it is. */
  lemma EscPlainWord(w: string)
    requires forall k :: 0 <= k < |w| ==> IsAsciiLetter(w[k]) || w[k] == '/'
    ensures Esc(w) == w
  {
    assert '&' !in w && '<' !in w && '>' !in w;
  }

  /** `esc` output is HTML-safe and decodes back to its input; text without
      `&`, `<` or `>` is left unchanged. */
  lemma EscProperties(s: string)
    ensures Escaped(Esc(s))
    ensures Unescape(Esc(s)) == s
    ensures '&' !in s && '<' !in s && '>' !in s ==> Esc(s) == s
  {
    EscIsEscEach(s);
    EscEachEscaped(s);
    UnescapeEscEach(s);
  }

  /** Escaping distributes over concatenation. */
  lemma EscAppend(a: string, b: string)
    ensures Esc(a + b) == Esc(a) + Esc(b)
  {
    ReplaceCharAppend(a, b, '&', "&amp;");
    var a1 := ReplaceChar(a, '&', "&amp;");
    var b1 := ReplaceChar(b, '&', "&amp;");
    ReplaceCharAppend(a1, b1, '<', "&lt;");
    ReplaceCharAppend(ReplaceChar(a1, '<', "&lt;"), ReplaceChar(b1, '<', "&lt;"), '>', "&gt;");
  }

  lemma EscPieces(w: string, q: string, lt: string, gt: string, amp: string)
    requires Esc(w) == w && Esc(q) == q && lt == "<" && gt == ">" && amp == "&"
    ensures Esc(lt + w + gt + amp + lt + q + gt) == "&lt;" + w + "&gt;" + "&amp;" + "&lt;" + q + "&gt;"
  {
    EscOneChar('<');
    EscOneChar('>');
    EscOneChar('&');
    EscAppend(lt, w);
    EscAppend(lt + w, gt);
    EscAppend(lt + w + gt, amp);
    EscAppend(lt + w + gt + amp, lt);
    EscAppend(lt + w + gt + amp + lt, q);
    EscAppend(lt + w + gt + amp + lt + q, gt);
  }

  lemma ScriptWords(w: string, q: string)
    requires w == "script" && q == "/script"
    ensures Esc(w) == w && Esc(q) == q
  {
    EscPlainWord(w);
    EscPlainWord(q);
  }

  lemma ScriptPieces(s: string, w: string, q: string)
    requires s == "<script>&</script>" && w == "script" && q == "/script"
    ensures s == "<" + w + ">" + "&" + "<" + q + ">"
    ensures "&lt;script&gt;&amp;&lt;/script&gt;" == "&lt;" + w + "&gt;" + "&amp;" + "&lt;" + q + "&gt;"
  {
    ScriptSource(s, w, q);
    ScriptEscaped(w, q);
  }

  lemma ScriptSource(s: string, w: string, q: string)
    requires s == "<script>&</script>" && w == "script" && q == "/script"
    ensures s == "<" + w + ">" + "&" + "<" + q + ">"
  {
  }

  lemma ScriptEscaped(w: string, q: string)
    requires w == "script" && q == "/script"
    ensures "&lt;script&gt;&amp;&lt;/script&gt;" == "&lt;" + w + "&gt;" + "&amp;" + "&lt;" + q + "&gt;"
  {
  }

  /** `esc("<script>&</script>")` */
  lemma EscScriptExample(s: string, w: string, q: string)
    requires s == "<script>&</script>" && w == "script" && q == "/script"
    ensures Esc(s) == "&lt;script&gt;&amp;&lt;/script&gt;"
  {
    ScriptWords(w, q);
    ScriptPieces(s, w, q);
    EscPieces(w, q, "<", ">", "&");
  }
}
