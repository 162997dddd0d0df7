/** Removal of terminal control sequences. Two patterns occur in the panel:
    `/\x1B\[[0-9;]*[A-Za-z]/g` followed by `/\r/g` (the first two steps of
    `clean` in parsers.js and the whole of `stripAnsi` in server.js), and
    `ANSI_REGEX` of server.cjs. A global `replace` scans left to right: where
    the pattern matches, the match is dropped and the scan resumes after it;
    elsewhere one character is kept. Each pattern's character classes are
    pairwise disjoint, so greedy matching never needs to backtrack and the
    match at a position is computed directly below. */
module Ansi {
  import opened Text

  const ESC: char := '\U{1B}'

  // ----- /\x1B\[[0-9;]*[A-Za-z]/

  /** `[0-9;]` */
  predicate IsSgrParam(c: char) { IsAsciiDigit(c) || c == ';' }

  /** The length of the match of `\x1B\[[0-9;]*[A-Za-z]` at the start of `s`, or 0. */
  function LetterCsiAt(s: string): (n: nat)
    ensures n == 0 || 3 <= n <= |s|
  {
    if |s| >= 2 && s[0] == ESC && s[1] == '[' then
      var j := SkipWhile(s, 2, IsSgrParam);
      if j < |s| && IsAsciiLetter(s[j]) then j + 1 else 0
    else 0
  }

  /** `s.replace(/\x1B\[[0-9;]*[A-Za-z]/g, "")` */
  function StripLetterCsi(s: string): (r: string)
    ensures |r| <= |s|
    ensures ESC !in s ==> r == s
    decreases |s|
  {
    if s == [] then []
    else
      var n := LetterCsiAt(s);
      if n > 0 then StripLetterCsi(s[n..]) else [s[0]] + StripLetterCsi(s[1..])
  }

  /** `s.replace(/\r/g, "")` */
  function RemoveCarriageReturns(s: string): (r: string)
    ensures '\r' !in r
    ensures '\r' !in s ==> r == s
  {
    Filter(s, c => c != '\r')
  }

  /** A character other than ESC is kept and the scan moves on. */
  lemma StripLetterCsiKeep(c: char, t: string)
    requires c != ESC
    ensures StripLetterCsi([c] + t) == [c] + StripLetterCsi(t)
  {
    var s := [c] + t;
    assert LetterCsiAt(s) == 0;
    assert s[1..] == t;
  }

  /** Text without ESC passes through unchanged and does not disturb what follows it. */
  lemma {:induction false} StripLetterCsiPlainPrefix(p: string, t: string)
    requires ESC !in p
    ensures StripLetterCsi(p + t) == p + StripLetterCsi(t)
    decreases |p|
  {
    if p != [] {
      assert p + t == [p[0]] + (p[1..] + t);
      StripLetterCsiKeep(p[0], p[1..] + t);
      StripLetterCsiPlainPrefix(p[1..], t);
      assert p == [p[0]] + p[1..];
    } else {
      assert p + t == t;
    }
  }

  /** A complete sequence `ESC [ params letter` at the scan position is removed. */
  lemma LetterCsiRemoved(params: string, letter: char, t: string)
    requires forall i :: 0 <= i < |params| ==> IsSgrParam(params[i])
    requires IsAsciiLetter(letter)
    ensures StripLetterCsi([ESC, '['] + params + [letter] + t) == StripLetterCsi(t)
  {
    var s := [ESC, '['] + params + [letter] + t;
    SkipWhileRun(s, 2, 2 + |params|, IsSgrParam);
    assert LetterCsiAt(s) == 3 + |params|;
    assert s[3 + |params|..] == t;
  }

  /** Every `ESC [ params letter` sequence that follows plain text is removed. */
  lemma LetterCsiRemovedAfterText(p: string, params: string, letter: char, t: string)
    requires ESC !in p
    requires forall i :: 0 <= i < |params| ==> IsSgrParam(params[i])
    requires IsAsciiLetter(letter)
    ensures StripLetterCsi(p + ([ESC, '['] + params + [letter]) + t) == p + StripLetterCsi(t)
  {
    assert p + ([ESC, '['] + params + [letter]) + t == p + ([ESC, '['] + params + [letter] + t);
    StripLetterCsiPlainPrefix(p, [ESC, '['] + params + [letter] + t);
    LetterCsiRemoved(params, letter, t);
  }

  /** An opening `ESC [` directly followed by another ESC is kept: the scan
      cannot match at the first ESC, and keeps it and the `[`. */
  lemma OpenKept(inner: string)
    requires inner != [] && inner[0] == ESC
    ensures StripLetterCsi([ESC] + (['['] + inner)) == [ESC] + (['['] + StripLetterCsi(inner))
  {
    OpenBeforeEsc(['['] + inner);
    StripLetterCsiFront(ESC, ['['] + inner);
    StripLetterCsiKeep('[', inner);
  }

  /** No match starts at an ESC whose `[` is followed by another ESC. */
  lemma OpenBeforeEsc(u: string)
    requires |u| >= 2 && u[0] == '[' && u[1] == ESC
    ensures LetterCsiAt([ESC] + u) == 0
  {
    var s := [ESC] + u;
    assert s[2] == ESC && !IsSgrParam(s[2]) && !IsAsciiLetter(s[2]);
    SkipWhileRun(s, 2, 2, IsSgrParam);
  }

  /** A text that cannot continue a sequence begun earlier. */
  predicate StartsFresh(b: string)
  {
    b == [] || !(b[0] == '[' || IsSgrParam(b[0]) || IsAsciiLetter(b[0]))
  }

  /** No match of the pattern starts in `a` and ends in `b` when `b` starts fresh. */
  lemma LetterCsiAtAppend(a: string, b: string)
    requires a != [] && StartsFresh(b)
    ensures LetterCsiAt(a + b) == LetterCsiAt(a)
  {
    var s := a + b;
    if |a| >= 2 && a[0] == ESC && a[1] == '[' {
      var j := SkipWhile(s, 2, IsSgrParam);
      var ja := SkipWhile(a, 2, IsSgrParam);
      if ja < |a| {
        SkipWhileRun(s, 2, ja, IsSgrParam);
      } else {
        SkipWhileRun(s, 2, |a|, IsSgrParam);
      }
    }
  }

  /** Stripping distributes over a concatenation whose second part starts fresh. */
  lemma {:induction false} StripLetterCsiAppend(a: string, b: string)
    requires StartsFresh(b)
    ensures StripLetterCsi(a + b) == StripLetterCsi(a) + StripLetterCsi(b)
    decreases |a|
  {
    if a == [] {
      assert a + b == b;
    } else {
      var n := LetterCsiAt(a);
      if n > 0 {
        StripLetterCsiAppend(a[n..], b);
        StripLetterCsiAppendDrop(a, b, n);
      } else {
        StripLetterCsiAppend(a[1..], b);
        StripLetterCsiAppendKeep(a, b);
      }
    }
  }

  /** One step of the scan: drop a match, or keep one character. */
  lemma StripLetterCsiStep(s: string)
    requires s != []
    ensures LetterCsiAt(s) > 0 ==> StripLetterCsi(s) == StripLetterCsi(s[LetterCsiAt(s)..])
    ensures LetterCsiAt(s) == 0 ==> StripLetterCsi(s) == [s[0]] + StripLetterCsi(s[1..])
  {
  }

  /** The step of StripLetterCsiAppend where a match at the front is dropped. */
  lemma StripLetterCsiAppendDrop(a: string, b: string, n: nat)
    requires a != [] && StartsFresh(b) && n == LetterCsiAt(a) > 0
    requires StripLetterCsi(a[n..] + b) == StripLetterCsi(a[n..]) + StripLetterCsi(b)
    ensures StripLetterCsi(a + b) == StripLetterCsi(a) + StripLetterCsi(b)
  {
    LetterCsiAtAppend(a, b);
    StripLetterCsiStep(a + b);
    StripLetterCsiStep(a);
    DropAppend(a, b, n);
  }

  /** Dropping a prefix of the first part of a concatenation. */
  lemma DropAppend(a: string, b: string, n: nat)
    requires n <= |a|
    ensures (a + b)[n..] == a[n..] + b
  {
  }

  /** A front character that starts no match is kept and the scan moves on. */
  lemma StripLetterCsiFront(c: char, t: string)
    requires LetterCsiAt([c] + t) == 0
    ensures StripLetterCsi([c] + t) == [c] + StripLetterCsi(t)
  {
    var s := [c] + t;
    assert s[1..] == t;
  }

  /** The step of StripLetterCsiAppend where the front character is kept. */
  lemma StripLetterCsiAppendKeep(a: string, b: string)
    requires a != [] && StartsFresh(b) && LetterCsiAt(a) == 0
    requires StripLetterCsi(a[1..] + b) == StripLetterCsi(a[1..]) + StripLetterCsi(b)
    ensures StripLetterCsi(a + b) == StripLetterCsi(a) + StripLetterCsi(b)
  {
    ConsSplit(a, b);
    LetterCsiAtAppend(a, b);
    StripLetterCsiFront(a[0], a[1..] + b);
    StripLetterCsiFront(a[0], a[1..]);
    AppendAssoc([a[0]], StripLetterCsi(a[1..]), StripLetterCsi(b));
  }

  // ----- ANSI_REGEX of server.cjs: /\u001b\[[0-9;?]*[ -/]*[@-~]|\u001b[@-Z\\-_]|\r/g

  /** `[0-9;?]` */
  predicate IsCsiParam(c: char) { IsAsciiDigit(c) || c == ';' || c == '?' }

  /** `[ -/]` */
  predicate IsCsiIntermediate(c: char) { ' ' <= c <= '/' }

  /** `[@-~]` */
  predicate IsCsiFinal(c: char) { '@' <= c <= '~' }

  /** `[@-Z\\-_]`: `@` to `Z`, then `\` to `_` (so `[` is not among them). */
  predicate IsEscFinal(c: char) { '@' <= c <= 'Z' || '\\' <= c <= '_' }

  /** The length of the CSI alternative's match at the start of `s`, or 0. */
  function CsiAt(s: string): (n: nat)
    ensures n == 0 || 3 <= n <= |s|
  {
    if |s| >= 2 && s[0] == ESC && s[1] == '[' then
      var j := SkipWhile(s, 2, IsCsiParam);
      var k := SkipWhile(s, j, IsCsiIntermediate);
      if k < |s| && IsCsiFinal(s[k]) then k + 1 else 0
    else 0
  }

  /** The length of `ANSI_REGEX`'s match at the start of `s`, or 0: the
      alternatives are tried in order. */
  function ControlAt(s: string): (n: nat)
    ensures n <= |s|
    ensures s != [] && s[0] == '\r' ==> n == 1
    ensures s != [] && s[0] != ESC && s[0] != '\r' ==> n == 0
  {
    var csi := CsiAt(s);
    if csi > 0 then csi
    else if |s| >= 2 && s[0] == ESC && IsEscFinal(s[1]) then 2
    else if s != [] && s[0] == '\r' then 1
    else 0
  }

  /** `stripAnsi` of server.cjs: `s.replace(ANSI_REGEX, "")`. */
  function StripControls(s: string): (r: string)
    ensures '\r' !in r
    ensures |r| <= |s|
    decreases |s|
  {
    if s == [] then []
    else
      var n := ControlAt(s);
      if n > 0 then StripControls(s[n..]) else [s[0]] + StripControls(s[1..])
  }

  /** A front character other than ESC is kept unless it is a carriage return. */
  lemma StripControlsFront(c: char, t: string)
    requires c != ESC
    ensures StripControls([c] + t) == RemoveCarriageReturns([c]) + StripControls(t)
  {
    var s := [c] + t;
    assert s[1..] == t;
    assert [c][1..] == [];
  }

  /** Text without ESC only loses its carriage returns, and does not disturb what follows it. */
  lemma {:induction false} StripControlsPlainPrefix(p: string, t: string)
    requires ESC !in p
    ensures StripControls(p + t) == RemoveCarriageReturns(p) + StripControls(t)
    decreases |p|
  {
    if p != [] {
      ConsSplit(p, t);
      StripControlsFront(p[0], p[1..] + t);
      StripControlsPlainPrefix(p[1..], t);
      FilterAppend([p[0]], p[1..], c => c != '\r');
      AppendAssoc(RemoveCarriageReturns([p[0]]), RemoveCarriageReturns(p[1..]), StripControls(t));
    } else {
      assert p + t == t;
    }
  }

  /** Without ESC, `stripAnsi` of server.cjs only removes carriage returns. */
  lemma StripControlsPlain(p: string)
    requires ESC !in p
    ensures StripControls(p) == RemoveCarriageReturns(p)
  {
    StripControlsPlainPrefix(p, []);
    assert p + [] == p;
  }

  /** A complete CSI sequence `ESC [ params intermediates final` at the scan position is removed. */
  lemma CsiRemoved(params: string, inters: string, final: char, t: string)
    requires forall i :: 0 <= i < |params| ==> IsCsiParam(params[i])
    requires forall i :: 0 <= i < |inters| ==> IsCsiIntermediate(inters[i])
    requires IsCsiFinal(final)
    ensures StripControls([ESC, '['] + params + inters + [final] + t) == StripControls(t)
  {
    var s := [ESC, '['] + params + inters + [final] + t;
    var j := 2 + |params|;
    var k := j + |inters|;
    if |inters| > 0 {
      assert s[j] == inters[0];
    } else {
      assert s[j] == final;
    }
    SkipWhileRun(s, 2, j, IsCsiParam);
    SkipWhileRun(s, j, k, IsCsiIntermediate);
    assert s[k] == final;
    assert ControlAt(s) == k + 1;
    assert s[k + 1..] == t;
  }

  /** A two-character escape `ESC c`, `c` in `@`..`Z` or `\`..`_`, at the scan position is removed. */
  lemma EscPairRemoved(c: char, t: string)
    requires IsEscFinal(c)
    ensures StripControls([ESC, c] + t) == StripControls(t)
  {
    var s := [ESC, c] + t;
    assert CsiAt(s) == 0;
    assert s[2..] == t;
  }

  /** Every CSI sequence that follows plain text is removed. */
  lemma CsiRemovedAfterText(p: string, params: string, inters: string, final: char, t: string)
    requires ESC !in p
    requires forall i :: 0 <= i < |params| ==> IsCsiParam(params[i])
    requires forall i :: 0 <= i < |inters| ==> IsCsiIntermediate(inters[i])
    requires IsCsiFinal(final)
    ensures StripControls(p + ([ESC, '['] + params + inters + [final]) + t) == RemoveCarriageReturns(p) + StripControls(t)
  {
    var q := [ESC, '['] + params + inters + [final];
    assert p + q + t == p + (q + t);
    StripControlsPlainPrefix(p, q + t);
    CsiRemoved(params, inters, final, t);
  }

  /** Every two-character escape that follows plain text is removed. */
  lemma EscPairRemovedAfterText(p: string, c: char, t: string)
    requires ESC !in p
    requires IsEscFinal(c)
    ensures StripControls(p + [ESC, c] + t) == RemoveCarriageReturns(p) + StripControls(t)
  {
    assert p + [ESC, c] + t == p + ([ESC, c] + t);
    StripControlsPlainPrefix(p, [ESC, c] + t);
    EscPairRemoved(c, t);
  }
}
