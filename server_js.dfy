/** The helpers of the second panel server (server.js): output shaping
    after `bash -lc` returns, and the input shaping of its add endpoint. */
module ServerJs {
  import opened Wrappers
  import opened Text
  import opened Decimal
  import opened Ansi
  import opened Shell

  // ------------------------------------------------------------ stripAnsi

  /** `stripAnsi(s)`: `ESC [ [0-9;]* letter` sequences and carriage returns
      removed, and "" for a missing value. */
  function StripAnsi(s: Option<string>): (r: string)
    ensures '\r' !in r
    ensures s.None? ==> r == ""
    ensures s.Some? && ESC !in s.value ==> r == RemoveCarriageReturns(s.value)
  {
    RemoveCarriageReturns(StripLetterCsi(OrEmpty(s)))
  }

  // ------------------------------------------------------------ UTF-8

  /** The number of bytes UTF-8 spends on one code point. */
  function Utf8Width(c: char): (n: nat)
    ensures 1 <= n <= 4
    ensures (c as int < 0x80) <==> n == 1
  {
    if c as int < 0x80 then 1
    else if c as int < 0x800 then 2
    else if c as int < 0x1_0000 then 3
    else 4
  }

  /** `Buffer.from(s, "utf8").length` */
  function Utf8Size(s: string): (n: nat)
    ensures |s| <= n <= 4 * |s|
    decreases |s|
  {
    if s == [] then 0 else Utf8Width(s[0]) + Utf8Size(s[1..])
  }

  lemma {:induction false} Utf8SizeAppend(a: string, b: string)
    ensures Utf8Size(a + b) == Utf8Size(a) + Utf8Size(b)
    decreases |a|
  {
    if a == [] {
      assert a + b == b;
    } else {
      assert (a + b)[1..] == a[1..] + b;
      Utf8SizeAppend(a[1..], b);
    }
  }

  predicate IsAscii(s: string) { forall i :: 0 <= i < |s| ==> s[i] as int < 0x80 }

  /** ASCII text takes one byte per character. */
  lemma {:induction false} Utf8SizeAscii(s: string)
    requires IsAscii(s)
    ensures Utf8Size(s) == |s|
    decreases |s|
  {
    if s != [] {
      Utf8SizeAscii(s[1..]);
    }
  }

  /** The number of whole characters at the front of `s` whose encoding fits
      in `budget` bytes: the longest such prefix. */
  function WholeChars(s: string, budget: nat): (n: nat)
    ensures n <= |s| && Utf8Size(s[..n]) <= budget
    ensures n < |s| ==> Utf8Size(s[..n + 1]) > budget
    decreases |s|
  {
    if s == [] || Utf8Width(s[0]) > budget then
      assert s[..0] == [];
      if s != [] then PrefixSizeStep(s, 0); 0 else 0
    else
      var n := WholeChars(s[1..], budget - Utf8Width(s[0]));
      PrefixSizeStep(s, n);
      if n + 1 < |s| then PrefixSizeStep(s, n + 1); n + 1 else n + 1
  }

  /** The prefix of `n + 1` characters weighs the first character plus the
      prefix of `n` characters of the rest. */
  lemma PrefixSizeStep(s: string, n: nat)
    requires n < |s|
    ensures Utf8Size(s[..n + 1]) == Utf8Width(s[0]) + Utf8Size(s[1..][..n])
  {
    assert s[..n + 1] == [s[0]] + s[1..][..n];
    Utf8SizeCons(s[0], s[1..][..n]);
  }

  /** The size of a text is its first character's width plus the rest's size. */
  lemma Utf8SizeCons(c: char, t: string)
    ensures Utf8Size([c] + t) == Utf8Width(c) + Utf8Size(t)
  {
    assert ([c] + t)[1..] == t;
  }

  const Replacement: char := '\U{FFFD}'

  /** `Buffer.subarray(0, budget).toString("utf8")`: the whole characters
      that fit, then one U+FFFD when the cut falls inside the next one (all
      its leading bytes up to the cut form one maximal ill-formed part). */
  function DecodeCut(s: string, budget: nat): (r: string)
    ensures Utf8Size(r) <= budget + 2
    ensures var n := WholeChars(s, budget);
      && (|r| == n || |r| == n + 1)
      && r[..n] == s[..n]
      && (|r| == n + 1 <==> n < |s| && Utf8Size(s[..n]) < budget)
      && (|r| == n + 1 ==> r[n] == Replacement)
  {
    var n := WholeChars(s, budget);
    if n < |s| && Utf8Size(s[..n]) < budget then
      Utf8SizeAppend(s[..n], [Replacement]);
      assert Utf8Size([Replacement]) == 3;
      s[..n] + [Replacement]
    else s[..n]
  }

  // ------------------------------------------------------------ clampOutput

  const MaxBytes: nat := 200 * 1024

  const CutMarker := "\n\n[Output dipotong]\n"

  lemma CutMarkerSize()
    ensures Utf8Size(CutMarker) == 20
  {
    var m := CutMarker;
    assert IsAscii(m);
    Utf8SizeAscii(m);
  }

  /** `clampOutput(s)` with the default `maxBytes` of 200 KiB. */
  function ClampOutput(s: string): (r: string)
    ensures Utf8Size(s) <= MaxBytes ==> r == s
    ensures Utf8Size(s) > MaxBytes ==>
      && Utf8Size(r) <= MaxBytes
      && r == DecodeCut(s, MaxBytes - 1024) + CutMarker
  {
    if Utf8Size(s) <= MaxBytes then s
    else
      var head := DecodeCut(s, MaxBytes - 1024);
      Utf8SizeAppend(head, CutMarker);
      CutMarkerSize();
      head + CutMarker
  }

  /** An ASCII text over the limit keeps exactly its first 199 KiB. */
  lemma ClampOutputAscii(s: string)
    requires IsAscii(s) && |s| > MaxBytes
    ensures ClampOutput(s) == s[..MaxBytes - 1024] + CutMarker
  {
    Utf8SizeAscii(s);
    var b := MaxBytes - 1024;
    var n := WholeChars(s, b);
    assert IsAscii(s[..n]) && IsAscii(s[..n + 1]);
    Utf8SizeAscii(s[..n]);
    Utf8SizeAscii(s[..n + 1]);
    assert n == b;
  }

  // ------------------------------------------------------------ execBash

  const TimeoutMarker := "\n[Perintah dihentikan karena timeout]\n"

  /** Printable text and line feeds: no ESC and no carriage return. */
  predicate NoControls(s: string)
  {
    forall k :: 0 <= k < |s| ==> s[k] == '\n' || ' ' <= s[k] <= '~'
  }

  lemma TimeoutMarkerPlain()
    ensures TimeoutMarker != [] && TimeoutMarker[0] == '\n'
    ensures NoControls(TimeoutMarker)
  {
  }

  /** What the callback of `execBash` resolves with: stdout then stderr, the
      timeout note when the process was killed, `stripAnsi`, then
      `clampOutput`. It never rejects, and it always fits in 200 KiB. */
  function ExecOutput(stdout: Option<string>, stderr: Option<string>, killed: bool): (r: string)
    ensures Utf8Size(r) <= MaxBytes
  {
    var out := OrEmpty(stdout) + OrEmpty(stderr) + (if killed then TimeoutMarker else "");
    ClampOutput(StripAnsi(Some(out)))
  }

  /** Stripping leaves a printable tail that starts with a line feed alone. */
  lemma StripAnsiAppendPlain(printed: string, m: string)
    requires m != [] && m[0] == '\n' && NoControls(m)
    ensures StripAnsi(Some(printed + m)) == StripAnsi(Some(printed)) + m
  {
    assert ESC !in m && '\r' !in m;
    StripLetterCsiAppend(printed, m);
    FilterAppend(StripLetterCsi(printed), m, c => c != '\r');
  }

  /** `stripAnsi` leaves the timeout note intact after whatever the process
      printed, even an unfinished escape sequence. */
  lemma StripAnsiMarker(printed: string)
    ensures StripAnsi(Some(printed + TimeoutMarker)) == StripAnsi(Some(printed)) + TimeoutMarker
  {
    TimeoutMarkerPlain();
    StripAnsiAppendPlain(printed, TimeoutMarker);
  }

  /** A killed process's output ends with the timeout note whenever the
      whole fits in 200 KiB; a process that was not killed gets no note. */
  lemma ExecOutputTimeout(stdout: Option<string>, stderr: Option<string>)
    ensures Utf8Size(StripAnsi(Some(OrEmpty(stdout) + OrEmpty(stderr))) + TimeoutMarker) <= MaxBytes ==>
      ExecOutput(stdout, stderr, true) == StripAnsi(Some(OrEmpty(stdout) + OrEmpty(stderr))) + TimeoutMarker
    ensures ExecOutput(stdout, stderr, false) == ClampOutput(StripAnsi(Some(OrEmpty(stdout) + OrEmpty(stderr))))
  {
    var printed := OrEmpty(stdout) + OrEmpty(stderr);
    StripAnsiMarker(printed);
    assert printed + "" == printed;
  }

  /** The `bash -lc` line handed to `/bin/sh`: the command inside single
      quotes, every `'` in it written `'\\''`. */
  function BashLine(cmd: string): string
  {
    "bash -lc " + SingleQuote(cmd)
  }

  /** A plain word then a space-led rest: the word, then the rest's tokens. */
  lemma LexWordThen(w: string, t: string, tail: seq<Token>)
    requires w != [] && AllPlain(w) && t != [] && t[0] == ' ' && Lex(t) == Some(tail)
    ensures Lex(w + t) == Some([Word(w)] + tail)
  {
    LexPlain(w, t);
  }

  lemma LexQuotedTail(q: string, cmd: string)
    requires q == SingleQuote(cmd)
    ensures Lex(" " + q) == Some([Word(cmd)])
  {
    LexSingleQuote(cmd, "");
    assert q + "" == q;
    LexSpace(q);
    assert [Word(cmd)] + [] == [Word(cmd)];
  }

  lemma LexBashWords(b: string, f: string, q: string, cmd: string)
    requires b != [] && AllPlain(b) && f != [] && AllPlain(f) && q == SingleQuote(cmd)
    ensures Lex(b + (" " + (f + (" " + q)))) == Some([Word(b), Word(f), Word(cmd)])
  {
    var t2 := " " + q;
    LexQuotedTail(q, cmd);
    LexWordThen(f, t2, [Word(cmd)]);
    var t1 := " " + (f + t2);
    LexSpace(f + t2);
    LexWordThen(b, t1, [Word(f)] + [Word(cmd)]);
    assert [Word(b)] + ([Word(f)] + [Word(cmd)]) == [Word(b), Word(f), Word(cmd)];
  }

  lemma RegroupBash(pre: string, b: string, f: string, q: string)
    requires pre == b + " " + f + " "
    ensures pre + q == b + (" " + (f + (" " + q)))
  {
  }

  lemma BashParts(pre: string, b: string, f: string)
    requires pre == "bash -lc " && b == "bash" && f == "-lc"
    ensures pre == b + " " + f + " " && b != [] && AllPlain(b) && f != [] && AllPlain(f)
  {
  }

  /** `exec` is given no `shell` option, so `/bin/sh` reads the line; its
      single quotes work as in bash, and `bash -lc` receives exactly the
      command as its one argument, whatever quotes it contains. */
  lemma BashLineWords(cmd: string)
    ensures Lex(BashLine(cmd)) == Some([Word("bash"), Word("-lc"), Word(cmd)])
  {
    var pre, b, f := "bash -lc ", "bash", "-lc";
    BashParts(pre, b, f);
    RegroupBash(pre, b, f, SingleQuote(cmd));
    LexBashWords(b, f, SingleQuote(cmd), cmd);
  }

  // ------------------------------------------------------------ joinInputs

  /** `joinInputs(inputs, extraBlank)`: the inputs, then `extraBlank` empty
      strings joined by new lines as one more element, all joined by new
      lines. */
  function JoinInputs(inputs: seq<string>, extraBlank: nat): string
  {
    Join(inputs + [Join(Repeat("", extraBlank), '\n')], '\n')
  }

  /** `k` empty strings joined by new lines are `k - 1` new lines. */
  lemma {:induction false} JoinBlanks(k: nat)
    requires k >= 1
    ensures Join(Repeat("", k), '\n') == Repeat('\n', k - 1)
    decreases k
  {
    if k > 1 {
      assert Repeat("", k) == [""] + Repeat("", k - 1);
      JoinCons("", Repeat("", k - 1), '\n');
      JoinBlanks(k - 1);
      assert "" + ['\n'] + Repeat('\n', k - 2) == Repeat('\n', k - 1);
    }
  }

  /** Joining a joined tail as one element is joining the tail's elements. */
  lemma JoinNested(xs: seq<string>, ys: seq<string>, sep: char)
    requires |ys| >= 1
    ensures Join(xs + [Join(ys, sep)], sep) == Join(xs + ys, sep)
  {
    if xs == [] {
      assert xs + [Join(ys, sep)] == [Join(ys, sep)];
      assert xs + ys == ys;
    } else {
      JoinAppend(xs, [Join(ys, sep)], sep);
      JoinAppend(xs, ys, sep);
    }
  }

  /** For one blank or more and inputs on one line each, splitting on new
      lines gives back the inputs followed by exactly `k` empty lines. */
  lemma JoinInputsSplit(inputs: seq<string>, k: nat)
    requires k >= 1
    requires forall i :: 0 <= i < |inputs| ==> '\n' !in inputs[i]
    ensures Split(JoinInputs(inputs, k), '\n') == inputs + Repeat("", k)
  {
    JoinNested(inputs, Repeat("", k), '\n');
    var parts := inputs + Repeat("", k);
    assert forall i :: 0 <= i < |parts| ==> '\n' !in parts[i] by {
      forall i | 0 <= i < |parts|
        ensures '\n' !in parts[i]
      {
        if i >= |inputs| {
          assert parts[i] == "";
        }
      }
    }
    SplitJoin(parts, '\n');
  }

  /** With no inputs and six blanks the text is five new lines. */
  lemma JoinInputsNone()
    ensures JoinInputs([], 6) == "\n\n\n\n\n"
  {
    JoinBlanks(6);
    assert [] + [Join(Repeat("", 6), '\n')] == [Repeat('\n', 5)];
    assert Repeat('\n', 5) == "\n\n\n\n\n";
  }

  // ------------------------------------------------------------ sanitizers

  /** `[A-Za-z0-9_.-]` */
  predicate IsUserChar(c: char)
  {
    IsAsciiLetter(c) || IsAsciiDigit(c) || c == '_' || c == '.' || c == '-'
  }

  /** `s.slice(0, n)` */
  function Take(s: string, n: nat): (r: string)
    ensures |r| == if |s| < n then |s| else n
    ensures r == s[..|r|]
  {
    if |s| > n then s[..n] else s
  }

  /** `sanitizeUser(u)`: the first 32 characters of `[A-Za-z0-9_.-]` in the
      text; trimming first makes no difference, none of them being space. */
  function SanitizeUser(u: Option<string>): (r: string)
    ensures |r| <= 32 && forall i :: 0 <= i < |r| ==> IsUserChar(r[i])
    ensures var kept := Filter(OrEmpty(u), IsUserChar);
      |r| == (if |kept| < 32 then |kept| else 32) && r == kept[..|r|]
  {
    UserFilterTrim(OrEmpty(u));
    TakeKeeps(Filter(OrEmpty(u), IsUserChar), 32, IsUserChar);
    Take(Filter(Trim(OrEmpty(u)), IsUserChar), 32)
  }

  /** A prefix of a text holds only what the text holds. */
  lemma TakeKeeps(s: string, n: nat, keep: char -> bool)
    requires forall i :: 0 <= i < |s| ==> keep(s[i])
    ensures forall i :: 0 <= i < |Take(s, n)| ==> keep(Take(s, n)[i])
  {
  }

  /** No user character is white space, so trimming keeps the same ones. */
  lemma UserFilterTrim(s: string)
    ensures Filter(Trim(s), IsUserChar) == Filter(s, IsUserChar)
  {
    assert forall c :: IsSpace(c) ==> !IsUserChar(c);
    FilterTrim(s, IsUserChar);
  }

  lemma FilterAll(s: string, keep: char -> bool)
    requires forall i :: 0 <= i < |s| ==> keep(s[i])
    ensures Filter(s, keep) == s
  {
  }

  /** A name already made of at most 32 accepted characters is kept as it is. */
  lemma SanitizedFixed(r: string)
    requires |r| <= 32 && forall i :: 0 <= i < |r| ==> IsUserChar(r[i])
    ensures SanitizeUser(Some(r)) == r
  {
    FilterAll(r, IsUserChar);
    assert OrEmpty(Some(r)) == r;
  }

  /** Sanitizing a sanitized name changes nothing. */
  lemma SanitizeUserIdempotent(u: Option<string>)
    ensures SanitizeUser(Some(SanitizeUser(u))) == SanitizeUser(u)
  {
    SanitizedFixed(SanitizeUser(u));
  }

  /** The smallest integer whose double rounding is `Infinity`: 2^1024 - 2^970.
      `parseInt` of a longer numeral gives `Infinity`, which is not finite. */
  const DoubleOverflow: nat := 179769313486231580793728971405303415079934132710037826936173778980444968292764750946649017977587207096330286416692887910946555547851940402630657488671505820681908902000708383676273854845817711531764475730270069855571366959622842914819860834936475292719074168444365510704342711559699508093042880177904174497792

  /** `sanitizeDays(d)`: the digits of `String(d || "0")` read as a number; a
      missing, zero or not finite number gives 1, and the rest is capped at 365. */
  function SanitizeDays(d: Option<string>): (n: int)
    ensures 1 <= n <= 365
  {
    var text := if d.Some? && d.value != "" then d.value else "0";
    match ParseInt(Filter(text, IsAsciiDigit))
    case None => 1
    case Some(v) => if v >= DoubleOverflow || v <= 0 then 1 else if v < 365 then v else 365
  }

  /** The days read are the digits of the text, wherever they stand. */
  lemma SanitizeDaysDigits(d: string)
    requires d != [] && Filter(d, IsAsciiDigit) != []
    ensures var v := DigitsValue(Filter(d, IsAsciiDigit));
      SanitizeDays(Some(d)) == if v == 0 || v >= DoubleOverflow then 1 else if v < 365 then v else 365
  {
    ParseIntOfDigits(Filter(d, IsAsciiDigit));
  }

  /** A text without digits, or no text at all, gives one day. */
  lemma SanitizeDaysNoDigits(d: Option<string>)
    requires d.Some? ==> Filter(d.value, IsAsciiDigit) == []
    ensures SanitizeDays(d) == 1
  {
    if d.None? || d.value == "" {
      var z := "0";
      assert Filter(z, IsAsciiDigit) == z;
      ParseIntOfDigits(z);
      assert DigitsValue(z) == 0;
    }
  }

  lemma SplitDigitsFiltered(a: string)
    requires a == "1a2"
    ensures Filter(a, IsAsciiDigit) == "12"
  {
    var p, q, x := "1", "a", "2";
    assert a == p + q + x;
    FilterAppend(p + q, x, IsAsciiDigit);
    FilterAppend(p, q, IsAsciiDigit);
  }

  lemma TwelveValue(t: string)
    requires t == "12"
    ensures DigitsValue(t) == 12
  {
    var p := t[..1];
    assert p == "1";
    assert DigitsValue(p) == 1 by {
      assert p[..0] == [];
    }
  }

  lemma SanitizeDaysSplitDigits()
    ensures SanitizeDays(Some("1a2")) == 12
  {
    var a := "1a2";
    SplitDigitsFiltered(a);
    TwelveValue("12");
    SanitizeDaysDigits(a);
  }

  lemma SanitizeDaysNegative()
    ensures SanitizeDays(Some("-5")) == 5
  {
    var b, q, x := "-5", "-", "5";
    assert b == q + x;
    FilterAppend(q, x, IsAsciiDigit);
    FilterNone(q, IsAsciiDigit);
    FilterAll(x, IsAsciiDigit);
    SanitizeDaysDigits(b);
  }

  lemma SanitizeDaysZero()
    ensures SanitizeDays(Some("0")) == 1
  {
    var z := "0";
    FilterAll(z, IsAsciiDigit);
    SanitizeDaysDigits(z);
  }

  // ------------------------------------------------------------ add endpoint

  /** `ADD[type]` */
  function AddScript(kind: string): (r: Option<string>)
    ensures r.Some? <==> kind in {"vmess", "vless", "trojan", "ssws"}
  {
    if kind == "vmess" then Some("/usr/bin/add-ws")
    else if kind == "vless" then Some("/usr/bin/add-vless")
    else if kind == "trojan" then Some("/usr/bin/add-tr")
    else if kind == "ssws" then Some("/usr/bin/add-ssws")
    else None
  }

  /** `TIMEOUT.add[type] || 22000`, in milliseconds. */
  function AddTimeout(kind: string): nat
  {
    if kind == "ssws" then 25000 else 22000
  }

  /** What the add endpoint does: refuse with a status and a message, or run
      the command line feeding `piped` to the script. */
  datatype AddReply = AddRefused(status: nat, error: string) | AddRun(cmd: string, timeout: nat, piped: string)

  /** The text around the fed lines: `{ printf '%s<new line>' "` and `"; } | `. */
  const FeedOpen := "{ printf '%s\n' \""
  const FeedClose := "\"; } | "

  /** Every character of a join is one of the parts' or the separator. */
  lemma {:induction false} JoinCharsWithin(parts: seq<string>, sep: char, ok: char -> bool)
    requires forall i, j :: 0 <= i < |parts| && 0 <= j < |parts[i]| ==> ok(parts[i][j])
    ensures forall k :: 0 <= k < |Join(parts, sep)| ==> ok(Join(parts, sep)[k]) || Join(parts, sep)[k] == sep
    decreases |parts|
  {
    if |parts| > 1 {
      JoinCharsWithin(parts[1..], sep, ok);
      var x := Join(parts, sep);
      var t := Join(parts[1..], sep);
      assert x == parts[0] + [sep] + t;
      forall k | 0 <= k < |x|
        ensures ok(x[k]) || x[k] == sep
      {
        if k < |parts[0]| {
          assert x[k] == parts[0][k] && ok(parts[0][k]);
        } else if k > |parts[0]| {
          var m := k - |parts[0]| - 1;
          assert x[k] == t[m];
          assert ok(t[m]) || t[m] == sep;
        }
      }
    } else if |parts| == 1 {
      assert forall j :: 0 <= j < |parts[0]| ==> ok(parts[0][j]);
    }
  }

  /** The fed text holds the user and the days on their own lines, then six
      empty lines, and no character but `[A-Za-z0-9_.-]` and new lines: no
      quote, `$`, backquote or backslash can end the double-quoted word. */
  lemma PipedShape(u: string, days: nat)
    requires forall i :: 0 <= i < |u| ==> IsUserChar(u[i])
    ensures var piped := JoinInputs([u, NatToDecimal(days)], 6);
      && Split(piped, '\n') == [u, NatToDecimal(days)] + Repeat("", 6)
      && forall i :: 0 <= i < |piped| ==> IsUserChar(piped[i]) || piped[i] == '\n'
  {
    var ds := NatToDecimal(days);
    assert '\n' !in u && '\n' !in ds;
    JoinInputsSplit([u, ds], 6);
    JoinNested([u, ds], Repeat("", 6), '\n');
    PipedParts(u, ds);
    JoinCharsWithin([u, ds] + Repeat("", 6), '\n', IsUserChar);
  }

  /** The fed lines hold only user characters: the user, the digits of the
      days, and empty lines. */
  lemma PipedParts(u: string, ds: string)
    requires forall i :: 0 <= i < |u| ==> IsUserChar(u[i])
    requires forall i :: 0 <= i < |ds| ==> IsAsciiDigit(ds[i])
    ensures var parts := [u, ds] + Repeat("", 6);
      forall i, j :: 0 <= i < |parts| && 0 <= j < |parts[i]| ==> IsUserChar(parts[i][j])
  {
    var parts := [u, ds] + Repeat("", 6);
    forall i, j | 0 <= i < |parts| && 0 <= j < |parts[i]|
      ensures IsUserChar(parts[i][j])
    {
      if i == 1 {
        assert IsAsciiDigit(ds[j]);
      }
    }
  }

  /** `POST /api/add/:type`: the type is lowercased and must be one of the
      four scripts; the user is sanitized and must not come out empty; the
      days are sanitized; the command feeds `joinInputs([u, String(d)], 6)`
      to the script through `printf`. */
  function HandleAdd(typeParam: Option<string>, user: Option<string>, days: Option<string>): (r: AddReply)
    ensures var kind := LowerAscii(OrEmpty(typeParam));
      && (AddScript(kind).None? ==> r == AddRefused(400, "Jenis add tidak dikenal"))
      && (AddScript(kind).Some? && SanitizeUser(user) == "" ==> r == AddRefused(200, "Username/remarks tidak valid"))
      && (r.AddRun? <==> AddScript(kind).Some? && SanitizeUser(user) != "")
      && (r.AddRun? ==> r.cmd == FeedOpen + r.piped + FeedClose + AddScript(kind).value && r.timeout == AddTimeout(kind))
    ensures r.AddRun? ==> Split(r.piped, '\n') == [SanitizeUser(user), NatToDecimal(SanitizeDays(days) as nat)] + Repeat("", 6)
    ensures r.AddRun? ==> forall i :: 0 <= i < |r.piped| ==> IsUserChar(r.piped[i]) || r.piped[i] == '\n'
  {
    var kind := LowerAscii(OrEmpty(typeParam));
    match AddScript(kind)
    case None => AddRefused(400, "Jenis add tidak dikenal")
    case Some(script) =>
      var u := SanitizeUser(user);
      var d := SanitizeDays(days) as nat;
      if u == "" then AddRefused(200, "Username/remarks tidak valid")
      else
        var piped := JoinInputs([u, NatToDecimal(d)], 6);
        PipedShape(u, d);
        AddRun(FeedOpen + piped + FeedClose + script, AddTimeout(kind), piped)
  }
}
