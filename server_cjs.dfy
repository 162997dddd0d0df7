/** The request handling of server.cjs that does not touch the system: how
    `sh` turns a finished process into a reply, the checks `handleAddSSH` and
    `handleAddGeneric` make and the command lines they build, the scan of the
    xray configuration in `parseXrayAccounts` and the rows of
    `listSSHAccounts`. Running processes and reading files are left to the
    caller: their results are parameters here. */
module ServerCjs {
  import opened Wrappers
  import opened Text
  import opened Decimal
  import opened Ansi
  import opened Shell

  // ------------------------------------------------------------------- sh

  /** How the promise of `sh` settles. */
  datatype ShResult = Resolved(output: string) | Rejected(message: string)

  const NoOutput := "(no output)"

  /** stdout then stderr, `stripAnsi`'d and trimmed. */
  function Cleaned(stdout: Option<string>, stderr: Option<string>): (r: string)
    ensures IsTrimmed(r) && '\r' !in r
  {
    Trim(StripControls(OrEmpty(stdout) + OrEmpty(stderr)))
  }

  /** The callback of `sh`: `err` is the error's message when the process
      failed. */
  function ShOutcome(err: Option<string>, stdout: Option<string>, stderr: Option<string>): (r: ShResult)
    ensures r.Resolved? <==> err.None?
    ensures r.Resolved? ==> r.output != "" && IsTrimmed(r.output) && '\r' !in r.output
  {
    var cleaned := Cleaned(stdout, stderr);
    NoOutputTrimmed();
    match err
    case Some(message) => Rejected(if cleaned != "" then cleaned else message)
    case None => Resolved(if cleaned != "" then cleaned else NoOutput)
  }

  /** The placeholder is a non-empty trimmed line. */
  lemma NoOutputTrimmed()
    ensures NoOutput != "" && IsTrimmed(NoOutput) && '\r' !in NoOutput
  {
    assert NoOutput[0] == '(' && NoOutput[|NoOutput| - 1] == ')';
  }

  /** A process that prints nothing but white space and control sequences
      succeeds with `(no output)`; one that prints text succeeds with that text. */
  lemma SilentSuccess(stdout: Option<string>, stderr: Option<string>)
    ensures Cleaned(stdout, stderr) == "" ==> ShOutcome(None, stdout, stderr) == Resolved(NoOutput)
    ensures Cleaned(stdout, stderr) != "" ==> ShOutcome(None, stdout, stderr) == Resolved(Cleaned(stdout, stderr))
  {
  }

  /** A failure reports the printed text, and only when there is none the
      system's message. */
  lemma FailureMessage(message: string, stdout: Option<string>, stderr: Option<string>)
    ensures Cleaned(stdout, stderr) != "" ==> ShOutcome(Some(message), stdout, stderr) == Rejected(Cleaned(stdout, stderr))
    ensures Cleaned(stdout, stderr) == "" ==> ShOutcome(Some(message), stdout, stderr) == Rejected(message)
  {
  }

  /** Output without escape sequences only loses its carriage returns and the
      white space around it. */
  lemma CleanedPlain(stdout: Option<string>, stderr: Option<string>)
    requires ESC !in OrEmpty(stdout) + OrEmpty(stderr)
    ensures Cleaned(stdout, stderr) == Trim(RemoveCarriageReturns(OrEmpty(stdout) + OrEmpty(stderr)))
  {
    StripControlsPlain(OrEmpty(stdout) + OrEmpty(stderr));
  }

  // ------------------------------------------------------------ validation

  /** `[a-zA-Z0-9_]` */
  predicate IsNameHead(c: char) { IsAsciiLetter(c) || IsAsciiDigit(c) || c == '_' }

  /** `[a-zA-Z0-9_\-]` */
  predicate IsNameChar(c: char) { IsNameHead(c) || c == '-' }

  /** `/^[a-zA-Z0-9_][a-zA-Z0-9_\-]{1,31}$/.test(u)` */
  predicate ValidSshUsername(u: string)
  {
    2 <= |u| <= 32 && IsNameHead(u[0]) && forall i :: 1 <= i < |u| ==> IsNameChar(u[i])
  }

  /** A valid user name is a plain shell word without quotes. */
  lemma ValidSshUsernamePlain(u: string)
    requires ValidSshUsername(u)
    ensures AllPlain(u) && '\'' !in u
  {
    assert forall i :: 0 <= i < |u| ==> IsNameChar(u[i]);
  }

  /** `parseInt(days, 10) || 30`: NaN and zero fall back to 30. */
  function RequestedDays(days: Option<string>): (n: int)
    ensures n != 0
    ensures days.None? ==> n == 30
  {
    match days
    case None => 30
    case Some(s) =>
      match ParseInt(s)
      case None => 30
      case Some(v) => if v != 0 then v else 30
  }

  /** A positive count written in decimal is read as itself. */
  lemma RequestedDaysOfDecimal(n: nat)
    requires n > 0
    ensures RequestedDays(Some(NatToDecimal(n))) == n
  {
    ParseIntOfDecimal(n);
  }

  /** `a || b || ""` for two optional strings. */
  function FirstTruthy(a: Option<string>, b: Option<string>): (r: string)
    ensures OrEmpty(a) != "" ==> r == OrEmpty(a)
    ensures OrEmpty(a) == "" ==> r == OrEmpty(b)
  {
    if OrEmpty(a) != "" then OrEmpty(a) else OrEmpty(b)
  }

  // ------------------------------------------------------------ commands

  /** The format `printf` is given: one `%s` and a newline per answer. */
  const SshFormat := "%s\n%s\n%s\n"
  const FeedFormat := "%s\n%s\n"

  /** The command `handleAddSSH` runs; the password is escaped with
      `replace(/'/g, "'\\''")`, the user name and the days are not. */
  function SshCommand(user: string, password: string, days: nat): string
  {
    "printf '" + SshFormat + "' '" + user + "' '" + ReplaceChar(password, '\'', "'\\''")
    + "' '" + NatToDecimal(days) + "' | " + UserNew
  }

  const UserNew := "/usr/bin/usernew"

  /** The `feed` of an `ADD_MAP` entry: remarks and days go in unescaped. */
  function Feed(script: string, remarks: string, days: nat): string
  {
    "printf '" + FeedFormat + "' '" + remarks + "' '" + NatToDecimal(days) + "' | " + script
  }

  /** The quoted arguments of a four-argument command, spelled out. */
  lemma QuotedFour(f: string, u: string, p: string, d: string)
    ensures QuotedArgs([f, u, p, d])
      == " " + SingleQuote(f) + (" " + SingleQuote(u) + (" " + SingleQuote(p) + (" " + SingleQuote(d))))
  {
    assert [f, u, p, d][1..] == [u, p, d];
    assert [u, p, d][1..] == [p, d];
    assert [p, d][1..] == [d];
    assert [d][1..] == [];
    assert QuotedArgs([d]) == " " + SingleQuote(d);
    assert QuotedArgs([p, d]) == " " + SingleQuote(p) + (" " + SingleQuote(d));
  }

  /** Moving the literal quotes of a command template into its quoted words. */
  lemma RegroupQuoted(a: string, f: string, u: string, qp: string, d: string, t: string)
    ensures a + " '" + f + "' '" + u + "' '" + qp + "' '" + d + "'" + t
      == a + ((" " + ("'" + f + "'") + (" " + ("'" + u + "'") + (" " + ("'" + qp + "'") + (" " + ("'" + d + "'"))))) + t)
  {
    assert " '" == " " + "'";
    assert "' '" == "'" + " " + "'";
  }

  lemma RegroupPrintf(name: string, pre: string, f: string, u: string, p: string, d: string, script: string)
    requires pre == name + " '"
    requires '\'' !in f && '\'' !in u && '\'' !in d
    ensures pre + f + "' '" + u + "' '" + ReplaceChar(p, '\'', "'\\''") + "' '" + d + "' | " + script
      == name + (QuotedArgs([f, u, p, d]) + (" | " + script))
  {
    var qp := ReplaceChar(p, '\'', "'\\''");
    var x := pre + f + "' '" + u + "' '" + qp + "' '" + d;
    QuotedFour(f, u, p, d);
    SingleQuotePlain(f);
    SingleQuotePlain(u);
    SingleQuotePlain(d);
    RegroupQuoted(name, f, u, qp, d, " | " + script);
    TailQuote(x, script);
  }

  lemma TailQuote(x: string, script: string)
    ensures x + "' | " + script == x + "'" + (" | " + script)
  {
    assert "' | " == "'" + " | ";
  }


  /** The command word and the text that opens its first argument. */
  lemma PrintfWord(name: string, pre: string)
    requires name == "printf" && pre == "printf '"
    ensures name != [] && AllPlain(name) && pre == name + " '"
  {
  }

  lemma WordsFour(f: string, u: string, p: string, d: string)
    ensures Words([f, u, p, d]) == [Word(f), Word(u), Word(p), Word(d)]
  {
    assert [f, u, p, d][1..] == [u, p, d];
    assert [u, p, d][1..] == [p, d];
    assert [p, d][1..] == [d];
    assert [d][1..] == [];
  }

  lemma LexQuotedFour(name: string, f: string, u: string, p: string, d: string, script: string)
    requires name != [] && AllPlain(name)
    requires script != [] && AllPlain(script)
    ensures Lex(name + (QuotedArgs([f, u, p, d]) + (" | " + script)))
      == Some([Word(name), Word(f), Word(u), Word(p), Word(d), Pipe, Word(script)])
  {
    LexQuotedPipeline(name, [f, u, p, d], script);
    TokensFour(name, f, u, p, d, script);
  }

  lemma TokensFour(name: string, f: string, u: string, p: string, d: string, script: string)
    ensures [Word(name)] + Words([f, u, p, d]) + [Pipe, Word(script)]
      == [Word(name), Word(f), Word(u), Word(p), Word(d), Pipe, Word(script)]
  {
    WordsFour(f, u, p, d);
  }

  /** A command of four single-quoted arguments, the third escaped, piped
      into a plain script. */
  lemma LexPrintfFour(name: string, pre: string, f: string, u: string, p: string, d: string, script: string)
    requires name != [] && AllPlain(name) && pre == name + " '"
    requires '\'' !in f && '\'' !in u && '\'' !in d
    requires script != [] && AllPlain(script)
    ensures Lex(pre + f + "' '" + u + "' '" + ReplaceChar(p, '\'', "'\\''") + "' '" + d + "' | " + script)
      == Some([Word(name), Word(f), Word(u), Word(p), Word(d), Pipe, Word(script)])
  {
    RegroupPrintf(name, pre, f, u, p, d, script);
    LexQuotedFour(name, f, u, p, d, script);
  }

  lemma ScriptPlain(script: string)
    requires script in {"/usr/bin/usernew", "/usr/bin/add-ws", "/usr/bin/add-vless", "/usr/bin/add-tr", "/usr/bin/add-ssws"}
    ensures script != [] && AllPlain(script)
  {
  }

  /** bash reads the SSH command as `printf`, its format, the user name, the
      password exactly as given, the days, and a pipe into `usernew`. */
  lemma SshCommandWords(user: string, password: string, days: nat)
    requires ValidSshUsername(user)
    ensures Lex(SshCommand(user, password, days)) == Some([Word("printf"), Word(SshFormat), Word(user),
      Word(password), Word(NatToDecimal(days)), Pipe, Word(UserNew)])
  {
    ValidSshUsernamePlain(user);
    var d := NatToDecimal(days);
    assert '\'' !in d by {
      assert forall i :: 0 <= i < |d| ==> IsAsciiDigit(d[i]);
    }
    assert '\'' !in SshFormat;
    ScriptPlain(UserNew);
    PrintfWord("printf", "printf '");
    LexPrintfFour("printf", "printf '", SshFormat, user, password, d, UserNew);
  }

  lemma QuotedThree(f: string, r: string, d: string)
    ensures QuotedArgs([f, r, d]) == " " + SingleQuote(f) + (" " + SingleQuote(r) + (" " + SingleQuote(d)))
  {
    assert [f, r, d][1..] == [r, d];
    assert [r, d][1..] == [d];
    assert [d][1..] == [];
    assert QuotedArgs([d]) == " " + SingleQuote(d);
  }

  lemma RegroupQuotedThree(a: string, f: string, r: string, d: string, t: string)
    ensures a + " '" + f + "' '" + r + "' '" + d + "'" + t
      == a + ((" " + ("'" + f + "'") + (" " + ("'" + r + "'") + (" " + ("'" + d + "'")))) + t)
  {
    assert " '" == " " + "'";
    assert "' '" == "'" + " " + "'";
  }

  lemma RegroupFeed(name: string, pre: string, f: string, r: string, d: string, script: string)
    requires pre == name + " '"
    requires '\'' !in f && '\'' !in r && '\'' !in d
    ensures pre + f + "' '" + r + "' '" + d + "' | " + script == name + (QuotedArgs([f, r, d]) + (" | " + script))
  {
    QuotedThree(f, r, d);
    SingleQuotePlain(f);
    SingleQuotePlain(r);
    SingleQuotePlain(d);
    RegroupQuotedThree(name, f, r, d, " | " + script);
    assert "' | " + script == "'" + (" | " + script);
  }

  lemma LexQuotedThree(name: string, f: string, r: string, d: string, script: string)
    requires name != [] && AllPlain(name)
    requires script != [] && AllPlain(script)
    ensures Lex(name + (QuotedArgs([f, r, d]) + (" | " + script)))
      == Some([Word(name), Word(f), Word(r), Word(d), Pipe, Word(script)])
  {
    LexQuotedPipeline(name, [f, r, d], script);
    TokensThree(name, f, r, d, script);
  }

  lemma TokensThree(name: string, f: string, r: string, d: string, script: string)
    ensures [Word(name)] + Words([f, r, d]) + [Pipe, Word(script)]
      == [Word(name), Word(f), Word(r), Word(d), Pipe, Word(script)]
  {
    assert Words([f, r, d]) == [Word(f), Word(r), Word(d)] by {
      assert [f, r, d][1..] == [r, d];
      assert [r, d][1..] == [d];
      assert [d][1..] == [];
    }
  }

  lemma DecimalQuoteFree(n: nat)
    ensures '\'' !in NatToDecimal(n) && AllPlain(NatToDecimal(n))
  {
    var d := NatToDecimal(n);
    assert forall i :: 0 <= i < |d| ==> IsAsciiDigit(d[i]);
  }

  /** Remarks without `'` reach the script as one argument: bash reads the
      feed as `printf`, its format, the remarks, the days, and a pipe into
      the script. */
  lemma FeedWords(script: string, remarks: string, days: nat)
    requires script != [] && AllPlain(script)
    requires '\'' !in remarks
    ensures Lex(Feed(script, remarks, days)) == Some([Word("printf"), Word(FeedFormat), Word(remarks),
      Word(NatToDecimal(days)), Pipe, Word(script)])
  {
    DecimalQuoteFree(days);
    assert '\'' !in FeedFormat;
    PrintfWord("printf", "printf '");
    RegroupFeed("printf", "printf '", FeedFormat, remarks, NatToDecimal(days), script);
    LexQuotedThree("printf", FeedFormat, remarks, NatToDecimal(days), script);
  }

  lemma PrependNone(w: string)
    ensures Prepend(w, None) == None
  {
  }

  /** The word that starts at the remarks' opening quote when the remarks are
      `a'b`: it never finds its closing quote. */
  lemma BrokenWord(a: string, b: string, d: string, script: string)
    requires '\'' !in a && AllPlain(b) && AllPlain(d) && '\'' !in script
    ensures ReadWord("'" + a + "'" + (b + ("'" + " " + "'" + (d + ("'" + (" | " + script)))))) == None
  {
    var t4 := " | " + script;
    ReadUnclosed(t4);
    ReadPlain(d, "'" + t4);
    ReadQuotedSegment(" ", d + ("'" + t4));
    ReadPlain(b, "'" + " " + "'" + (d + ("'" + t4)));
    ReadQuotedSegment(a, b + ("'" + " " + "'" + (d + ("'" + t4))));
  }

  lemma RegroupBroken(name: string, pre: string, f: string, a: string, b: string, d: string, script: string)
    requires pre == name + " '"
    requires '\'' !in f
    ensures pre + f + "' '" + (a + "'" + b) + "' '" + d + "' | " + script
      == name + (" " + SingleQuote(f) + (" " + ("'" + a + "'" + (b + ("'" + " " + "'" + (d + ("'" + (" | " + script))))))))
  {
    SingleQuotePlain(f);
    assert " '" == " " + "'";
    assert "' '" == "'" + " " + "'";
    assert "' | " == "'" + " | ";
    BrokenShape(name, pre, " ", "'", "' '", f, SingleQuote(f), a, b, d, "' | ", " | ", script);
  }

  /** The regrouping of RegroupBroken over any pieces. */
  lemma BrokenShape<T>(name: seq<T>, pre: seq<T>, sp: seq<T>, q: seq<T>, m: seq<T>, f: seq<T>, sf: seq<T>,
                       a: seq<T>, b: seq<T>, d: seq<T>, e: seq<T>, pp: seq<T>, script: seq<T>)
    requires pre == name + sp + q && m == q + sp + q && sf == q + f + q && e == q + pp
    ensures pre + f + m + (a + q + b) + m + d + e + script
      == name + (sp + sf + (sp + (q + a + q + (b + (q + sp + q + (d + (q + (pp + script))))))))
  {
  }

  /** A command whose second argument starts a word bash cannot finish. */
  lemma LexBrokenSecond(name: string, f: string, w: string)
    requires name != [] && AllPlain(name)
    requires w != [] && w[0] == '\'' && ReadWord(w) == None
    ensures Lex(name + (" " + SingleQuote(f) + (" " + w))) == None
  {
    assert Lex(w) == None;
    LexSpace(w);
    LexSingleQuote(f, " " + w);
    assert " " + SingleQuote(f) + (" " + w) == " " + (SingleQuote(f) + (" " + w));
    LexSpace(SingleQuote(f) + (" " + w));
    LexPlain(name, " " + SingleQuote(f) + (" " + w));
  }

  /** Remarks holding one `'` between plain parts break the feed: the quote
      closes the remarks' quoting early, and the command line ends inside a
      quote, so bash refuses it. */
  lemma FeedBrokenByQuote(script: string, a: string, b: string, days: nat)
    requires script != [] && AllPlain(script)
    requires '\'' !in a && AllPlain(b)
    ensures Lex(Feed(script, a + "'" + b, days)) == None
  {
    var d := NatToDecimal(days);
    DecimalQuoteFree(days);
    assert '\'' !in FeedFormat;
    assert '\'' !in script;
    PrintfWord("printf", "printf '");
    var w := "'" + a + "'" + (b + ("'" + " " + "'" + (d + ("'" + (" | " + script)))));
    RegroupBroken("printf", "printf '", FeedFormat, a, b, d, script);
    BrokenWord(a, b, d, script);
    LexBrokenSecond("printf", FeedFormat, w);
  }

  /** Remarks holding two quotes are not refused but read as different
      words: `x' 'y` closes the remarks' quoting, inserts a space and reopens
      it, so bash passes `printf` two remarks words and the days become the
      third value fed to the script. */
  lemma FeedInjection(script: string, days: nat)
    requires script != [] && AllPlain(script)
    ensures Lex(Feed(script, "x' 'y", days)) == Some([Word("printf"), Word(FeedFormat), Word("x"), Word("y"),
      Word(NatToDecimal(days)), Pipe, Word(script)])
  {
    var d := NatToDecimal(days);
    DecimalQuoteFree(days);
    assert '\'' !in FeedFormat;
    PrintfWord("printf", "printf '");
    var y' := ReplaceChar("y", '\'', "'\\''");
    assert '\'' !in "y";
    RegroupInjection(FeedFormat, y', d, script);
    LexPrintfFour("printf", "printf '", FeedFormat, "x", "y", d, script);
  }

  /** The remarks `x' 'y` spelled as two quoted words. */
  lemma RegroupInjection(f: string, y: string, d: string, script: string)
    requires y == "y"
    ensures "printf '" + f + "' '" + "x' 'y" + "' '" + d + "' | " + script
      == "printf '" + f + "' '" + "x" + "' '" + y + "' '" + d + "' | " + script
  {
    assert "x' 'y" == "x" + "' '" + y;
  }

  /** What `printf '%s\n%s\n'` writes for one or more arguments: each
      argument followed by a newline; the format is reused while arguments
      remain, and the second `%s` of a last round without its argument
      prints nothing. */
  function FedText(args: seq<string>): (t: string)
    requires |args| >= 1
    decreases |args|
  {
    if |args| == 1 then args[0] + "\n" + "\n"
    else if |args| == 2 then args[0] + "\n" + args[1] + "\n"
    else args[0] + "\n" + args[1] + "\n" + FedText(args[2..])
  }

  /** The lines the script reads: its input split at newlines. Quote- and
      newline-free remarks give the script exactly two answers, the remarks
      and then the days. */
  lemma FeedAnswers(remarks: string, days: nat)
    requires '\n' !in remarks
    ensures Split(FedText([remarks, NatToDecimal(days)]), '\n') == [remarks, NatToDecimal(days), ""]
  {
    var d := NatToDecimal(days);
    DecimalNoNewline(days);
    FedTwo(remarks, d);
    TwoLines(remarks, d, '\n');
  }

  lemma DecimalNoNewline(days: nat)
    ensures '\n' !in NatToDecimal(days)
  {
    var d := NatToDecimal(days);
    assert forall i :: 0 <= i < |d| ==> IsAsciiDigit(d[i]);
  }

  /** Two arguments fill the format once. */
  lemma FedTwo(r: string, d: string)
    ensures FedText([r, d]) == r + ['\n'] + (d + ['\n'] + [])
  {
  }

  /** `handleAddGeneric` trims only the ends of the remarks, so a newline
      inside them stays. Bash still passes `a\nb` to `printf` as one
      argument, but `printf` writes it as two lines: the script reads `a` as
      the remarks, `b` as the days, and the days as a third line. */
  lemma FeedNewline(script: string, a: string, b: string, days: nat)
    requires script != [] && AllPlain(script)
    requires '\'' !in a && '\'' !in b && '\n' !in a && '\n' !in b
    ensures Lex(Feed(script, a + "\n" + b, days)) == Some([Word("printf"), Word(FeedFormat), Word(a + "\n" + b),
      Word(NatToDecimal(days)), Pipe, Word(script)])
    ensures Split(FedText([a + "\n" + b, NatToDecimal(days)]), '\n') == [a, b, NatToDecimal(days), ""]
  {
    NewlineJoined(a, b);
    FeedWords(script, a + "\n" + b, days);
    FeedNewlineLines(a, b, days);
  }

  lemma NewlineJoined(a: string, b: string)
    requires '\'' !in a && '\'' !in b
    ensures '\'' !in a + "\n" + b
  {
  }

  /** The lines the script reads when the remarks are `a`, a newline and `b`. */
  lemma FeedNewlineLines(a: string, b: string, days: nat)
    requires '\n' !in a && '\n' !in b
    ensures Split(FedText([a + "\n" + b, NatToDecimal(days)]), '\n') == [a, b, NatToDecimal(days), ""]
  {
    var d := NatToDecimal(days);
    DecimalNoNewline(days);
    FedTwo(a + "\n" + b, d);
    Regroup(a, '\n', b, d + ['\n'] + []);
    ThreeLines(a, b, d, '\n');
  }

  /** Three separator-free pieces, each followed by the separator, split
      back into the pieces and a final empty line. */
  lemma ThreeLines(a: string, b: string, d: string, sep: char)
    requires sep !in a && sep !in b && sep !in d
    ensures Split(a + [sep] + (b + [sep] + (d + [sep] + [])), sep) == [a, b, d, []]
  {
    var t := d + [sep] + [];
    TwoLines(b, d, sep);
    SplitFront(a, sep, b + [sep] + t);
    ConsDisplay(a, [b, d, []]);
  }

  lemma TwoLines(b: string, d: string, sep: char)
    requires sep !in b && sep !in d
    ensures Split(b + [sep] + (d + [sep] + []), sep) == [b, d, []]
  {
    LastLine(d, sep);
    SplitFront(b, sep, d + [sep] + []);
    ConsDisplay(b, [d, []]);
  }

  lemma LastLine(d: string, sep: char)
    requires sep !in d
    ensures Split(d + [sep] + [], sep) == [d, []]
  {
    assert Split([], sep) == [[]];
    SplitFront(d, sep, []);
  }

  lemma ConsDisplay<T>(x: T, r: seq<T>)
    ensures |r| == 3 ==> [x] + r == [x, r[0], r[1], r[2]]
    ensures |r| == 2 ==> [x] + r == [x, r[0], r[1]]
  {
  }

  lemma Regroup<T>(a: seq<T>, sep: T, b: seq<T>, t: seq<T>)
    ensures a + [sep] + b + [sep] + t == a + [sep] + (b + [sep] + t)
  {
  }

  // ------------------------------------------------------------ handlers

  /** The fields of a request body the handlers read. */
  datatype Body = Body(username: Option<string>, remarks: Option<string>, password: Option<string>, days: Option<string>)

  /** What a handler does: answer with an error status, or run a command with
      a timeout (and, for SSH, report the password it generated). */
  datatype Plan = Refuse(status: nat, error: string) | Run(cmd: string, timeout: nat, generatedPassword: Option<string>)

  /** `(username || remarks || "").trim()` */
  function SshUser(body: Body): string
  {
    Trim(FirstTruthy(body.username, body.remarks))
  }

  /** The password the account gets: the one given, else the generated one
      (`randPass()` is the parameter `generated`). */
  function SshPassword(body: Body, generated: string): (p: string)
    ensures OrEmpty(body.password) != "" ==> p == OrEmpty(body.password)
    ensures OrEmpty(body.password) == "" ==> p == generated
  {
    if OrEmpty(body.password) != "" then OrEmpty(body.password) else generated
  }

  /** `handleAddSSH`: both checks come before the command is built, and bash
      reads the command as the intended seven tokens. */
  function HandleAddSsh(body: Body, generated: string): (r: Plan)
    ensures var user := SshUser(body); var days := RequestedDays(body.days);
      && (r.Run? <==> ValidSshUsername(user) && 1 <= days <= 3650)
      && (!ValidSshUsername(user) ==> r == Refuse(400, "username invalid"))
      && (ValidSshUsername(user) && !(1 <= days <= 3650) ==> r == Refuse(400, "days out of range"))
      && (r.Run? ==> r.timeout == 180000 && Lex(r.cmd) == Some([Word("printf"), Word(SshFormat), Word(user),
            Word(SshPassword(body, generated)), Word(NatToDecimal(days)), Pipe, Word(UserNew)]))
      && (r.Run? ==> (r.generatedPassword.Some? <==> OrEmpty(body.password) == ""))
  {
    var user := SshUser(body);
    var days := RequestedDays(body.days);
    var password := SshPassword(body, generated);
    if !ValidSshUsername(user) then Refuse(400, "username invalid")
    else if days < 1 || days > 3650 then Refuse(400, "days out of range")
    else
      SshCommandWords(user, password, days);
      Run(SshCommand(user, password, days), 180000, if OrEmpty(body.password) == "" then Some(password) else None)
  }

  /** The scripts of `ADD_MAP`. */
  function AddScript(kind: string): (r: Option<string>)
    ensures r.Some? <==> kind in {"vmess", "vless", "trojan", "ss"}
    ensures r.Some? ==> r.value != [] && AllPlain(r.value)
  {
    if kind == "vmess" then ScriptPlain("/usr/bin/add-ws"); Some("/usr/bin/add-ws")
    else if kind == "vless" then ScriptPlain("/usr/bin/add-vless"); Some("/usr/bin/add-vless")
    else if kind == "trojan" then ScriptPlain("/usr/bin/add-tr"); Some("/usr/bin/add-tr")
    else if kind == "ss" then ScriptPlain("/usr/bin/add-ssws"); Some("/usr/bin/add-ssws")
    else None
  }

  /** `handleAddGeneric` for the route parameter `kind`: `ssh` is handed to
      `handleAddSSH`; for the others the kind is checked first, then the
      remarks, then the days. */
  function HandleAddGeneric(kindParam: Option<string>, body: Body, generated: string): (r: Plan)
    ensures var kind := LowerAscii(OrEmpty(kindParam));
      var remarks := Trim(OrEmpty(body.remarks)); var days := RequestedDays(body.days);
      && (kind == "ssh" ==> r == HandleAddSsh(body, generated))
      && (kind != "ssh" && AddScript(kind).None? ==> r == Refuse(400, "Unsupported kind"))
      && (kind != "ssh" && AddScript(kind).Some? ==>
            && (r.Run? <==> remarks != "" && 1 <= days <= 3650)
            && (remarks == "" ==> r == Refuse(400, "remarks is required"))
            && (remarks != "" && !(1 <= days <= 3650) ==> r == Refuse(400, "days out of range"))
            && (r.Run? ==> r.timeout == 120000 && r.cmd == Feed(AddScript(kind).value, remarks, days)))
  {
    var kind := LowerAscii(OrEmpty(kindParam));
    if kind == "ssh" then HandleAddSsh(body, generated)
    else
      match AddScript(kind)
      case None => Refuse(400, "Unsupported kind")
      case Some(script) =>
        var remarks := Trim(OrEmpty(body.remarks));
        var days := RequestedDays(body.days);
        if remarks == "" then Refuse(400, "remarks is required")
        else if days < 1 || days > 3650 then Refuse(400, "days out of range")
        else Run(Feed(script, remarks, days), 120000, None)
  }

  /** Remarks made of two trimmed lines are not refused: a supported kind
      with such remarks and an accepted number of days is run, and the
      remarks handed to the feed keep their newline. */
  lemma GenericNewlineRuns(kindParam: Option<string>, body: Body, generated: string, a: string, b: string)
    requires a != "" && b != "" && IsTrimmed(a) && IsTrimmed(b)
    requires body.remarks == Some(a + "\n" + b)
    ensures Trim(OrEmpty(body.remarks)) == a + "\n" + b
    ensures var kind := LowerAscii(OrEmpty(kindParam)); var days := RequestedDays(body.days);
      kind != "ssh" && AddScript(kind).Some? && 1 <= days <= 3650 ==>
        HandleAddGeneric(kindParam, body, generated).Run?
  {
    NewlineRemarks(body, a, b);
    GenericRuns(kindParam, body, generated);
  }

  lemma NewlineRemarks(body: Body, a: string, b: string)
    requires a != "" && b != "" && IsTrimmed(a) && IsTrimmed(b)
    requires body.remarks == Some(a + "\n" + b)
    ensures Trim(OrEmpty(body.remarks)) == a + "\n" + b != ""
  {
    TrimmedLines(a, b);
  }

  /** A supported kind with non-blank remarks and an accepted number of days is run. */
  lemma GenericRuns(kindParam: Option<string>, body: Body, generated: string)
    requires Trim(OrEmpty(body.remarks)) != ""
    ensures var kind := LowerAscii(OrEmpty(kindParam)); var days := RequestedDays(body.days);
      kind != "ssh" && AddScript(kind).Some? && 1 <= days <= 3650 ==>
        HandleAddGeneric(kindParam, body, generated).Run?
  {
  }

  /** Two trimmed non-empty lines joined by a newline are trimmed. */
  lemma TrimmedLines(a: string, b: string)
    requires a != "" && b != "" && IsTrimmed(a) && IsTrimmed(b)
    ensures Trim(a + "\n" + b) == a + "\n" + b
  {
    var t := a + "\n" + b;
    assert t[0] == a[0] && t[|t| - 1] == b[|b| - 1];
    TrimTrimmed(t);
  }

  /** A generic add whose remarks hold no `'` runs the script with the
      remarks and the days as its two answers. */
  lemma GenericCommandWords(kindParam: Option<string>, body: Body, generated: string)
    requires '\'' !in OrEmpty(body.remarks)
    ensures var kind := LowerAscii(OrEmpty(kindParam)); var r := HandleAddGeneric(kindParam, body, generated);
      kind != "ssh" && r.Run? ==>
        && AddScript(kind).Some?
        && Lex(r.cmd) == Some([Word("printf"), Word(FeedFormat), Word(Trim(OrEmpty(body.remarks))),
             Word(NatToDecimal(RequestedDays(body.days))), Pipe, Word(AddScript(kind).value)])
  {
    var kind := LowerAscii(OrEmpty(kindParam));
    var remarks := Trim(OrEmpty(body.remarks));
    if kind != "ssh" && HandleAddGeneric(kindParam, body, generated).Run? {
      assert '\'' !in remarks;
      FeedWords(AddScript(kind).value, remarks, RequestedDays(body.days));
    }
  }

  // ------------------------------------------------------ xray accounts

  datatype Account = Account(user: string, exp: string)

  /** `\d{4}-\d{2}-\d{2}` at position `m` of `s`. */
  predicate DateAt(s: string, m: nat)
  {
    && m + 10 <= |s|
    && IsAsciiDigit(s[m]) && IsAsciiDigit(s[m + 1]) && IsAsciiDigit(s[m + 2]) && IsAsciiDigit(s[m + 3])
    && s[m + 4] == '-' && IsAsciiDigit(s[m + 5]) && IsAsciiDigit(s[m + 6])
    && s[m + 7] == '-' && IsAsciiDigit(s[m + 8]) && IsAsciiDigit(s[m + 9])
  }

  predicate IsDate(e: string) { |e| == 10 && DateAt(e, 0) }

  /** `\S` */
  predicate NotSpace(c: char) { !IsSpace(c) }

  predicate NoSpace(s: string) { forall i :: 0 <= i < |s| ==> !IsSpace(s[i]) }

  /** The match of `marker\s+(\S+)\s+(\d{4}-\d{2}-\d{2})` at the start of
      `s`: the two captures and the length of the match. Each class of the
      pattern excludes the next one, so backtracking can never shorten a
      greedy run into a match: the match exists exactly when the date is
      where the runs end. */
  function MarkerAt(s: string, marker: string): (r: Option<(Account, nat)>)
    ensures r.Some? ==> |marker| < r.value.1 <= |s| && s[..|marker|] == marker
    ensures r.Some? ==> r.value.0.user != "" && NoSpace(r.value.0.user) && IsDate(r.value.0.exp)
  {
    if |s| < |marker| || s[..|marker|] != marker then None
    else
      var j := SkipWhile(s, |marker|, IsSpace);
      var k := SkipWhile(s, j, NotSpace);
      var m := SkipWhile(s, k, IsSpace);
      if j == |marker| || k == j || m == k || !DateAt(s, m) then None
      else
        RunNoSpace(s, j);
        DateAtSlice(s, m);
        Some((Account(s[j..k], s[m..m + 10]), m + 10))
  }

  /** A run of `\S` holds no white space. */
  lemma RunNoSpace(s: string, j: nat)
    requires j <= |s|
    ensures NoSpace(s[j..SkipWhile(s, j, NotSpace)])
  {
    var k := SkipWhile(s, j, NotSpace);
    forall i | 0 <= i < k - j
      ensures !IsSpace(s[j..k][i])
    {
      assert s[j..k][i] == s[j + i];
      assert NotSpace(s[j + i]);
    }
  }

  /** A date found in a text is a date on its own. */
  lemma DateAtSlice(s: string, m: nat)
    requires DateAt(s, m)
    ensures IsDate(s[m..m + 10])
  {
  }

  /** Two texts that agree on a prefix agree on every slice of it. */
  lemma SliceAgree(s: string, s2: string, n: nat, i: nat, j: nat)
    requires i <= j <= n <= |s| && n <= |s2| && s2[..n] == s[..n]
    ensures s2[i..j] == s[i..j]
  {
    forall k | 0 <= k < j - i
      ensures s2[i..j][k] == s[i..j][k]
    {
      assert s2[..n][i + k] == s[..n][i + k];
    }
  }

  /** A run that ends inside the agreed prefix ends at the same place. */
  lemma SkipAgree(s: string, s2: string, i: nat, n: nat, p: char -> bool)
    requires i <= |s| && SkipWhile(s, i, p) < n <= |s| && n <= |s2|
    requires s2[..n] == s[..n]
    ensures SkipWhile(s2, i, p) == SkipWhile(s, i, p)
  {
    var j := SkipWhile(s, i, p);
    forall m | i <= m <= j
      ensures s2[m] == s[m]
    {
      assert s2[..n][m] == s[..n][m];
    }
    SkipWhileRun(s2, i, j, p);
  }

  /** A match depends only on the text it covers. */
  lemma MarkerAtAgree(s: string, s2: string, marker: string)
    requires MarkerAt(s, marker).Some?
    requires MarkerAt(s, marker).value.1 <= |s2|
    requires s2[..MarkerAt(s, marker).value.1] == s[..MarkerAt(s, marker).value.1]
    ensures MarkerAt(s2, marker) == MarkerAt(s, marker)
  {
    var n := MarkerAt(s, marker).value.1;
    SliceAgree(s, s2, n, 0, |marker|);
    var j := SkipWhile(s, |marker|, IsSpace);
    var k := SkipWhile(s, j, NotSpace);
    var m := SkipWhile(s, k, IsSpace);
    assert MarkerAt(s, marker) == Some((Account(s[j..k], s[m..m + 10]), m + 10));
    SkipAgree(s, s2, |marker|, n, IsSpace);
    SkipAgree(s, s2, j, n, NotSpace);
    SkipAgree(s, s2, k, n, IsSpace);
    SliceAgree(s, s2, n, j, k);
    SliceAgree(s, s2, n, m, m + 10);
  }

  /** A match ends with the last digit of its date, never at a line end. */
  lemma MarkerAtDigitEnd(s: string, marker: string)
    requires MarkerAt(s, marker).Some?
    ensures IsAsciiDigit(s[MarkerAt(s, marker).value.1 - 1])
  {
    var j := SkipWhile(s, |marker|, IsSpace);
    var k := SkipWhile(s, j, NotSpace);
    var m := SkipWhile(s, k, IsSpace);
    assert MarkerAt(s, marker) == Some((Account(s[j..k], s[m..m + 10]), m + 10));
    assert DateAt(s, m);
  }

  /** `txt.match(re)` under the flags `g` and `m`, scanning `s` from a
      position where `^` holds exactly when `bol`: the matched texts with
      their captures, in order. */
  function Scan(s: string, marker: string, bol: bool): (r: seq<(string, Account)>)
    ensures forall k :: 0 <= k < |r| ==> MarkerAt(r[k].0, marker) == Some((r[k].1, |r[k].0|))
    decreases |s|
  {
    if s == [] then []
    else if bol && MarkerAt(s, marker).Some? then
      var n := MarkerAt(s, marker).value.1;
      MarkerAtAgree(s, s[..n], marker);
      var head := (s[..n], MarkerAt(s, marker).value.0);
      var tail := Scan(s[n..], marker, IsLineTerminator(s[n - 1]));
      assert MarkerAt(head.0, marker) == Some((head.1, |head.0|));
      MatchesCons(head, tail, marker);
      [head] + tail
    else Scan(s[1..], marker, IsLineTerminator(s[0]))
  }

  /** A whole match put before whole matches gives whole matches. */
  lemma MatchesCons(head: (string, Account), tail: seq<(string, Account)>, marker: string)
    requires MarkerAt(head.0, marker) == Some((head.1, |head.0|))
    requires forall k :: 0 <= k < |tail| ==> MarkerAt(tail[k].0, marker) == Some((tail[k].1, |tail[k].0|))
    ensures forall k :: 0 <= k < |[head] + tail| ==>
      MarkerAt(([head] + tail)[k].0, marker) == Some((([head] + tail)[k].1, |([head] + tail)[k].0|))
  {
    var r := [head] + tail;
    forall k | 0 <= k < |r|
      ensures MarkerAt(r[k].0, marker) == Some((r[k].1, |r[k].0|))
    {
      if k > 0 {
        assert r[k] == tail[k - 1];
      }
    }
  }

  function Captures(r: seq<(string, Account)>): (accs: seq<Account>)
    ensures |accs| == |r| && forall k :: 0 <= k < |r| ==> accs[k] == r[k].1
  {
    seq(|r|, k requires 0 <= k < |r| => r[k].1)
  }

  function Texts(r: seq<(string, Account)>): (ts: seq<string>)
    ensures |ts| == |r| && forall k :: 0 <= k < |r| ==> ts[k] == r[k].0
  {
    seq(|r|, k requires 0 <= k < |r| => r[k].0)
  }

  /** The accounts one marker lists in a configuration text. */
  function Accounts(txt: string, marker: string): seq<Account>
  {
    Captures(Scan(txt, marker, true))
  }

  /** `(txt.match(re) || [])`, then each matched text matched again without
      `g` and `m` and its captures pushed: one `forEach` of
      `parseXrayAccounts`. */
  method CollectMarker(txt: string, marker: string) returns (list: seq<Account>)
    ensures list == Accounts(txt, marker)
  {
    var found := Scan(txt, marker, true);
    var lines := Texts(found);
    ghost var accs := Captures(found);
    list := [];
    for k := 0 to |lines|
      invariant list == accs[..k]
    {
      var m := MarkerAt(lines[k], marker);
      assert m == Some((accs[k], |lines[k]|));
      if m.Some? {
        list := list + [m.value.0];
      }
      TakeSnoc(accs, k);
    }
    TakeAll(accs);
  }

  /** `parseXrayAccounts` over the text of `/etc/xray/config.json` (None when
      it cannot be read). The `ss` list takes the `###` matches whose user is
      not among the VMess users, and every one of them is. */
  method ParseXrayAccounts(config: Option<string>) returns (vmess: seq<Account>, vless: seq<Account>, trojan: seq<Account>, ss: seq<Account>)
    ensures config.None? ==> vmess == [] && vless == [] && trojan == []
    ensures config.Some? ==> vmess == Accounts(config.value, "###")
    ensures config.Some? ==> vless == Accounts(config.value, "#&")
    ensures config.Some? ==> trojan == Accounts(config.value, "#!")
    ensures ss == []
  {
    vmess, vless, trojan, ss := [], [], [], [];
    if config.None? {
      return;
    }
    var txt := config.value;
    vmess := CollectMarker(txt, "###");
    vless := CollectMarker(txt, "#&");
    trojan := CollectMarker(txt, "#!");
    var vmessSet := set a | a in vmess :: a.user;
    var found := Scan(txt, "###", true);
    var lines := Texts(found);
    for k := 0 to |lines|
      invariant ss == []
    {
      var m := MarkerAt(lines[k], "###");
      assert m == Some((found[k].1, |lines[k]|));
      assert found[k].1 == vmess[k];
      match m {
        case Some((acc, _)) =>
          if acc.user !in vmessSet {
            ss := ss + [acc];
          }
        case None =>
      }
    }
  }

  // ------------------------------------ configuration text round trip

  /** One line of `/etc/xray/config.json` as far as the account scan sees it:
      a comment line an account script wrote, or anything else. */
  datatype ConfigLine = AccountLine(account: Account) | OtherLine(text: string)

  function RenderLine(marker: string, l: ConfigLine): string
  {
    match l
    case AccountLine(a) => marker + " " + a.user + " " + a.exp
    case OtherLine(t) => t
  }

  function RenderLines(marker: string, ls: seq<ConfigLine>): (r: seq<string>)
    ensures |r| == |ls|
    decreases |ls|
  {
    if ls == [] then [] else [RenderLine(marker, ls[0])] + RenderLines(marker, ls[1..])
  }

  /** The lines joined by `\n`. */
  function ConfigText(marker: string, ls: seq<ConfigLine>): string
  {
    Join(RenderLines(marker, ls), '\n')
  }

  /** The accounts of the account lines, in order, repeats kept. */
  function ListedAccounts(ls: seq<ConfigLine>): (r: seq<Account>)
    ensures |r| <= |ls|
    decreases |ls|
  {
    if ls == [] then []
    else if ls[0].AccountLine? then [ls[0].account] + ListedAccounts(ls[1..])
    else ListedAccounts(ls[1..])
  }

  predicate NoTerminator(s: string) { forall i :: 0 <= i < |s| ==> !IsLineTerminator(s[i]) }

  predicate StartsWith(s: string, p: string) { |p| <= |s| && s[..|p|] == p }

  /** An account line with a one-word user and a date; any other line stays
      on its line and does not begin with the marker. */
  predicate WellFormedLine(marker: string, l: ConfigLine)
  {
    match l
    case AccountLine(a) => a.user != "" && NoSpace(a.user) && IsDate(a.exp)
    case OtherLine(t) => NoTerminator(t) && !StartsWith(t, marker)
  }

  /** Inside a line, the scan runs on to the start of the next one. */
  lemma {:induction false} ScanLineRest(t: string, rest: string, marker: string)
    requires NoTerminator(t)
    ensures Scan(t + "\n" + rest, marker, false) == Scan(rest, marker, true)
    decreases |t|
  {
    var s := t + "\n" + rest;
    if t == [] {
      assert s[1..] == rest;
    } else {
      assert s[1..] == t[1..] + "\n" + rest;
      ScanLineRest(t[1..], rest, marker);
    }
  }

  /** Inside the last line, the scan finds nothing more. */
  lemma {:induction false} ScanLastLine(t: string, marker: string)
    requires NoTerminator(t)
    ensures Scan(t, marker, false) == []
    decreases |t|
  {
    if t != [] {
      ScanLastLine(t[1..], marker);
    }
  }

  /** The match, told by where the three greedy runs stop. */
  lemma MarkerAtSkips(s: string, marker: string, j: nat, k: nat, m: nat)
    requires |marker| < j < k < m && DateAt(s, m) && s[..|marker|] == marker
    requires SkipWhile(s, |marker|, IsSpace) == j
    requires SkipWhile(s, j, NotSpace) == k
    requires SkipWhile(s, k, IsSpace) == m
    ensures MarkerAt(s, marker) == Some((Account(s[j..k], s[m..m + 10]), m + 10))
  {
    assert !(|s| < |marker| || s[..|marker|] != marker);
    assert !(j == |marker| || k == j || m == k || !DateAt(s, m));
  }

  /** The match, told by where its runs end. */
  lemma MarkerAtRuns(s: string, marker: string, j: nat, k: nat, m: nat)
    requires |marker| < j < k < m && DateAt(s, m) && s[..|marker|] == marker
    requires forall i :: |marker| <= i < j ==> IsSpace(s[i])
    requires forall i :: j <= i < k ==> !IsSpace(s[i])
    requires forall i :: k <= i < m ==> IsSpace(s[i])
    requires !IsSpace(s[j]) && IsSpace(s[k]) && !IsSpace(s[m])
    ensures MarkerAt(s, marker) == Some((Account(s[j..k], s[m..m + 10]), m + 10))
  {
    SkipWhileRun(s, |marker|, j, IsSpace);
    SkipWhileRun(s, j, k, NotSpace);
    SkipWhileRun(s, k, m, IsSpace);
    MarkerAtSkips(s, marker, j, k, m);
  }

  /** Where the pieces of an account line sit. */
  lemma LinePieces(marker: string, sp: string, user: string, exp: string)
    requires sp == [' '] && |exp| == 10
    ensures var line := marker + sp + user + sp + exp; var j := |marker| + 1; var k := j + |user|;
      && |line| == k + 11 && line[..|marker|] == marker && line[|marker|] == ' ' && line[k] == ' '
      && line[j..k] == user && line[k + 1..k + 11] == exp
  {
    var line := marker + sp + user + sp + exp;
    var j := |marker| + 1;
    var k := j + |user|;
    assert line == (marker + sp) + user + (sp + exp);
    assert line[j..k] == user;
    assert line[k + 1..k + 11] == exp;
  }

  /** A line made of the marker, a space, a user, a space and a date
      matches over its whole length. */
  lemma MarkerAtPieces(line: string, marker: string, user: string, exp: string)
    requires user != "" && NoSpace(user) && IsDate(exp)
    requires var j := |marker| + 1; var k := j + |user|;
      && |line| == k + 11 && line[..|marker|] == marker && line[|marker|] == ' ' && line[k] == ' '
      && line[j..k] == user && line[k + 1..k + 11] == exp
    ensures MarkerAt(line, marker) == Some((Account(user, exp), |line|))
  {
    var j := |marker| + 1;
    var k := j + |user|;
    var m := k + 1;
    assert line[m..m + 10] == exp;
    SliceNoSpace(line, j, k);
    SliceDate(line, m);
    MarkerAtRuns(line, marker, j, k, m);
  }

  /** A slice without white space. */
  lemma SliceNoSpace(s: string, j: nat, k: nat)
    requires j <= k <= |s| && NoSpace(s[j..k])
    ensures forall i :: j <= i < k ==> !IsSpace(s[i])
  {
    forall i | j <= i < k
      ensures !IsSpace(s[i])
    {
      assert s[i] == s[j..k][i - j];
    }
  }

  /** A slice that is a date. */
  lemma SliceDate(s: string, m: nat)
    requires m + 10 <= |s| && IsDate(s[m..m + 10])
    ensures DateAt(s, m)
  {
    var e := s[m..m + 10];
    assert s[m] == e[0] && s[m + 1] == e[1] && s[m + 2] == e[2] && s[m + 3] == e[3] && s[m + 4] == e[4];
    assert s[m + 5] == e[5] && s[m + 6] == e[6] && s[m + 7] == e[7] && s[m + 8] == e[8] && s[m + 9] == e[9];
  }

  /** An account line matches over its whole length. */
  lemma MarkerAtLine(marker: string, a: Account)
    requires a.user != "" && NoSpace(a.user) && IsDate(a.exp)
    ensures MarkerAt(RenderLine(marker, AccountLine(a)), marker) == Some((a, |RenderLine(marker, AccountLine(a))|))
  {
    LinePieces(marker, " ", a.user, a.exp);
    MarkerAtPieces(RenderLine(marker, AccountLine(a)), marker, a.user, a.exp);
  }

  /** A line that does not begin with the marker matches nothing, whatever
      follows it on the next line. */
  lemma OtherNoMatch(t: string, u: string, marker: string)
    requires NoTerminator(marker) && NoTerminator(t) && !StartsWith(t, marker)
    requires u == [] || IsLineTerminator(u[0])
    ensures MarkerAt(t + u, marker) == None
  {
    var s := t + u;
    if |marker| <= |t| {
      assert s[..|marker|] == t[..|marker|];
    } else if |marker| <= |s| {
      assert s[..|marker|][|t|] == u[0];
    }
  }

  /** A line end passed outside a match starts a new line. */
  lemma ScanNewline(r: string, marker: string)
    ensures Scan("\n" + r, marker, false) == Scan(r, marker, true)
  {
    var s := "\n" + r;
    assert s[1..] == r;
  }

  /** An account line followed by more lines. */
  lemma ScanAccountFirst(text: string, a: Account, r: string, marker: string)
    requires MarkerAt(text, marker) == Some((a, |text|))
    ensures Scan(text + "\n" + r, marker, true) == [(text, a)] + Scan(r, marker, true)
  {
    ScanMatchFirst(text, "\n" + r, marker, a);
    ScanNewline(r, marker);
    AppendAssoc(text, "\n", r);
  }

  /** A whole match at the start of the text is taken, whatever follows it. */
  lemma ScanMatchFirst(text: string, u: string, marker: string, a: Account)
    requires MarkerAt(text, marker) == Some((a, |text|))
    ensures Scan(text + u, marker, true) == [(text, a)] + Scan(u, marker, false)
  {
    AppendPieces(text, u);
    assert text[..|text|] == text;
    MarkerAtAgree(text, text + u, marker);
    MarkerAtDigitEnd(text, marker);
    ScanHitDigit(text, u, marker, a);
  }

  /** A match that ends in a digit leaves the scan in the middle of a line. */
  lemma ScanHitDigit(text: string, u: string, marker: string, a: Account)
    requires text != [] && IsAsciiDigit(text[|text| - 1])
    requires MarkerAt(text + u, marker) == Some((a, |text|))
    ensures Scan(text + u, marker, true) == [(text, a)] + Scan(u, marker, false)
  {
    var s := text + u;
    AppendPieces(text, u);
    ScanHit(s, marker, a, |text|);
  }

  /** At the start of a line where the pattern matches, the match is taken. */
  lemma ScanHit(s: string, marker: string, a: Account, n: nat)
    requires MarkerAt(s, marker) == Some((a, n))
    ensures Scan(s, marker, true) == [(s[..n], a)] + Scan(s[n..], marker, IsLineTerminator(s[n - 1]))
  {
  }

  /** An account line as the last line. */
  lemma ScanAccountLast(text: string, a: Account, marker: string)
    requires MarkerAt(text, marker) == Some((a, |text|))
    ensures Scan(text, marker, true) == [(text, a)]
  {
    assert text[|text|..] == [];
    assert text[..|text|] == text;
  }

  /** Any other line followed by more lines. */
  lemma ScanOtherFirst(t: string, r: string, marker: string)
    requires NoTerminator(marker) && NoTerminator(t) && !StartsWith(t, marker)
    ensures Scan(t + "\n" + r, marker, true) == Scan(r, marker, true)
  {
    var s := t + "\n" + r;
    OtherNoMatch(t, "\n" + r, marker);
    assert s == t + ("\n" + r);
    if t == [] {
      assert s[1..] == r;
    } else {
      assert s[1..] == t[1..] + "\n" + r;
      ScanLineRest(t[1..], r, marker);
    }
  }

  /** Any other line as the last line. */
  lemma ScanOtherLast(t: string, marker: string)
    requires NoTerminator(marker) && NoTerminator(t) && !StartsWith(t, marker)
    ensures Scan(t, marker, true) == []
  {
    if t != [] {
      OtherNoMatch(t, [], marker);
      assert t + [] == t;
      ScanLastLine(t[1..], marker);
    }
  }

  lemma CapturesOne(text: string, a: Account)
    ensures Captures([(text, a)]) == [a]
  {
    assert Captures([(text, a)])[0] == a;
  }

  lemma CapturesAppend(x: seq<(string, Account)>, y: seq<(string, Account)>)
    ensures Captures(x + y) == Captures(x) + Captures(y)
  {
  }

  /** ScanConfig for a configuration of one line. */
  lemma ScanConfigLast(marker: string, ls: seq<ConfigLine>)
    requires marker != [] && NoTerminator(marker)
    requires |ls| == 1 && WellFormedLine(marker, ls[0])
    ensures Accounts(ConfigText(marker, ls), marker) == ListedAccounts(ls)
  {
    var text := RenderLine(marker, ls[0]);
    assert ConfigText(marker, ls) == text;
    match ls[0] {
      case AccountLine(a) =>
        MarkerAtLine(marker, a);
        ScanAccountLast(text, a, marker);
        CapturesOne(text, a);
      case OtherLine(t) =>
        ScanOtherLast(t, marker);
    }
  }

  /** ScanConfig for a first line followed by more lines, given the rest. */
  lemma ScanConfigCons(marker: string, ls: seq<ConfigLine>)
    requires marker != [] && NoTerminator(marker)
    requires |ls| >= 2 && WellFormedLine(marker, ls[0])
    requires Accounts(ConfigText(marker, ls[1..]), marker) == ListedAccounts(ls[1..])
    ensures Accounts(ConfigText(marker, ls), marker) == ListedAccounts(ls)
  {
    var text := RenderLine(marker, ls[0]);
    var r := ConfigText(marker, ls[1..]);
    JoinCons(text, RenderLines(marker, ls[1..]), '\n');
    assert ConfigText(marker, ls) == text + "\n" + r;
    match ls[0] {
      case AccountLine(a) =>
        MarkerAtLine(marker, a);
        ScanAccountFirst(text, a, r, marker);
        CapturesAppend([(text, a)], Scan(r, marker, true));
        CapturesOne(text, a);
      case OtherLine(t) =>
        ScanOtherFirst(t, r, marker);
    }
  }

  /** The scan of a configuration text lists exactly its account lines, for
      any marker on one line (`###`, `#&` and `#!` among them). */
  lemma {:induction false} ScanConfig(marker: string, ls: seq<ConfigLine>)
    requires marker != [] && NoTerminator(marker)
    requires forall i :: 0 <= i < |ls| ==> WellFormedLine(marker, ls[i])
    ensures Accounts(ConfigText(marker, ls), marker) == ListedAccounts(ls)
    decreases |ls|
  {
    if |ls| == 1 {
      ScanConfigLast(marker, ls);
    } else if |ls| >= 2 {
      ScanConfig(marker, ls[1..]);
      ScanConfigCons(marker, ls);
    }
  }

  // ------------------------------------------------------------ SSH users

  /** One entry of the SSH list: a user and its expiry text. */
  datatype SshRow = SshRow(user: string, exp: string)

  /** `rows.filter(Boolean)`: the non-empty lines, in order. */
  function NonEmpty(ls: seq<string>): (r: seq<string>)
    ensures forall i :: 0 <= i < |r| ==> r[i] != ""
    ensures (forall i :: 0 <= i < |ls| ==> ls[i] != "") ==> r == ls
    decreases |ls|
  {
    if ls == [] then []
    else if ls[0] == "" then NonEmpty(ls[1..])
    else [ls[0]] + NonEmpty(ls[1..])
  }

  /** `const [user, exp] = r.split("|")` and `{ user, exp: (exp || "").trim() }`:
      the text before the first `|`, and the trimmed text between the first
      and the second `|`, or "" when the line has no `|`. */
  function SshRowOf(line: string): (row: SshRow)
    ensures '|' !in row.user && IsTrimmed(row.exp)
    ensures row.user == line[..IndexOf(line, '|')]
    ensures IndexOf(line, '|') == |line| ==> row.exp == ""
  {
    var f := Split(line, '|');
    SshRow(f[0], if |f| >= 2 then Trim(f[1]) else "")
  }

  /** The rows of the listing script's output, one per non-empty line. */
  function SshRows(out: string): (rows: seq<SshRow>)
    ensures forall i :: 0 <= i < |rows| ==> '|' !in rows[i].user && IsTrimmed(rows[i].exp)
  {
    var ls := NonEmpty(Split(out, '\n'));
    seq(|ls|, i requires 0 <= i < |ls| => SshRowOf(ls[i]))
  }

  /** `listSSHAccounts().catch(() => [])`: a failed listing shows no user. */
  function ListSshAccounts(r: ShResult): (rows: seq<SshRow>)
    ensures r.Rejected? ==> rows == []
    ensures r.Resolved? ==> rows == SshRows(r.output)
  {
    match r
    case Rejected(_) => []
    case Resolved(out) => SshRows(out)
  }

  /** What the script echoes for a user: `$u|$exp`. */
  function SshLine(row: SshRow): string
  {
    row.user + "|" + row.exp
  }

  function SshLines(rows: seq<SshRow>): (ls: seq<string>)
    ensures |ls| == |rows| && forall i :: 0 <= i < |rows| ==> ls[i] == SshLine(rows[i])
  {
    seq(|rows|, i requires 0 <= i < |rows| => SshLine(rows[i]))
  }

  /** A user name and an expiry text as `passwd` and `chage` give them: one
      word on one line, without `|`, escapes or carriage returns. */
  predicate WellFormedSshRow(row: SshRow)
  {
    && row.user != "" && !IsSpace(row.user[0])
    && '|' !in row.user && '|' !in row.exp && IsTrimmed(row.exp)
    && (forall c :: c in row.user + row.exp ==> c != '\n' && c != '\r' && c != ESC)
  }

  /** A text without the separator splits into itself alone. */
  lemma SplitOne(x: string, sep: char)
    requires sep !in x
    ensures Split(x, sep) == [x]
  {
  }

  /** Two texts around one separator split back into the two. */
  lemma SplitTwo(x: string, y: string, sep: char)
    requires sep !in x && sep !in y
    ensures Split(x + [sep] + y, sep) == [x, y]
  {
    var s := x + [sep] + y;
    assert s[|x|] == sep;
    assert forall i :: 0 <= i < |x| ==> s[i] == x[i];
    assert IndexOf(s, sep) == |x|;
    assert s[..|x|] == x;
    assert s[|x| + 1..] == y;
    SplitOne(y, sep);
  }

  /** A line without `|` is all user and no expiry. */
  lemma SshRowOfPlain(line: string)
    requires '|' !in line
    ensures SshRowOf(line) == SshRow(line, "")
  {
    SplitOne(line, '|');
  }

  /** A `user|exp` line reads back as that user and that expiry. */
  lemma SshRowOfLine(row: SshRow)
    requires '|' !in row.user && '|' !in row.exp && IsTrimmed(row.exp)
    ensures SshRowOf(SshLine(row)) == row
  {
    SplitTwo(row.user, row.exp, '|');
    assert SshLine(row) == row.user + ['|'] + row.exp;
    TrimTrimmed(row.exp);
  }

  /** A joined output starts with its first line and ends with its last. */
  lemma JoinEnds(ls: seq<string>, sep: char)
    requires |ls| >= 1 && ls[0] != "" && ls[|ls| - 1] != ""
    ensures var x := Join(ls, sep); x != [] && x[0] == ls[0][0] && x[|x| - 1] == ls[|ls| - 1][|ls[|ls| - 1]| - 1]
  {
    JoinSuffix(ls, |ls| - 1, sep);
    assert ls[|ls| - 1..] == [ls[|ls| - 1]];
  }

  /** A printed text that ends in `echo`'s new line is cleaned back to the text. */
  lemma CleanedEchoed(x: string, nl: string)
    requires nl == "\n" && x != [] && IsTrimmed(x) && ESC !in x && '\r' !in x
    ensures Cleaned(Some(x + nl), None) == x
  {
    var out := x + nl;
    assert ESC !in out && '\r' !in out;
    assert OrEmpty(Some(out)) + OrEmpty(None) == out;
    CleanedPlain(Some(out), None);
    TrimPadded([], x, nl);
    assert [] + x + nl == out;
  }

  /** The characters of the rows' lines. */
  lemma SshLinesPlain(rows: seq<SshRow>)
    requires forall i :: 0 <= i < |rows| ==> WellFormedSshRow(rows[i])
    ensures var ls := SshLines(rows);
      forall i :: 0 <= i < |ls| ==> ls[i] != "" && '\n' !in ls[i] && '\r' !in ls[i] && ESC !in ls[i]
  {
    var ls := SshLines(rows);
    forall i | 0 <= i < |ls|
      ensures ls[i] != "" && '\n' !in ls[i] && '\r' !in ls[i] && ESC !in ls[i]
    {
      assert WellFormedSshRow(rows[i]);
      assert ls[i] == rows[i].user + "|" + rows[i].exp;
      assert forall c :: c in ls[i] ==> c == '|' || c in rows[i].user + rows[i].exp;
    }
  }

  /** The joined lines have no white space at either end. */
  lemma SshTextTrimmed(rows: seq<SshRow>)
    requires rows != []
    requires forall i :: 0 <= i < |rows| ==> WellFormedSshRow(rows[i])
    ensures var x := Join(SshLines(rows), '\n'); x != [] && IsTrimmed(x)
  {
    var ls := SshLines(rows);
    var x := Join(ls, '\n');
    SshLinesPlain(rows);
    var last := rows[|rows| - 1];
    assert WellFormedSshRow(rows[0]) && WellFormedSshRow(last);
    JoinEnds(ls, '\n');
    assert x[0] == rows[0].user[0] by {
      assert ls[0] == rows[0].user + "|" + rows[0].exp;
    }
    assert !IsSpace(x[|x| - 1]) by {
      var l := ls[|ls| - 1];
      assert l == last.user + "|" + last.exp;
      if last.exp == "" {
        assert l[|l| - 1] == '|';
      } else {
        assert l[|l| - 1] == last.exp[|last.exp| - 1];
      }
    }
  }

  /** The joined lines read back as the rows. */
  lemma SshRowsOfLines(rows: seq<SshRow>)
    requires rows != []
    requires forall i :: 0 <= i < |rows| ==> WellFormedSshRow(rows[i])
    ensures SshRows(Join(SshLines(rows), '\n')) == rows
  {
    var ls := SshLines(rows);
    SshLinesPlain(rows);
    SplitJoin(ls, '\n');
    assert NonEmpty(Split(Join(ls, '\n'), '\n')) == ls;
    forall i | 0 <= i < |rows|
      ensures SshRowOf(ls[i]) == rows[i]
    {
      SshRowOfLine(rows[i]);
    }
  }

  /** The script's output for a list of users, `user|exp` lines each ended by
      `echo`'s new line, is listed back as exactly those users in order. */
  lemma SshListing(rows: seq<SshRow>)
    requires rows != []
    requires forall i :: 0 <= i < |rows| ==> WellFormedSshRow(rows[i])
    ensures ListSshAccounts(ShOutcome(None, Some(Join(SshLines(rows), '\n') + "\n"), None)) == rows
  {
    var x := Join(SshLines(rows), '\n');
    SshLinesPlain(rows);
    JoinChars(SshLines(rows), '\n', '\r');
    JoinChars(SshLines(rows), '\n', ESC);
    SshTextTrimmed(rows);
    CleanedEchoed(x, "\n");
    SilentSuccess(Some(x + "\n"), None);
    SshRowsOfLines(rows);
  }

  lemma NoOutputPlain()
    ensures '|' !in NoOutput && '\n' !in NoOutput
  {
  }

  /** One line without `|` lists one user of that name. */
  lemma SshRowsOne(n: string)
    requires '|' !in n && '\n' !in n && n != ""
    ensures SshRows(n) == [SshRow(n, "")]
  {
    SplitOne(n, '\n');
    SshRowOfPlain(n);
  }

  /** With no SSH users the script prints nothing, `sh` resolves with
      `(no output)`, and the list shows one user of that name. */
  lemma NoSshUsers(stdout: Option<string>, stderr: Option<string>)
    requires Cleaned(stdout, stderr) == ""
    ensures ListSshAccounts(ShOutcome(None, stdout, stderr)) == [SshRow(NoOutput, "")]
  {
    SilentSuccess(stdout, stderr);
    NoOutputPlain();
    SshRowsOne(NoOutput);
  }
}
