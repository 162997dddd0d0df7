# cartenz-panel, modelled in Dafny

cartenz-panel is a small web panel for a VPN server. Its Node back ends
(`server.cjs` and `server.js`) run the server's account scripts
(`usernew`, `add-ws`, `add-vless`, `add-tr`, `add-ssws`, the trial scripts)
through bash, feed them their answers on standard input, clean the console
output they print and return it. They also list the accounts: SSH users from
the system, xray users from comment lines of `/etc/xray/config.json`.
`parsers.js` turns the console output of a trial script into an account card.
It cleans the text, keeps the block from the first `Remarks` line on, reads
`Label : value` lines into a map and renders one of four HTML cards with
every value escaped.

This project models the parts of that code that compute on text and values,
and proves what they promise:

- `Text`: JavaScript's white space (ECMAScript WhiteSpace and
  LineTerminator), `trim`, `split`/`join` and `replaceAll`.
- `Decimal`: `parseInt(s, 10)` and `String(n)`.
- `Ansi`: the two ANSI-stripping regular expressions.
- `Shell`: the reading of single-quoted words by the shell (`/bin/bash` for
  `server.cjs`, `/bin/sh` for the line `execBash` builds; both read single
  quotes alike), used to state what a built command line means.
- `Parsers`: `clean`, `kvParse`, `extractAccountBlock` and `esc`.
- `Cards`: the four renderers and `parseTrial`.
- `ServerCjs`: `sh` output shaping, the add handlers, `parseXrayAccounts`
  and `listSSHAccounts`.
- `ServerJs`: `stripAnsi`, `clampOutput`, `execBash` shaping, `joinInputs`,
  `sanitizeUser`, `sanitizeDays` and the add endpoint.

Regular expressions are modelled by what they match. The ANSI-stripping
expressions and the `###` scan of `parseXrayAccounts` have disjoint
character classes around their quantifiers, so their match is determined
without backtracking, and the functions say which text they take.
`kvParse`'s line expression is different: its lazy label, the spaces around
it and the greedy value overlap, so `Parsers.KvLine` derives the match it
settles on (the label ends at the last non-space before the first `:`, and a
label of spaces only gives the empty key) and `Parsers.KvLineLabelled`
states it for a well-formed line.
JavaScript `null`/`undefined` (and any falsy value) is `None` of an
`Option<string>`.

## Where the model follows the code rather than its intent

- `clean` is not idempotent. `Parsers.CleanNotIdempotent` shows it on
  `"|| a ||"`: one pass gives `"| a |"`, a second gives `"a"`.
  `Parsers.CleanEscExposed` shows a second cause without any `|`: stripping
  `ESC [ ESC [ 1 m A` leaves `ESC [ A`, which the next pass strips to `""`.
  `Parsers.CleanIdempotentWhen` proves idempotence for outputs that hold no
  ESC and whose lines neither start nor end with `|`.
- The `ss` list of `parseXrayAccounts` is meant to add the `###` accounts
  that are not VMess accounts. It scans the same `###` lines the VMess list
  came from, so every user it finds is already in the VMess set, and the list
  is always empty. `ServerCjs.ParseXrayAccounts` proves `ss == []`.
- `handleAddSSH` escapes the password for bash. `handleAddGeneric` does not
  escape the remarks. `ServerCjs.SshCommandWords` proves that bash reads back
  exactly the password given. `ServerCjs.FeedBrokenByQuote` proves that
  remarks holding one `'` between a quote-free part and a plain part leave
  bash with an unclosed quote, and `ServerCjs.FeedInjection` proves that
  remarks `x' 'y` are not refused but read as two words, so the days become
  a third value fed to the script.
- `handleAddGeneric` trims only the ends of the remarks. A newline inside
  them survives (`ServerCjs.GenericNewlineRuns`), and `printf` writes it, so
  the script reads the part after the newline as its second answer, the
  days (`ServerCjs.FeedNewline`). Only remarks without `'` and without a
  newline give the script exactly the remarks and the days
  (`ServerCjs.FeedAnswers`).

## Model

| member | source | states |
|---|---|---|
| Ansi.StripLetterCsi | opt/cartenz-panel/parsers.js:6-8 | `/\x1B\[[0-9;]*[A-Za-z]/g` removal never lengthens a text, and leaves a text without ESC unchanged |
| Ansi.LetterCsiRemovedAfterText | opt/cartenz-panel/server.js:59 | a sequence ESC `[` params letter, after plain text, is removed and the text before it is kept |
| Ansi.StripLetterCsiAppend | opt/cartenz-panel/server.js:59 | stripping distributes over concatenation when the second part cannot complete a sequence begun in the first |
| Ansi.RemoveCarriageReturns | opt/cartenz-panel/server.js:59 | no `\r` is left, and a text without `\r` is unchanged |
| Ansi.StripControls | opt/cartenz-panel/server.cjs:87-88 | `ANSI_REGEX` removal leaves no `\r` and never lengthens a text |
| Ansi.StripControlsPlain | opt/cartenz-panel/server.cjs:87-88 | on a text without ESC, `ANSI_REGEX` only removes the carriage returns |
| Ansi.CsiRemovedAfterText | opt/cartenz-panel/server.cjs:87 | a CSI sequence (params `[0-9;?]`, intermediates `[ -/]`, final `[@-~]`) after plain text is removed, and only the text's carriage returns go |
| Ansi.EscPairRemovedAfterText | opt/cartenz-panel/server.cjs:87 | a two-character escape ESC `[@-Z\\-_]` after plain text is removed |
| Decimal.ParseIntOfDecimal | opt/cartenz-panel/server.cjs:159 | `parseInt(String(n), 10)` is `n` for every natural `n` |
| Decimal.ParseIntOfDigits | opt/cartenz-panel/server.js:91 | `parseInt` of a non-empty digit string is its decimal value |
| Shell.ReadSingleQuote | opt/cartenz-panel/server.cjs:166-167 | quoting with every `'` written `'\''` reads back in bash as exactly the original text, whatever it holds (a NUL never reaches bash, see Shell.Lex under Left out) |
| Shell.LexQuotedPipeline | opt/cartenz-panel/server.cjs:167 | a name, its single-quoted arguments, a pipe sign and a script read as the name, each argument exactly, a pipe and the script |
| Parsers.Clean | opt/cartenz-panel/parsers.js:5-14 | null gives ""; no `\r` survives; every line of a non-empty result is non-empty, trimmed, on one line and not a rule of ten or more `-=━─` |
| Parsers.CleanOneLine | opt/cartenz-panel/parsers.js:11-12 | one line without ESC comes out as its border-stripped trim when that is kept, else as "" |
| Parsers.CleanBordered | opt/cartenz-panel/parsers.js:11 | a value between two vertical bars, padded with white space, comes out as the trimmed value |
| Parsers.TwelveEqualsDropped | opt/cartenz-panel/parsers.js:12 | a rule of twelve `=` is dropped |
| Parsers.NineEqualsKept | opt/cartenz-panel/parsers.js:12 | nine `=` are too few for a rule and are kept |
| Parsers.CleanFixesCleanDocument | opt/cartenz-panel/parsers.js:5-14 | a text whose lines are clean and border-free is its own `clean` |
| Parsers.CleanIdempotentWhen | opt/cartenz-panel/parsers.js:5-14 | `clean(clean(x)) == clean(x)` when `clean(x)` holds no ESC and none of its lines starts or ends with a vertical bar |
| Parsers.CleanEscExposed | opt/cartenz-panel/parsers.js:6-14 | `clean` of `ESC [ ESC [ 1 m A` is `ESC [ A`, and `clean` of that is `""`, so a second pass changes it |
| Parsers.CleanNotIdempotent | opt/cartenz-panel/parsers.js:11 | a line of two bars, `a` and two bars comes out with one bar on each side, and cleaning that again gives `a`: `clean` is not idempotent |
| Parsers.KvLine | opt/cartenz-panel/parsers.js:24-27 | a matching line has a `:`; its key is a lower-cased label of `[A-Za-z0-9 /()#-]`; its value is the trimmed text after the first `:` |
| Parsers.KvLineLabelled | opt/cartenz-panel/parsers.js:24-27 | a padded label, a colon and a padded value give the lower-cased label and the value exactly |
| Parsers.LinkTlsExample | opt/cartenz-panel/parsers.js:17-18 | `Link TLS: vmess://abc:443?x=1` gives key `link tls` and the whole URL, colons included |
| Parsers.KvParse | opt/cartenz-panel/parsers.js:20-32 | the loop builds the map of assigning each matching line's key and value in order |
| Parsers.KvKeys | opt/cartenz-panel/parsers.js:23-29 | a key is in the object exactly when some line yields it |
| Parsers.KvLastWins | opt/cartenz-panel/parsers.js:28 | a repeated key keeps the value of its last line |
| Parsers.AssignValues | opt/cartenz-panel/parsers.js:28 | every value in the object is the value some line gave for that key |
| Parsers.KvNormalised | opt/cartenz-panel/parsers.js:26-27 | every key is a lower-case label and every value is trimmed |
| Parsers.FirstRemarks | opt/cartenz-panel/parsers.js:40 | `findIndex` of `/^remarks\b/i`: no earlier line matches, and the line found does |
| Parsers.AccountBlockCases | opt/cartenz-panel/parsers.js:39-42 | the block of the cleaned text is a suffix of it: all of it when no line starts with the word "remarks", else exactly the lines from the first such line |
| Parsers.ExtractFromRemarks | opt/cartenz-panel/parsers.js:38-43 | for a clean text, the block is the lines from the first "remarks" line joined by `\n` |
| Parsers.ExtractWithoutRemarks | opt/cartenz-panel/parsers.js:41 | a clean text without a "remarks" line is returned whole |
| Parsers.JunkThenRemarks | opt/cartenz-panel/parsers.js:38-43 | `"junk\nRemarks: x\nid: 1"` gives `"Remarks: x\nid: 1"` |
| Parsers.EscAny | opt/cartenz-panel/parsers.js:50 | `null`/`undefined` escape to "" |
| Parsers.EscIsEscEach | opt/cartenz-panel/parsers.js:49-54 | the three `replaceAll` passes equal escaping each character on its own |
| Parsers.EscProperties | opt/cartenz-panel/parsers.js:49-54 | the result has no `<` or `>` and every `&` begins an entity; unescaping gives the input back; a text without `&<>` is unchanged |
| Parsers.EscAppend | opt/cartenz-panel/parsers.js:49-54 | escaping distributes over concatenation |
| Parsers.EscScriptExample | opt/cartenz-panel/parsers.js:49-54 | `<script>&</script>` becomes `&lt;script&gt;&amp;&lt;/script&gt;` |
| Cards.Pick | opt/cartenz-panel/parsers.js:62-75 | the chain of logical ors over the aliases: the value of the first alias with a non-empty value, else the default |
| Cards.LinkValue | opt/cartenz-panel/parsers.js:78-80 | a link line has a value exactly when one of its keys is filled, and it is the first filled one |
| Cards.Resolve | opt/cartenz-panel/parsers.js:56-163 | the card keeps the title and as many detail and connection rows as the renderer's template |
| Cards.RenderCard | opt/cartenz-panel/parsers.js:56-163 | a renderer gives the trimmed template over the resolved rows, from a parsed map or from a block it parses itself |
| Cards.VMessDefaults | opt/cartenz-panel/parsers.js:64-65 | without `alterid` and `security` the VMess card shows `0` and `auto` |
| Cards.HostOrder | opt/cartenz-panel/parsers.js:56-136 | with both `domain` and `host/ip` set, VMess shows the domain and Trojan shows the host/ip |
| Cards.VLessGrpcName | opt/cartenz-panel/parsers.js:100 | the VLess gRPC name is `grpc name`, then `servicename`, then `service name`, else `vless-grpc` |
| Cards.LinkLines | opt/cartenz-panel/parsers.js:77-80 | each of the three link lines is printed exactly when its key is filled |
| Cards.RenderMarkup | opt/cartenz-panel/parsers.js:56-163 | the angle brackets of a card do not depend on the values shown, only on which links are present |
| Cards.CardAmpsOk | opt/cartenz-panel/parsers.js:56-163 | every `&` of a rendered card begins an entity, whatever the values |
| Cards.TrialHtmlKinds | opt/cartenz-panel/parsers.js:170-176 | `vmess`, `vless`, `trojan` and `ssws` select their card; any other type gives the escaped block in `<pre>` |
| Cards.PreAmpsOk | opt/cartenz-panel/parsers.js:175 | the `<pre>` fallback holds the block escaped, with every `&` beginning an entity |
| Cards.ParseTrial | opt/cartenz-panel/parsers.js:166-178 | the block is `extractAccountBlock(raw)`, `kv` is `kvParse(block)`, the html is the selected card or the escaped block; every `&` of it begins an entity |
| ServerCjs.ShOutcome | opt/cartenz-panel/server.cjs:107-112 | the promise resolves exactly when there is no error; a resolved output is non-empty, trimmed and free of `\r` |
| ServerCjs.SilentSuccess | opt/cartenz-panel/server.cjs:111 | a silent success resolves to `(no output)`, otherwise to the cleaned output |
| ServerCjs.FailureMessage | opt/cartenz-panel/server.cjs:110 | a failure rejects with the cleaned output, or with the error's message when nothing was printed |
| ServerCjs.CleanedPlain | opt/cartenz-panel/server.cjs:108-109 | output without ESC is cleaned by dropping `\r` and trimming |
| ServerCjs.RequestedDays | opt/cartenz-panel/server.cjs:159 | the days read with `parseInt` and the fallback 30 are never 0, and are 30 when days are missing |
| ServerCjs.RequestedDaysOfDecimal | opt/cartenz-panel/server.cjs:159 | a positive decimal count is read as itself |
| ServerCjs.ValidSshUsernamePlain | opt/cartenz-panel/server.cjs:162 | a user name the pattern accepts needs no quoting in bash and holds no `'` |
| ServerCjs.SshPassword | opt/cartenz-panel/server.cjs:158-160 | the password given, or the generated one when none is given |
| ServerCjs.SshCommandWords | opt/cartenz-panel/server.cjs:166-167 | bash reads the SSH command as `printf`, the format, the user, the password exactly as given, the days, a pipe and `usernew` |
| ServerCjs.HandleAddSsh | opt/cartenz-panel/server.cjs:155-173 | runs exactly when the user name matches and the days are in 1..3650; the refusal for each failed check; a 180 s timeout; the command's seven words; a generated password is reported exactly when none was given |
| ServerCjs.AddScript | opt/cartenz-panel/server.cjs:134-139 | `ADD_MAP` knows exactly `vmess`, `vless`, `trojan` and `ss`, each with a script path bash reads as one word |
| ServerCjs.HandleAddGeneric | opt/cartenz-panel/server.cjs:176-197 | `ssh` is handed to the SSH handler; then kind, remarks and days are checked in that order with their messages; a run feeds the trimmed remarks and the days with the 120 s default timeout |
| ServerCjs.FeedWords | opt/cartenz-panel/server.cjs:135-138 | remarks without `'` reach `printf` as one argument, the days as the next |
| ServerCjs.FeedAnswers | opt/cartenz-panel/server.cjs:135-138 | `printf` prints remarks without a newline and the days as two lines, so the script reads exactly the remarks and then the days |
| ServerCjs.FeedNewline | opt/cartenz-panel/server.cjs:135-138 | remarks `a`, newline, `b` still reach `printf` as one argument, but the script reads `a` as the remarks, `b` as the days and the days as a third line |
| ServerCjs.GenericNewlineRuns | opt/cartenz-panel/server.cjs:185-191 | trimming keeps a newline inside the remarks, and such remarks are not refused: a supported kind with accepted days is run |
| ServerCjs.GenericCommandWords | opt/cartenz-panel/server.cjs:186-191 | an accepted generic add without `'` in the remarks runs `printf` with the remarks and days, piped into the kind's script |
| ServerCjs.FeedBrokenByQuote | opt/cartenz-panel/server.cjs:135-138 | remarks holding one `'` between a quote-free part and a plain part leave bash with an unclosed quote |
| ServerCjs.FeedInjection | opt/cartenz-panel/server.cjs:135-138 | remarks `x' 'y` are read by bash as the two words `x` and `y`, so `printf` feeds `x`, `y` and the days to the script |
| ServerCjs.MarkerAt | opt/cartenz-panel/server.cjs:220 | a match of `^MARKER\s+(\S+)\s+(\d{4}-\d{2}-\d{2})` starts with the marker and captures a non-empty user without white space and a date |
| ServerCjs.Scan | opt/cartenz-panel/server.cjs:219 | every match the `g`/`m` scan returns matches again, without the flags, to its whole text with the same captures |
| ServerCjs.CollectMarker | opt/cartenz-panel/server.cjs:219-222 | the loop over the matches collects exactly the captured accounts, in order |
| ServerCjs.ParseXrayAccounts | opt/cartenz-panel/server.cjs:213-245 | an unreadable configuration gives empty lists; each list is the accounts of its marker (`###`, `#&`, `#!`); the `ss` list is always empty |
| ServerCjs.ScanConfig | opt/cartenz-panel/server.cjs:218-234 | a configuration of account lines `MARKER user date` and other lines lists exactly its account lines' accounts, in order |
| ServerCjs.SshRowOf | opt/cartenz-panel/server.cjs:258-259 | the user is the text before the first vertical bar, the expiry is trimmed, and a line without a bar has an empty expiry |
| ServerCjs.ListSshAccounts | opt/cartenz-panel/server.cjs:256-265 | a failed listing shows no users; otherwise one row per non-empty output line |
| ServerCjs.SshRowOfLine | opt/cartenz-panel/server.cjs:258-259 | a row printed as the user, a vertical bar and the expiry is read back as the same row |
| ServerCjs.SshListing | opt/cartenz-panel/server.cjs:247-261 | the listing script printing well-formed user-bar-expiry lines gives back exactly those rows |
| ServerCjs.NoSshUsers | opt/cartenz-panel/server.cjs:247-261 | an empty listing shows one row with user `(no output)` |
| ServerJs.StripAnsi | opt/cartenz-panel/server.js:58-60 | null gives ""; no `\r` survives; text without ESC only loses its carriage returns |
| ServerJs.Utf8SizeAppend | opt/cartenz-panel/server.js:62 | the UTF-8 size of a concatenation is the sum of the sizes |
| ServerJs.DecodeCut | opt/cartenz-panel/server.js:64 | decoding a byte prefix keeps the whole characters that fit, plus one U+FFFD when the cut splits a character |
| ServerJs.ClampOutput | opt/cartenz-panel/server.js:61-65 | output of at most 200 KiB is unchanged; longer output is cut to 199 KiB plus the cut note, and is then at most 200 KiB |
| ServerJs.ClampOutputAscii | opt/cartenz-panel/server.js:64 | ASCII output over the limit keeps exactly its first 199 KiB |
| ServerJs.ExecOutput | opt/cartenz-panel/server.js:72-74 | what `execBash` resolves to is never larger than 200 KiB |
| ServerJs.ExecOutputTimeout | opt/cartenz-panel/server.js:73-74 | a killed process's output ends with the timeout note when everything fits; otherwise the output is the clamped, stripped output |
| ServerJs.BashLineWords | opt/cartenz-panel/server.js:68-70 | `/bin/sh` (no `shell` option is given to `exec`) reads `bash -lc '…'` as `bash`, `-lc` and the command exactly, whatever it holds |
| ServerJs.JoinInputsSplit | opt/cartenz-panel/server.js:79-82 | splitting the joined inputs on `\n` gives the inputs then `extraBlank` empty lines |
| ServerJs.JoinInputsNone | opt/cartenz-panel/server.js:159 | `joinInputs([], 6)` is five newlines |
| ServerJs.SanitizeUser | opt/cartenz-panel/server.js:87-89 | at most 32 characters, all of `[A-Za-z0-9_.-]`: the first 32 of those the input holds |
| ServerJs.SanitizeUserIdempotent | opt/cartenz-panel/server.js:87-89 | sanitizing twice gives the same as sanitizing once |
| ServerJs.SanitizedFixed | opt/cartenz-panel/server.js:87-89 | a name of at most 32 accepted characters is kept as it is |
| ServerJs.SanitizeDays | opt/cartenz-panel/server.js:90-94 | the days are always between 1 and 365 |
| ServerJs.SanitizeDaysDigits | opt/cartenz-panel/server.js:91-93 | the value is the number the text's digits spell: 1 if 0 or beyond a double, capped at 365 |
| ServerJs.SanitizeDaysNoDigits | opt/cartenz-panel/server.js:91-92 | no digits, or no value, gives 1 |
| ServerJs.SanitizeDaysSplitDigits | opt/cartenz-panel/server.js:91 | `"1a2"` gives 12: digits are joined across other characters |
| ServerJs.SanitizeDaysNegative | opt/cartenz-panel/server.js:91 | `"-5"` gives 5: the sign is dropped |
| ServerJs.AddScript | opt/cartenz-panel/server.js:142-147 | `ADD` knows exactly `vmess`, `vless`, `trojan` and `ssws` |
| ServerJs.PipedShape | opt/cartenz-panel/server.js:178-179 | the fed text is the user, the days and six empty lines, and holds nothing but `[A-Za-z0-9_.-]` and newlines |
| ServerJs.HandleAdd | opt/cartenz-panel/server.js:168-185 | an unknown type is refused with 400, an empty sanitized user with `ok: false`; a run feeds the user and the days on their own lines with the type's timeout |

## Left out

- Running processes (`exec`, `sh`, `execBash`), their timeouts, `maxBuffer` and
  environment: the process result (error, stdout, stderr, killed) is a parameter.
- Reading `/etc/xray/config.json`: its text is an `Option<string>` parameter, `None` when unreadable.
- The SSH listing pipeline over `/etc/passwd` and `chage`: its output is a parameter.
- `randPass`: the generated password is a parameter.
- Express routing, sessions, login, `bcrypt`, `users.json`, the trial
  endpoints and the delete endpoint: none of them computes on the text modelled here.
- ServerCjs.AddScript: a kind that names an `Object.prototype` member (`constructor`, `__proto__`) is treated as unknown, while JavaScript would find the inherited member.
- ServerJs.AddScript: a type that names an `Object.prototype` member is treated as unknown, for the same reason.
- Parsers.KvParse: assigning the key `__proto__` to a plain object does not create an own property; the map treats it like any other key.
- Parsers.KvLine: `toLowerCase` is modelled on ASCII letters only. This loses nothing: a key is made of the ASCII label class `[A-Za-z0-9 /()#-]` alone, and on ASCII the two agree.
- ServerJs.ClampOutput: texts are sequences of Unicode code points, so a lone UTF-16 surrogate cannot occur; JavaScript would encode it as U+FFFD.
- ServerJs.SanitizeDays: `parseInt` is read exactly, without rounding to a double. Only the overflow to `Infinity` is modelled. The result is the same, because every value above 365 is capped.
- ServerCjs.RequestedDays: `req.body.days` is modelled by the text `parseInt` converts it to (`String` of a JSON number), not by the JSON value itself.
- Shell.Lex: a deliberately small reader of bash words, quotes, backslashes and pipes. It reads the command lines built here and rejects anything else; it is not a full shell grammar. It reads `||` as two pipes and accepts a line that starts or ends with `|`, which bash does not; the command lines built here never contain either. Its words may hold any character, while Node refuses to run a command line that holds a NUL, so a password with a NUL never reaches bash.
- ServerCjs.HandleAddSsh: the body fields are texts or absent. A truthy non-text `username` or `remarks` (a JSON number, say) makes `.trim()` throw, and the handler answers 500 with the exception's message; that path is not modelled.
- ServerCjs.HandleAddGeneric: a truthy non-text `remarks` makes `.trim()` throw and the handler answer 500; that path is not modelled, for the same reason.
- ServerCjs.HandleAddGeneric: `String(kind).toLowerCase()` is modelled by lowering ASCII letters only. The outcome is the same: the only non-ASCII character that lowercases to ASCII is U+212A KELVIN SIGN (to `k`), and neither `ssh` nor any `ADD_MAP` key holds a `k`.
- ServerJs.HandleAdd: `String(type).toLowerCase()` is modelled by lowering ASCII letters only; no `ADD` key holds a `k`, so the outcome is the same.
- No claim that `handleAddGeneric` is safe against shell injection through the remarks: `ServerCjs.FeedBrokenByQuote` and `ServerCjs.FeedInjection` show it is not, and `ServerCjs.FeedNewline` shows a newline shifting the answers.
