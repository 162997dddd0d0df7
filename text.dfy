/** String primitives with the meaning JavaScript gives them: white space as
    `\s` and `trim` see it, `split`/`join` on a one-character separator,
    `replaceAll` of one character, character filtering and ASCII case. */
module Text {
  import opened Wrappers

  /** JavaScript white space: the WhiteSpace and LineTerminator code points of
      ECMA-262 (Zs as of Unicode 15). This is the set `\s`, `trim` and
      `parseInt` use. */
  predicate IsSpace(c: char)
  {
    || c == '\t' || c == '\n' || c == '\U{0B}' || c == '\U{0C}' || c == '\r' || c == ' '
    || c == '\U{A0}' || c == '\U{1680}' || ('\U{2000}' <= c <= '\U{200A}')
    || c == '\U{2028}' || c == '\U{2029}' || c == '\U{202F}' || c == '\U{205F}'
    || c == '\U{3000}' || c == '\U{FEFF}'
  }

  /** The LineTerminator code points: what `.` does not match and what `^`
      follows in multiline mode. */
  predicate IsLineTerminator(c: char)
  {
    c == '\n' || c == '\r' || c == '\U{2028}' || c == '\U{2029}'
  }

  predicate IsAsciiDigit(c: char) { '0' <= c <= '9' }

  predicate IsAsciiLetter(c: char) { 'A' <= c <= 'Z' || 'a' <= c <= 'z' }

  /** `s` has no white space at either end, as after `trim()`. */
  predicate IsTrimmed(s: string)
  {
    s == [] || (!IsSpace(s[0]) && !IsSpace(s[|s| - 1]))
  }

  /** `s || ""` for a string-or-nullish value. */
  function OrEmpty(s: Option<string>): string
  {
    if s.Some? then s.value else ""
  }

  /** The first index at or after `i` where `p` fails, or `|s|`. */
  function SkipWhile(s: string, i: nat, p: char -> bool): (j: nat)
    requires i <= |s|
    ensures i <= j <= |s|
    ensures forall k :: i <= k < j ==> p(s[k])
    ensures j < |s| ==> !p(s[j])
    decreases |s| - i
  {
    if i < |s| && p(s[i]) then SkipWhile(s, i + 1, p) else i
  }

  /** SkipWhile stops exactly at the end of a run it is told of. */
  lemma {:induction false} SkipWhileRun(s: string, i: nat, k: nat, p: char -> bool)
    requires i <= k <= |s|
    requires forall m :: i <= m < k ==> p(s[m])
    requires k == |s| || !p(s[k])
    ensures SkipWhile(s, i, p) == k
    decreases k - i
  {
    if i < k {
      SkipWhileRun(s, i + 1, k, p);
    }
  }

  /** The index of the first `c` in `s`, or `|s|` when there is none. */
  function IndexOf(s: string, c: char): (i: nat)
    ensures i <= |s|
    ensures forall k :: 0 <= k < i ==> s[k] != c
    ensures i < |s| ==> s[i] == c
    ensures i == |s| <==> c !in s
  {
    SkipWhile(s, 0, x => x != c)
  }

  /** Removes leading white space (`trimStart`). */
  function TrimStart(s: string): (r: string)
    ensures |r| <= |s| && r == s[|s| - |r|..]
    ensures forall k :: 0 <= k < |s| - |r| ==> IsSpace(s[k])
    ensures r == [] || !IsSpace(r[0])
  {
    s[SkipWhile(s, 0, IsSpace)..]
  }

  /** Removes trailing white space (`trimEnd`). */
  function TrimEnd(s: string): (r: string)
    ensures |r| <= |s| && r == s[..|r|]
    ensures forall k :: |r| <= k < |s| ==> IsSpace(s[k])
    ensures r == [] || !IsSpace(r[|r| - 1])
    decreases |s|
  {
    if s != [] && IsSpace(s[|s| - 1]) then TrimEnd(s[..|s| - 1]) else s
  }

  /** `trim()`: the text between the first and the last non-space character. */
  function Trim(s: string): (r: string)
    ensures IsTrimmed(r)
    ensures var a := |s| - |TrimStart(s)|;
      a + |r| <= |s| && r == s[a..a + |r|]
      && (forall k :: 0 <= k < a ==> IsSpace(s[k]))
      && (forall k :: a + |r| <= k < |s| ==> IsSpace(s[k]))
    ensures forall c :: c in r ==> c in s
  {
    var t := TrimStart(s);
    var r := TrimEnd(t);
    assert r == s[|s| - |t|..|s| - |t| + |r|];
    r
  }

  /** Trimming a trimmed string changes nothing. */
  lemma TrimTrimmed(s: string)
    requires IsTrimmed(s)
    ensures TrimStart(s) == s && TrimEnd(s) == s && Trim(s) == s
  {
    if s != [] {
      assert !IsSpace(s[0]);
    }
  }

  /** Leading white space is dropped up to the first non-space character. */
  lemma TrimStartAfterSpaces(w: string, x: string)
    requires forall k :: 0 <= k < |w| ==> IsSpace(w[k])
    requires x == [] || !IsSpace(x[0])
    ensures TrimStart(w + x) == x
  {
    SkipWhileRun(w + x, 0, |w|, IsSpace);
    assert (w + x)[|w|..] == x;
  }

  /** Trailing white space is dropped back to the last non-space character. */
  lemma {:induction false} TrimEndBeforeSpaces(x: string, w: string)
    requires forall k :: 0 <= k < |w| ==> IsSpace(w[k])
    requires x == [] || !IsSpace(x[|x| - 1])
    ensures TrimEnd(x + w) == x
    decreases |w|
  {
    if w == [] {
      assert x + w == x;
      if x != [] {
        assert !IsSpace(x[|x| - 1]);
      }
    } else {
      var s := x + w;
      assert s[..|s| - 1] == x + w[..|w| - 1];
      TrimEndBeforeSpaces(x, w[..|w| - 1]);
    }
  }

  /** Trimming a padded trimmed string leaves exactly that string. */
  lemma TrimPadded(w1: string, x: string, w2: string)
    requires forall k :: 0 <= k < |w1| ==> IsSpace(w1[k])
    requires forall k :: 0 <= k < |w2| ==> IsSpace(w2[k])
    requires x != [] && IsTrimmed(x)
    ensures Trim(w1 + x + w2) == x
  {
    assert w1 + x + w2 == w1 + (x + w2);
    TrimStartAfterSpaces(w1, x + w2);
    TrimEndBeforeSpaces(x, w2);
  }

  /** JavaScript `s.split(sep)` for a one-character separator: the pieces
      between separators, always at least one. */
  function Split(s: string, sep: char): (r: seq<string>)
    ensures |r| >= 1
    ensures forall i :: 0 <= i < |r| ==> sep !in r[i]
    ensures Join(r, sep) == s
    decreases |s|
  {
    var i := IndexOf(s, sep);
    if i == |s| then [s]
    else
      var rest := Split(s[i + 1..], sep);
      assert s == s[..i] + [sep] + s[i + 1..];
      [s[..i]] + rest
  }

  /** A character absent from the text is absent from every piece of its split. */
  lemma {:induction false} SplitChars(s: string, sep: char, c: char)
    requires c !in s
    ensures forall i :: 0 <= i < |Split(s, sep)| ==> c !in Split(s, sep)[i]
    decreases |s|
  {
    var i := IndexOf(s, sep);
    if i < |s| {
      SplitChars(s[i + 1..], sep, c);
      assert c !in s[..i];
    }
  }

  /** JavaScript `parts.join(sep)`. */
  function Join(parts: seq<string>, sep: char): string
    decreases |parts|
  {
    if |parts| == 0 then ""
    else if |parts| == 1 then parts[0]
    else parts[0] + [sep] + Join(parts[1..], sep)
  }

  /** Splitting a joined list gives the list back when no part holds the separator. */
  lemma {:induction false} SplitJoin(parts: seq<string>, sep: char)
    requires |parts| >= 1
    requires forall i :: 0 <= i < |parts| ==> sep !in parts[i]
    ensures Split(Join(parts, sep), sep) == parts
    decreases |parts|
  {
    if |parts| > 1 {
      assert Join(parts, sep) == parts[0] + [sep] + Join(parts[1..], sep);
      SplitFront(parts[0], sep, Join(parts[1..], sep));
      SplitJoin(parts[1..], sep);
      assert parts == [parts[0]] + parts[1..];
    }
  }

  /** Splitting at a first separator. */
  lemma SplitFront(a: string, sep: char, t: string)
    requires sep !in a
    ensures Split(a + [sep] + t, sep) == [a] + Split(t, sep)
  {
    var s := a + [sep] + t;
    assert s[|a|] == sep;
    assert forall k :: 0 <= k < |a| ==> s[k] == a[k];
    assert IndexOf(s, sep) == |a|;
    assert s[..|a|] == a;
    assert s[|a| + 1..] == t;
  }

  /** Joining takes a part, then the separator, then the join of the rest. */
  lemma JoinCons(x: string, rest: seq<string>, sep: char)
    requires |rest| >= 1
    ensures Join([x] + rest, sep) == x + [sep] + Join(rest, sep)
  {
    assert ([x] + rest)[1..] == rest;
  }

  /** Joining a concatenation of two non-empty lists puts one separator between the joins. */
  lemma {:induction false} JoinAppend(xs: seq<string>, ys: seq<string>, sep: char)
    requires |xs| >= 1 && |ys| >= 1
    ensures Join(xs + ys, sep) == Join(xs, sep) + [sep] + Join(ys, sep)
    decreases |xs|
  {
    if |xs| == 1 {
      JoinCons(xs[0], ys, sep);
      assert xs + ys == [xs[0]] + ys;
    } else {
      assert xs + ys == [xs[0]] + (xs[1..] + ys);
      JoinCons(xs[0], xs[1..] + ys, sep);
      JoinAppend(xs[1..], ys, sep);
      JoinCons(xs[0], xs[1..], sep);
      assert xs == [xs[0]] + xs[1..];
    }
  }

  /** The join of a suffix of the parts is a suffix of the join. */
  lemma {:induction false} JoinSuffix(parts: seq<string>, i: nat, sep: char)
    requires i < |parts|
    ensures var j := Join(parts, sep); var t := Join(parts[i..], sep);
      |t| <= |j| && t == j[|j| - |t|..]
    decreases i
  {
    if i > 0 {
      JoinSuffix(parts[1..], i - 1, sep);
      assert parts[1..][i - 1..] == parts[i..];
      assert Join(parts, sep) == parts[0] + [sep] + Join(parts[1..], sep);
    }
  }

  /** The join of a suffix of a split is a suffix of the text, and splits back
      into that suffix. */
  lemma SplitSuffix(s: string, sep: char, i: nat)
    requires i < |Split(s, sep)|
    ensures |Join(Split(s, sep)[i..], sep)| <= |s|
    ensures Join(Split(s, sep)[i..], sep) == s[|s| - |Join(Split(s, sep)[i..], sep)|..]
    ensures Split(Join(Split(s, sep)[i..], sep), sep) == Split(s, sep)[i..]
  {
    var parts := Split(s, sep);
    var tail := parts[i..];
    JoinSuffix(parts, i, sep);
    forall k | 0 <= k < |tail|
      ensures sep !in tail[k]
    {
      assert tail[k] == parts[i + k];
    }
    SplitJoin(tail, sep);
  }

  /** Every character of a join is the separator or a character of some part. */
  lemma {:induction false} JoinChars(parts: seq<string>, sep: char, c: char)
    requires c != sep
    requires forall i :: 0 <= i < |parts| ==> c !in parts[i]
    ensures c !in Join(parts, sep)
    decreases |parts|
  {
    if |parts| > 1 {
      JoinChars(parts[1..], sep, c);
    }
  }

  /** `s.replaceAll(c, rep)` for a one-character pattern. */
  function ReplaceChar(s: string, c: char, rep: string): (r: string)
    ensures c !in s ==> r == s
    decreases |s|
  {
    if s == [] then []
    else (if s[0] == c then rep else [s[0]]) + ReplaceChar(s[1..], c, rep)
  }

  /** Replacing distributes over concatenation. */
  lemma {:induction false} ReplaceCharAppend(a: string, b: string, c: char, rep: string)
    ensures ReplaceChar(a + b, c, rep) == ReplaceChar(a, c, rep) + ReplaceChar(b, c, rep)
    decreases |a|
  {
    if a != [] {
      assert (a + b)[1..] == a[1..] + b;
      ReplaceCharAppend(a[1..], b, c, rep);
    } else {
      assert a + b == b;
    }
  }

  /** The characters of `s` that `keep` accepts, in order (`s.replace(/[^…]/g, "")`). */
  function Filter(s: string, keep: char -> bool): (r: string)
    ensures |r| <= |s|
    ensures forall i :: 0 <= i < |r| ==> keep(r[i])
    ensures (forall i :: 0 <= i < |s| ==> keep(s[i])) ==> r == s
    decreases |s|
  {
    if s == [] then []
    else (if keep(s[0]) then [s[0]] else []) + Filter(s[1..], keep)
  }

  /** Filtering distributes over concatenation. */
  lemma {:induction false} FilterAppend(a: string, b: string, keep: char -> bool)
    ensures Filter(a + b, keep) == Filter(a, keep) + Filter(b, keep)
    decreases |a|
  {
    if a != [] {
      assert (a + b)[1..] == a[1..] + b;
      FilterAppend(a[1..], b, keep);
    } else {
      assert a + b == b;
    }
  }

  /** Filtering out every character gives the empty text. */
  lemma {:induction false} FilterNone(s: string, keep: char -> bool)
    requires forall i :: 0 <= i < |s| ==> !keep(s[i])
    ensures Filter(s, keep) == ""
    decreases |s|
  {
    if s != [] {
      FilterNone(s[1..], keep);
    }
  }

  /** Trimming does not change the characters a filter keeps when it keeps no white space. */
  lemma FilterTrim(s: string, keep: char -> bool)
    requires forall c :: IsSpace(c) ==> !keep(c)
    ensures Filter(Trim(s), keep) == Filter(s, keep)
  {
    var r := Trim(s);
    var a := |s| - |TrimStart(s)|;
    var pre := s[..a];
    var post := s[a + |r|..];
    assert s == pre + r + post;
    assert forall i :: 0 <= i < |pre| ==> pre[i] == s[i];
    assert forall i :: 0 <= i < |post| ==> post[i] == s[a + |r| + i];
    FilterAround(pre, r, post, keep);
  }

  lemma FilterAround(pre: string, r: string, post: string, keep: char -> bool)
    requires forall i :: 0 <= i < |pre| ==> !keep(pre[i])
    requires forall i :: 0 <= i < |post| ==> !keep(post[i])
    ensures Filter(pre + r + post, keep) == Filter(r, keep)
  {
    FilterAppend(pre + r, post, keep);
    FilterAppend(pre, r, keep);
    FilterNone(pre, keep);
    FilterNone(post, keep);
  }

  /** Joins of part-wise equally filtered lists filter equally, when the separator is dropped. */
  lemma {:induction false} FilterJoin(ps: seq<string>, qs: seq<string>, sep: char, keep: char -> bool)
    requires |ps| == |qs| && !keep(sep)
    requires forall i :: 0 <= i < |ps| ==> Filter(ps[i], keep) == Filter(qs[i], keep)
    ensures Filter(Join(ps, sep), keep) == Filter(Join(qs, sep), keep)
    decreases |ps|
  {
    if |ps| > 1 {
      FilterJoin(ps[1..], qs[1..], sep, keep);
      FilterAppend(ps[0] + [sep], Join(ps[1..], sep), keep);
      FilterAppend(ps[0], [sep], keep);
      FilterAppend(qs[0] + [sep], Join(qs[1..], sep), keep);
      FilterAppend(qs[0], [sep], keep);
      assert Filter([sep], keep) == [];
    }
  }

  function LowerChar(c: char): char
  {
    if 'A' <= c <= 'Z' then (c as int + 32) as char else c
  }

  /** `toLowerCase()` restricted to ASCII letters (other characters are kept). */
  function LowerAscii(s: string): (r: string)
    ensures |r| == |s|
    ensures forall i :: 0 <= i < |s| ==> r[i] == LowerChar(s[i])
  {
    seq(|s|, i requires 0 <= i < |s| => LowerChar(s[i]))
  }

  /** Regrouping a non-empty sequence around its first element. */
  lemma ConsSplit<T>(a: seq<T>, b: seq<T>)
    requires a != []
    ensures a == [a[0]] + a[1..]
    ensures a + b == [a[0]] + (a[1..] + b)
  {
  }

  lemma AppendAssoc<T>(x: seq<T>, y: seq<T>, z: seq<T>)
    ensures x + (y + z) == (x + y) + z
  {
  }

  /** The two parts of a concatenation, read back from it. */
  lemma AppendPieces<T>(x: seq<T>, u: seq<T>)
    requires x != []
    ensures (x + u)[..|x|] == x && (x + u)[|x|..] == u && (x + u)[|x| - 1] == x[|x| - 1]
  {
  }

  /** A prefix one longer is the prefix with the next element appended. */
  lemma TakeSnoc<T>(s: seq<T>, k: nat)
    requires k < |s|
    ensures s[..k + 1] == s[..k] + [s[k]]
  {
  }

  lemma TakeAll<T>(s: seq<T>)
    ensures s[..|s|] == s
  {
  }

  /** `n` copies of `x`. */
  function Repeat<T>(x: T, n: nat): (r: seq<T>)
    ensures |r| == n && forall i :: 0 <= i < n ==> r[i] == x
  {
    seq(n, _ => x)
  }
}
