/**
 * The handful of Python 2 byte-string operations the program relies on:
 * character classes of the `re` module (`\w`, `\s`, `\d`), `lower`,
 * `capitalize`, `strip`, `split`, `startswith`, `replace` and joins.
 * Python 2 `str` methods only fold ASCII letters, so neither does this module.
 */
module Text {
  import opened Results

  /** `\s` and `str.isspace`: space, tab, newline, vertical tab, form feed, carriage return. */
  predicate IsSpace(c: char) { c == ' ' || '\t' <= c <= '\r' }

  /** `\d` */
  predicate IsDigit(c: char) { '0' <= c <= '9' }

  /** `\w` without the LOCALE or UNICODE flag: ASCII letters, digits and underscore. */
  predicate IsWordChar(c: char) { 'a' <= c <= 'z' || 'A' <= c <= 'Z' || IsDigit(c) || c == '_' }

  predicate IsUpper(c: char) { 'A' <= c <= 'Z' }

  function LowerChar(c: char): char { if 'A' <= c <= 'Z' then (c as int + 32) as char else c }

  function UpperChar(c: char): char { if 'a' <= c <= 'z' then (c as int - 32) as char else c }

  /** `str.lower` */
  function Lower(s: string): (r: string)
    ensures |r| == |s|
    ensures forall i | 0 <= i < |s| :: r[i] == LowerChar(s[i])
  {
    seq(|s|, i requires 0 <= i < |s| => LowerChar(s[i]))
  }

  /** Text without upper-case letters is its own `lower()`. */
  lemma {:induction false} LowerUnchanged(s: string)
    requires forall k | 0 <= k < |s| :: !IsUpper(s[k])
    ensures Lower(s) == s
  {
    assert forall k | 0 <= k < |s| :: Lower(s)[k] == s[k];
  }

  /** `str.capitalize`: first character upper case, the rest lower case. */
  function Capitalize(s: string): (r: string)
    ensures |r| == |s|
    ensures |s| > 0 ==> r[0] == UpperChar(s[0]) && r[1..] == Lower(s[1..])
  {
    if s == [] then [] else [UpperChar(s[0])] + Lower(s[1..])
  }

  /** Number of characters at the start of `s[i..]` that satisfy `\w`. */
  function WordRun(s: string, i: nat): (n: nat)
    requires i <= |s|
    ensures i + n <= |s|
    ensures forall k | i <= k < i + n :: IsWordChar(s[k])
    ensures i + n == |s| || !IsWordChar(s[i + n])
    decreases |s| - i
  {
    if i < |s| && IsWordChar(s[i]) then 1 + WordRun(s, i + 1) else 0
  }

  /** Number of characters at the start of `s[i..]` that satisfy `\d`. */
  function DigitRun(s: string, i: nat): (n: nat)
    requires i <= |s|
    ensures i + n <= |s|
    ensures forall k | i <= k < i + n :: IsDigit(s[k])
    ensures i + n == |s| || !IsDigit(s[i + n])
    decreases |s| - i
  {
    if i < |s| && IsDigit(s[i]) then 1 + DigitRun(s, i + 1) else 0
  }

  /** Number of characters at the start of `s[i..]` that satisfy `\s`. */
  function SpaceRun(s: string, i: nat): (n: nat)
    requires i <= |s|
    ensures i + n <= |s|
    ensures forall k | i <= k < i + n :: IsSpace(s[k])
    ensures i + n == |s| || !IsSpace(s[i + n])
    decreases |s| - i
  {
    if i < |s| && IsSpace(s[i]) then 1 + SpaceRun(s, i + 1) else 0
  }

  /** Number of characters at the start of `s[i..]` that do not satisfy `\s`. */
  function NonSpaceRun(s: string, i: nat): (n: nat)
    requires i <= |s|
    ensures i + n <= |s|
    ensures forall k | i <= k < i + n :: !IsSpace(s[k])
    ensures i + n == |s| || IsSpace(s[i + n])
    decreases |s| - i
  {
    if i < |s| && !IsSpace(s[i]) then 1 + NonSpaceRun(s, i + 1) else 0
  }

  /** Value of a run of decimal digits. */
  function DigitsValue(s: string): (n: nat)
    requires forall k | 0 <= k < |s| :: IsDigit(s[k])
  {
    if s == [] then 0
    else
      var d := s[|s| - 1];
      assert IsDigit(d);
      10 * DigitsValue(s[..|s| - 1]) + (d as int - '0' as int)
  }

  predicate NoSpace(s: string) { forall k | 0 <= k < |s| :: !IsSpace(s[k]) }

  /** Index just past the last character of `s` that does not satisfy `\s`. */
  function TrailingSpaceStart(s: string): (j: nat)
    ensures j <= |s|
    ensures forall k | j <= k < |s| :: IsSpace(s[k])
    ensures j == 0 || !IsSpace(s[j - 1])
  {
    if s != [] && IsSpace(s[|s| - 1]) then TrailingSpaceStart(s[..|s| - 1]) else |s|
  }

  /**
   * `str.strip()` with no argument: the text between the leading and the
   * trailing whitespace.
   */
  function Strip(s: string): (r: string)
    ensures r == [] || (!IsSpace(r[0]) && !IsSpace(r[|r| - 1]))
    ensures !(exists k | 0 <= k < |s| :: !IsSpace(s[k])) ==> r == []
    ensures |r| <= |s|
    ensures exists i :: SpaceAround(s, i, r)
  {
    var i := SpaceRun(s, 0);
    if i == |s| then
      assert SpaceAround(s, i, "");
      ""
    else
      var j := TrailingSpaceStart(s);
      assert i < j by { assert !IsSpace(s[i]); }
      assert SpaceAround(s, i, s[i..j]);
      s[i..j]
  }

  /** `s` is `r` at index `i`, with only whitespace before and after it. */
  predicate SpaceAround(s: string, i: int, r: string)
  {
    && 0 <= i && i + |r| <= |s| && s[i..i + |r|] == r
    && (forall k | 0 <= k < i :: IsSpace(s[k]))
    && (forall k | i + |r| <= k < |s| :: IsSpace(s[k]))
  }

  /** `s.startswith(p)` */
  predicate StartsWith(s: string, p: string) { |p| <= |s| && s[..|p|] == p }

  /** `pat` occurs in `s` at index `k`. */
  predicate OccursAt(s: string, pat: string, k: nat) { k + |pat| <= |s| && s[k..k + |pat|] == pat }

  /** Index of the first occurrence of `pat` in `s` at or after `i`. */
  function FindFrom(s: string, pat: string, i: nat): (r: Option<nat>)
    requires i <= |s|
    ensures r.Some? ==> i <= r.value && OccursAt(s, pat, r.value)
    ensures r.Some? ==> forall k | i <= k < r.value :: !OccursAt(s, pat, k)
    ensures r.None? ==> forall k | i <= k :: !OccursAt(s, pat, k)
    decreases |s| - i
  {
    if i + |pat| > |s| then None
    else if OccursAt(s, pat, i) then Some(i)
    else FindFrom(s, pat, i + 1)
  }

  /** `pat in s` */
  predicate Contains(s: string, pat: string) { FindFrom(s, pat, 0).Some? }

  /** `s.split(sep, 1)` unpacked into two names: fails when `sep` does not occur. */
  function SplitFirst(s: string, sep: string): (r: Option<(string, string)>)
    ensures r.Some? ==> s == r.value.0 + sep + r.value.1
  {
    match FindFrom(s, sep, 0)
    case None => None
    case Some(k) => Some((s[..k], s[k + |sep|..]))
  }

  /** Index of the first occurrence of `c` in `s`. */
  function IndexOf(s: string, c: char): (i: nat)
    requires c in s
    ensures i < |s| && s[i] == c && c !in s[..i]
  {
    if s[0] == c then 0 else 1 + IndexOf(s[1..], c)
  }

  /** `s.split(c)` for a one-character separator. */
  function Split(s: string, c: char): (r: seq<string>)
    ensures |r| >= 1
    ensures forall i | 0 <= i < |r| :: c !in r[i]
    decreases |s|
  {
    if c !in s then [s]
    else
      var i := IndexOf(s, c);
      [s[..i]] + Split(s[i + 1..], c)
  }

  /** `c.join(xs)` for a one-character separator. */
  function Join(xs: seq<string>, c: char): (r: string)
    ensures |xs| >= 1 ==> StartsWith(r, xs[0])
    ensures |xs| >= 2 ==> |xs[0]| < |r| && r[|xs[0]|] == c
  {
    if |xs| == 0 then ""
    else if |xs| == 1 then xs[0]
    else xs[0] + [c] + Join(xs[1..], c)
  }

  /** `s.replace(c, u)` for a one-character `c`. */
  function ReplaceChar(s: string, c: char, u: string): string
  {
    if s == [] then [] else (if s[0] == c then u else [s[0]]) + ReplaceChar(s[1..], c, u)
  }

  /** `re.split(r'\s+', s)`: the pieces between runs of whitespace, empty ones included. */
  function SplitOnSpaceRuns(s: string): (r: seq<string>)
    ensures |r| >= 1
    ensures forall i | 0 <= i < |r| :: NoSpace(r[i])
    decreases |s|
  {
    var i := NonSpaceRun(s, 0);
    if i == |s| then [s]
    else [s[..i]] + SplitOnSpaceRuns(s[i + SpaceRun(s, i)..])
  }

  /**
   * `re.split(r'\s+', s, 1)` unpacked into two names: fails when `s` has no
   * whitespace. Otherwise `s` is the first piece, the first run of
   * whitespace, and the second piece.
   */
  function SplitOnFirstSpaceRun(s: string): (r: Option<(string, string)>)
    ensures r.None? <==> NoSpace(s)
    ensures r.Some? ==> var (a, b) := r.value;
      && NoSpace(a) && |a| + |b| < |s| && s[..|a|] == a && s[|s| - |b|..] == b
      && (forall k | |a| <= k < |s| - |b| :: IsSpace(s[k]))
      && (b == [] || !IsSpace(b[0]))
  {
    var i := NonSpaceRun(s, 0);
    if i == |s| then None else Some((s[..i], s[i + SpaceRun(s, i)..]))
  }

  // ---------------------------------------------------------------------
  // Properties

  lemma {:induction false} JoinSplit(s: string, c: char)
    ensures Join(Split(s, c), c) == s
    decreases |s|
  {
    if c in s {
      var i := IndexOf(s, c);
      var rest := s[i + 1..];
      JoinSplit(rest, c);
      var r := Split(s, c);
      assert r == [s[..i]] + Split(rest, c);
      assert r[1..] == Split(rest, c);
      assert s == s[..i] + [c] + rest;
    }
  }

  lemma {:induction false} SplitJoin(xs: seq<string>, c: char)
    requires |xs| >= 1
    requires forall i | 0 <= i < |xs| :: c !in xs[i]
    ensures Split(Join(xs, c), c) == xs
  {
    if |xs| > 1 {
      var rest := Join(xs[1..], c);
      var s := xs[0] + [c] + rest;
      assert Join(xs, c) == s;
      IndexOfAfterFree(xs[0], c, rest);
      assert s[..|xs[0]|] == xs[0];
      assert s[|xs[0]| + 1..] == rest;
      assert Split(s, c) == [xs[0]] + Split(rest, c);
      SplitJoin(xs[1..], c);
      assert xs == [xs[0]] + xs[1..];
    }
  }

  lemma {:induction false} IndexOfAfterFree(a: string, c: char, b: string)
    requires c !in a
    ensures c in a + [c] + b && IndexOf(a + [c] + b, c) == |a|
  {
    var s := a + [c] + b;
    assert s[|a|] == c;
    assert s[..|a|] == a;
    IndexOfUnique(s, c, |a|);
  }

  lemma {:induction false} IndexOfUnique(s: string, c: char, i: nat)
    requires i < |s| && s[i] == c && c !in s[..i]
    ensures IndexOf(s, c) == i
  {
    var j := IndexOf(s, c);
  }

  lemma {:induction false} ReplaceCharAppend(a: string, b: string, c: char, u: string)
    ensures ReplaceChar(a + b, c, u) == ReplaceChar(a, c, u) + ReplaceChar(b, c, u)
  {
    if a != [] {
      var x, rest := a[0], a[1..];
      var head := if x == c then u else [x];
      assert a == [x] + rest;
      assert a + b == [x] + (rest + b);
      ReplaceCharCons(x, rest, c, u);
      ReplaceCharCons(x, rest + b, c, u);
      ReplaceCharAppend(rest, b, c, u);
      assert head + (ReplaceChar(rest, c, u) + ReplaceChar(b, c, u))
          == (head + ReplaceChar(rest, c, u)) + ReplaceChar(b, c, u);
    } else {
      assert a + b == b;
    }
  }

  lemma ReplaceCharCons(x: char, s: string, c: char, u: string)
    ensures ReplaceChar([x] + s, c, u) == (if x == c then u else [x]) + ReplaceChar(s, c, u)
  {
    var t := [x] + s;
    assert t[0] == x && t[1..] == s;
  }

  /** No `c` remains when the replacement `u` has none. */
  lemma {:induction false} ReplaceCharRemoves(s: string, c: char, u: string)
    requires c !in u
    ensures c !in ReplaceChar(s, c, u)
  {
    if s != [] {
      var head := if s[0] == c then u else [s[0]];
      assert c !in head;
      assert ReplaceChar(s, c, u) == head + ReplaceChar(s[1..], c, u);
      ReplaceCharRemoves(s[1..], c, u);
    }
  }

  /** Text without `c` is unchanged. */
  lemma {:induction false} ReplaceCharUnchanged(s: string, c: char, u: string)
    requires c !in s
    ensures ReplaceChar(s, c, u) == s
  {
    if s != [] {
      assert s[0] != c && c !in s[1..];
      assert ReplaceChar(s, c, u) == [s[0]] + ReplaceChar(s[1..], c, u);
      ReplaceCharUnchanged(s[1..], c, u);
      assert s == [s[0]] + s[1..];
    }
  }

  /** Every occurrence of `c` becomes `u`: the text on either side of one is replaced on its own. */
  lemma {:induction false} ReplaceCharAt(a: string, c: char, b: string, u: string)
    ensures ReplaceChar(a + [c] + b, c, u) == ReplaceChar(a, c, u) + u + ReplaceChar(b, c, u)
  {
    ReplaceCharAppend(a + [c], b, c, u);
    ReplaceCharAppend(a, [c], c, u);
    assert [c][0] == c && [c][1..] == [];
    assert ReplaceChar([c], c, u) == u + ReplaceChar([], c, u) == u;
  }

  /** Joining with single spaces and splitting on whitespace runs gives the pieces back. */
  lemma {:induction false} SplitOnSpaceRunsJoin(xs: seq<string>)
    requires |xs| >= 1
    requires forall i | 0 <= i < |xs| :: xs[i] != [] && NoSpace(xs[i])
    ensures SplitOnSpaceRuns(Join(xs, ' ')) == xs
  {
    if |xs| == 1 {
      NonSpaceRunOf(xs[0], xs[0]);
    } else {
      var rest := Join(xs[1..], ' ');
      JoinStartsNonSpace(xs[1..]);
      assert Join(xs, ' ') == xs[0] + [' '] + rest;
      SplitOnSpaceRunsCons(xs[0], rest);
      SplitOnSpaceRunsJoin(xs[1..]);
      assert xs == [xs[0]] + xs[1..];
    }
  }

  /** A whitespace-free word, one space, then text that starts with no whitespace: the word is the first piece. */
  lemma {:induction false} SplitOnSpaceRunsCons(a: string, rest: string)
    requires a != [] && NoSpace(a)
    requires rest != [] && !IsSpace(rest[0])
    ensures SplitOnSpaceRuns(a + [' '] + rest) == [a] + SplitOnSpaceRuns(rest)
  {
    var s := a + [' '] + rest;
    var i := |a|;
    NonSpaceRunOf(a, s);
    assert s[i + 1..] == rest;
    assert SpaceRun(s, i) == 1 by {
      assert SpaceRun(s, i) == 1 + SpaceRun(s, i + 1);
      assert s[i + 1] == rest[0];
    }
    assert s[..i] == a;
  }

  lemma {:induction false} NonSpaceRunOf(a: string, s: string)
    requires StartsWith(s, a) && NoSpace(a)
    requires |s| == |a| || IsSpace(s[|a|])
    ensures NonSpaceRun(s, 0) == |a|
  {
    var n := NonSpaceRun(s, 0);
  }

  lemma {:induction false} JoinStartsNonSpace(xs: seq<string>)
    requires |xs| >= 1 && xs[0] != [] && NoSpace(xs[0])
    ensures Join(xs, ' ') != [] && !IsSpace(Join(xs, ' ')[0]) && StartsWith(Join(xs, ' '), xs[0])
    ensures |Join(xs, ' ')| == |xs[0]| || IsSpace(Join(xs, ' ')[|xs[0]|])
  {
    if |xs| > 1 {
      var s := Join(xs, ' ');
      assert s == xs[0] + [' '] + Join(xs[1..], ' ');
      assert s[0] == xs[0][0];
      assert s[..|xs[0]|] == xs[0];
      assert s[|xs[0]|] == ' ';
    }
  }

  /** Whitespace at either end of `s`, or an empty `s`, yields an empty piece. */
  lemma {:induction false} SplitOnSpaceRunsEmptyPieces(s: string)
    ensures s == "" ==> SplitOnSpaceRuns(s) == [""]
    ensures s != "" && IsSpace(s[0]) ==> SplitOnSpaceRuns(s)[0] == ""
    ensures s != "" && IsSpace(s[|s| - 1]) ==> SplitOnSpaceRuns(s)[|SplitOnSpaceRuns(s)| - 1] == ""
  {
    if s != "" && IsSpace(s[|s| - 1]) {
      SplitEndsEmpty(s);
    }
  }

  lemma {:induction false} SplitEndsEmpty(s: string)
    requires s != "" && IsSpace(s[|s| - 1])
    ensures SplitOnSpaceRuns(s)[|SplitOnSpaceRuns(s)| - 1] == ""
    decreases |s|
  {
    var i := NonSpaceRun(s, 0);
    assert i < |s|;
    var rest := s[i + SpaceRun(s, i)..];
    assert SplitOnSpaceRuns(s) == [s[..i]] + SplitOnSpaceRuns(rest);
    if rest != [] {
      assert rest[|rest| - 1] == s[|s| - 1];
      SplitEndsEmpty(rest);
    } else {
      assert SplitOnSpaceRuns(rest) == [""];
    }
  }

  /** The pair `SplitFirst` returns puts the string back together around the first separator. */
  lemma {:induction false} SplitFirstSpec(s: string, sep: string)
    ensures SplitFirst(s, sep).Some? <==> exists k: nat :: OccursAt(s, sep, k)
    ensures SplitFirst(s, sep).Some? ==>
      var (a, b) := SplitFirst(s, sep).value;
      s == a + sep + b && forall k: nat | k < |a| :: !OccursAt(s, sep, k)
  {
    match FindFrom(s, sep, 0)
    case None =>
    case Some(k) =>
      assert s == s[..k] + s[k..k + |sep|] + s[k + |sep|..];
  }

  /** A run of `n` blanks that ends at a non-blank or at the end is the `SpaceRun` there. */
  lemma {:induction false} SpaceRunOf(s: string, i: nat, n: nat)
    requires i + n <= |s| && forall k | i <= k < i + n :: IsSpace(s[k])
    requires i + n == |s| || !IsSpace(s[i + n])
    ensures SpaceRun(s, i) == n
    decreases n
  {
    if n > 0 {
      SpaceRunOf(s, i + 1, n - 1);
    }
  }

  /** Text with no whitespace at either end is its own `strip()`. */
  lemma {:induction false} StripUnchanged(s: string)
    requires s == [] || (!IsSpace(s[0]) && !IsSpace(s[|s| - 1]))
    ensures Strip(s) == s
  {
    if s != [] {
      assert SpaceRun(s, 0) == 0;
      assert TrailingSpaceStart(s) == |s|;
    }
  }

  lemma {:induction false} FindFromFirst(s: string, pat: string, i: nat, k: nat)
    requires i <= k && OccursAt(s, pat, k)
    requires forall p | i <= p < k :: !OccursAt(s, pat, p)
    ensures FindFrom(s, pat, i) == Some(k)
    decreases k - i
  {
    if i < k {
      FindFromFirst(s, pat, i + 1, k);
    }
  }

  /** A `name: value` line whose name has no colon splits at the separator after the name. */
  lemma {:induction false} SplitFirstAfterName(name: string, value: string)
    requires ':' !in name
    ensures SplitFirst(name + ": " + value, ": ") == Some((name, value))
  {
    var s := name + ": " + value;
    var k := |name|;
    assert s[k..k + 2] == ": ";
    forall p | 0 <= p < k
      ensures !OccursAt(s, ": ", p)
    {
      if p + 1 < k {
        assert s[p] == name[p];
      } else {
        assert s[p + 1] == ':';
      }
    }
    FindFromFirst(s, ": ", 0, k);
    assert s[..k] == name;
    assert s[k + 2..] == value;
  }
}
