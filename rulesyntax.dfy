/**
 * The surface syntax of one rule, `RuleFactory.getRule`'s regular expression
 *   (?P<key>\w+)(?P<operator>.)(?P<delimiter>[/%@])(?P<value>.+)\3(?P<flags>\w+)?
 * applied with `re.match`: anchored at the start, not at the end.
 *
 * The model follows the backtracking matcher exactly: the key is tried from
 * the longest run of word characters downward; for a given key the value is
 * the longest newline-free text that is followed by the delimiter again
 * (`.` does not match a newline); the flags are then the longest run of word
 * characters, possibly empty; whatever follows is ignored.
 */
module RuleSyntax {
  import opened Results
  import opened Text

  /** The keys of `RuleFactory.DELIMITER_TO_RULE`. */
  predicate IsDelimiter(c: char) { c == '/' || c == '%' || c == '@' }

  /** The groups of a successful match; an absent `flags` group is the empty string. */
  datatype Segment = Segment(key: string, op: char, delimiter: char, value: string, flags: string)

  /** The text a segment's groups spell out, in order. */
  function Serialize(seg: Segment): string
  {
    seg.key + [seg.op, seg.delimiter] + seg.value + [seg.delimiter] + seg.flags
  }

  /** What each group of the pattern can match. */
  predicate WellFormed(seg: Segment)
  {
    && |seg.key| >= 1 && (forall i | 0 <= i < |seg.key| :: IsWordChar(seg.key[i]))
    && seg.op != '\n'
    && IsDelimiter(seg.delimiter)
    && |seg.value| >= 1 && '\n' !in seg.value
    && (forall i | 0 <= i < |seg.flags| :: IsWordChar(seg.flags[i]))
  }

  /** Where `.` stops matching: the first newline at or after `i`, or the end. */
  function LineEnd(s: string, i: nat): (e: nat)
    requires i <= |s|
    ensures i <= e <= |s|
    ensures forall k | i <= k < e :: s[k] != '\n'
    ensures e == |s| || s[e] == '\n'
    decreases |s| - i
  {
    if i < |s| && s[i] != '\n' then LineEnd(s, i + 1) else i
  }

  /** The greatest `j` in `[lo, hi)` with `s[j] == d`. */
  function LastIndex(s: string, d: char, lo: nat, hi: nat): (r: Option<nat>)
    requires lo <= hi <= |s|
    ensures r.Some? ==> lo <= r.value < hi && s[r.value] == d
    ensures r.Some? ==> forall k | r.value < k < hi :: s[k] != d
    ensures r.None? ==> forall k | lo <= k < hi :: s[k] != d
    decreases hi - lo
  {
    if lo == hi then None
    else if s[hi - 1] == d then Some(hi - 1)
    else LastIndex(s, d, lo, hi - 1)
  }

  /** The match in which the key group holds exactly `s[..k]`, if there is one. */
  function MatchWithKey(s: string, k: nat): (r: Option<Segment>)
    requires 1 <= k <= |s|
    ensures r.Some? ==> r.value.key == s[..k] && IsDelimiter(r.value.delimiter)
  {
    if k + 1 >= |s| || s[k] == '\n' || !IsDelimiter(s[k + 1]) then None
    else
      var d := s[k + 1];
      var e := LineEnd(s, k + 2);
      if e < k + 3 then None
      else
        match LastIndex(s, d, k + 3, e)
        case None => None
        case Some(j) => Some(Segment(s[..k], s[k], d, s[k + 2..j], s[j + 1..j + 1 + WordRun(s, j + 1)]))
  }

  /**
   * A match with a fixed key spells out a prefix of the input with groups the
   * pattern allows, and no further flag character follows it.
   */
  lemma {:induction false} MatchWithKeySound(s: string, k: nat)
    requires 1 <= k <= |s| && MatchWithKey(s, k).Some?
    ensures var seg := MatchWithKey(s, k).value;
      && seg.key == s[..k] && StartsWith(s, Serialize(seg))
      && seg.op == s[k] && seg.op != '\n' && IsDelimiter(seg.delimiter)
      && |seg.value| >= 1 && '\n' !in seg.value
      && (forall i | 0 <= i < |seg.flags| :: IsWordChar(seg.flags[i]))
      && var n := |Serialize(seg)|; n == |s| || !IsWordChar(s[n])
  {
    var d := s[k + 1];
    var e := LineEnd(s, k + 2);
    var j := LastIndex(s, d, k + 3, e).value;
    var f := WordRun(s, j + 1);
    var n := j + 1 + f;
    assert MatchWithKey(s, k).value == Segment(s[..k], s[k], d, s[k + 2..j], s[j + 1..n]);
    SerializeSlices(s, k, j, n);
  }

  /** The groups cut out of `s` at `k`, `j` and `n`: they spell `s[..n]` again and are what the pattern allows. */
  lemma {:induction false} SerializeSlices(s: string, k: nat, j: nat, n: nat)
    requires 1 <= k && k + 3 <= j < n <= |s| && s[j] == s[k + 1]
    requires forall i | k + 2 <= i < j :: s[i] != '\n'
    requires forall i | j < i < n :: IsWordChar(s[i])
    ensures var seg := Segment(s[..k], s[k], s[k + 1], s[k + 2..j], s[j + 1..n]);
      && Serialize(seg) == s[..n] && StartsWith(s, Serialize(seg))
      && |seg.value| >= 1 && '\n' !in seg.value
      && forall i | 0 <= i < |seg.flags| :: IsWordChar(seg.flags[i])
  {
    var seg := Segment(s[..k], s[k], s[k + 1], s[k + 2..j], s[j + 1..n]);
    assert s[..n] == s[..k] + [s[k], s[k + 1]] + s[k + 2..j] + [s[j]] + s[j + 1..n] by {
      assert s[..n] == s[..k] + s[k..k + 2] + s[k + 2..j] + s[j..j + 1] + s[j + 1..n];
    }
    assert forall i | 0 <= i < |seg.value| :: seg.value[i] == s[k + 2 + i];
    assert forall i | 0 <= i < |seg.flags| :: seg.flags[i] == s[j + 1 + i];
  }

  /**
   * Backtracking over the key: key lengths `k`, `k - 1`, ..., `1` in turn. The
   * match found is that of the longest key length that has one, and there is
   * none only when no key length up to `k` has a match.
   */
  function TryKeys(s: string, k: nat): (r: Option<Segment>)
    requires k <= |s|
    ensures r.Some? ==> 1 <= |r.value.key| <= k && MatchWithKey(s, |r.value.key|) == r
    ensures r.Some? ==> forall j | |r.value.key| < j <= k :: MatchWithKey(s, j).None?
    ensures r.None? ==> forall j | 1 <= j <= k :: MatchWithKey(s, j).None?
    decreases k
  {
    if k == 0 then None
    else
      var m := MatchWithKey(s, k);
      if m.Some? then m else TryKeys(s, k - 1)
  }

  /** `re.match(pattern, s)` of `RuleFactory.getRule`. */
  function ParseSegment(s: string): (r: Option<Segment>)
    ensures r.Some? ==> IsDelimiter(r.value.delimiter)
  {
    TryKeys(s, WordRun(s, 0))
  }

  // ---------------------------------------------------------------------
  // Properties

  /**
   * A successful parse has groups the pattern allows, spells out a prefix of
   * the input, ends where no further flag character follows, and its value
   * runs to the last delimiter before the next newline. Its key is the
   * longest run of word characters that leaves a match: no longer key does.
   */
  lemma {:induction false} ParseSound(s: string)
    requires ParseSegment(s).Some?
    ensures var seg := ParseSegment(s).value;
      && WellFormed(seg)
      && |seg.key| <= WordRun(s, 0)
      && (forall j | |seg.key| < j <= WordRun(s, 0) :: MatchWithKey(s, j).None?)
      && StartsWith(s, Serialize(seg))
      && (|Serialize(seg)| == |s| || !IsWordChar(s[|Serialize(seg)|]))
      && forall i | |seg.key| + 2 + |seg.value| < i < LineEnd(s, |seg.key| + 2) :: s[i] != seg.delimiter
  {
    var seg := ParseSegment(s).value;
    var k := |seg.key|;
    assert MatchWithKey(s, k) == Some(seg);
    MatchWithKeySound(s, k);
    assert forall i | 0 <= i < k :: seg.key[i] == s[i];
    MatchWithKeyLast(s, k);
  }

  /** The pattern fails exactly when no key length within the leading word run has a match. */
  lemma {:induction false} ParseNone(s: string)
    ensures ParseSegment(s).None? <==> forall j | 1 <= j <= WordRun(s, 0) :: MatchWithKey(s, j).None?
  {
    if ParseSegment(s).Some? {
      var k := |ParseSegment(s).value.key|;
      assert 1 <= k <= WordRun(s, 0) && MatchWithKey(s, k).Some?;
    }
  }

  /** The value of a match ends at the last delimiter before the next newline. */
  lemma {:induction false} MatchWithKeyLast(s: string, k: nat)
    requires 1 <= k <= |s| && MatchWithKey(s, k).Some?
    ensures var seg := MatchWithKey(s, k).value;
      forall i | k + 2 + |seg.value| < i < LineEnd(s, k + 2) :: s[i] != seg.delimiter
  {
    var seg := MatchWithKey(s, k).value;
    var d := s[k + 1];
    var e := LineEnd(s, k + 2);
    var j := LastIndex(s, d, k + 3, e).value;
    assert seg.value == s[k + 2..j] && seg.delimiter == d;
    assert k + 2 + |seg.value| == j;
  }

  /**
   * Conversely, any text that starts with a key, an operator, a delimiter, a
   * non-empty newline-free value and the delimiter again parses.
   */
  lemma {:induction false} ParseComplete(s: string, key: string, op: char, d: char, value: string, rest: string)
    requires |key| >= 1 && forall i | 0 <= i < |key| :: IsWordChar(key[i])
    requires op != '\n' && IsDelimiter(d)
    requires |value| >= 1 && '\n' !in value
    requires s == key + [op, d] + value + [d] + rest
    ensures ParseSegment(s).Some?
  {
    var k := |key|;
    var w := WordRun(s, 0);
    assert forall i | 0 <= i < k :: s[i] == key[i];
    WordRunCovers(s, k);
    assert s[k] == op && s[k + 1] == d;
    assert !IsWordChar(d);
    assert w == k || w == k + 1;
    var jd := k + 2 + |value|;
    assert s[jd] == d;
    assert forall i | k + 2 <= i < jd :: s[i] == value[i - k - 2];
    var e := LineEnd(s, k + 2);
    assert e > jd;
    assert MatchWithKey(s, k).Some?;
    assert TryKeys(s, k).Some?;
  }

  lemma {:induction false} WordRunCovers(s: string, k: nat)
    requires k <= |s| && forall i | 0 <= i < k :: IsWordChar(s[i])
    ensures WordRun(s, 0) >= k
  {
  }

  /**
   * Round trip: the groups of a well-formed segment whose operator is not a
   * word character (so that it cannot be read as part of the key) come back
   * unchanged from the text they spell out.
   */
  lemma {:induction false} ParseSerialize(seg: Segment)
    requires WellFormed(seg) && !IsWordChar(seg.op)
    ensures ParseSegment(Serialize(seg)) == Some(seg)
  {
    var s := Serialize(seg);
    var k := |seg.key|;
    var jd := k + 2 + |seg.value|;
    assert WordRun(s, 0) == k by {
      assert forall i | 0 <= i < k :: s[i] == seg.key[i];
      WordRunCovers(s, k);
      assert s[k] == seg.op;
    }
    SerializedMatch(seg);
  }

  lemma {:induction false} SerializedMatch(seg: Segment)
    requires WellFormed(seg)
    ensures 1 <= |seg.key| <= |Serialize(seg)|
    ensures MatchWithKey(Serialize(seg), |seg.key|) == Some(seg)
  {
    var s := Serialize(seg);
    var k := |seg.key|;
    var jd := k + 2 + |seg.value|;
    SerializeParts(seg);
    assert Segment(s[..k], s[k], s[k + 1], s[k + 2..jd], s[jd + 1..]) == seg;
    SerializedLine(seg);
    MatchAt(s, k, jd);
  }

  /** The text a well-formed segment spells has no newline after the key and operator, and only flags after the value. */
  lemma {:induction false} SerializedLine(seg: Segment)
    requires WellFormed(seg)
    ensures var s := Serialize(seg); var k := |seg.key|; var jd := k + 2 + |seg.value|;
      && (forall i | k + 2 <= i < |s| :: s[i] != '\n')
      && (forall i | jd < i < |s| :: IsWordChar(s[i]))
  {
    var s := Serialize(seg);
    var k := |seg.key|;
    var jd := k + 2 + |seg.value|;
    SerializeParts(seg);
    forall i | k + 2 <= i < |s|
      ensures s[i] != '\n'
    {
      if i < jd {
        assert s[i] == s[k + 2..jd][i - k - 2];
      } else if i > jd {
        assert s[i] == s[jd + 1..][i - jd - 1];
      }
    }
    forall i | jd < i < |s|
      ensures IsWordChar(s[i])
    {
      assert s[i] == s[jd + 1..][i - jd - 1];
    }
  }

  /** Where each group sits in the text a segment spells. */
  lemma {:induction false} SerializeParts(seg: Segment)
    ensures var s := Serialize(seg); var k := |seg.key|; var jd := k + 2 + |seg.value|;
      && |s| == jd + 1 + |seg.flags|
      && s[..k] == seg.key && s[k] == seg.op && s[k + 1] == seg.delimiter
      && s[k + 2..jd] == seg.value && s[jd] == seg.delimiter && s[jd + 1..] == seg.flags
  {
  }

  /** The match with key `s[..k]` when the closing delimiter is at `jd` and only flags follow. */
  lemma {:induction false} MatchAt(s: string, k: nat, jd: nat)
    requires 1 <= k && k + 3 <= jd < |s|
    requires s[k] != '\n' && IsDelimiter(s[k + 1]) && s[jd] == s[k + 1]
    requires forall i | k + 2 <= i < |s| :: s[i] != '\n'
    requires forall i | jd < i < |s| :: IsWordChar(s[i])
    ensures MatchWithKey(s, k) == Some(Segment(s[..k], s[k], s[k + 1], s[k + 2..jd], s[jd + 1..]))
  {
    var d := s[k + 1];
    var f := |s| - jd - 1;
    assert s[jd + 1..jd + 1 + f] == s[jd + 1..];
    LineEndNoNewline(s, k + 2);
    LastIndexAt(s, d, k + 3, |s|, jd);
    WordRunSuffix(s, jd + 1, f);
  }

  lemma {:induction false} LastIndexAt(s: string, d: char, lo: nat, hi: nat, j: nat)
    requires lo <= j < hi <= |s| && s[j] == d
    requires forall i | j < i < hi :: s[i] != d
    ensures LastIndex(s, d, lo, hi) == Some(j)
    decreases hi - j
  {
    if hi - 1 != j {
      LastIndexAt(s, d, lo, hi - 1, j);
    }
  }

  lemma {:induction false} LineEndNoNewline(s: string, i: nat)
    requires i <= |s| && forall k | i <= k < |s| :: s[k] != '\n'
    ensures LineEnd(s, i) == |s|
    decreases |s| - i
  {
    if i < |s| {
      LineEndNoNewline(s, i + 1);
    }
  }

  lemma {:induction false} WordRunSuffix(s: string, i: nat, n: nat)
    requires i + n == |s| && forall k | i <= k < |s| :: IsWordChar(s[k])
    ensures WordRun(s, i) == n
  {
  }
}
