/**
 * Compiled rules and the matching engine: `AbstractRule`, its three kinds
 * (`RegexRule`, `TimeDeltaRule`, `TimeStampRule`) and `RuleFactory.getRule`.
 *
 * A rule is immutable once built, so it is a datatype: the fields every rule
 * has (`key`, `operator`, `delimiter`, `flags`, `negate`) and a `Kind` holding
 * what the kind's constructor computed from the value. Constructor failures
 * are `RuleError`s; failures that the program only meets when it matches a
 * track (an unknown key, an operator missing from the kind's table, a field
 * that is not a number) are `MatchError`s.
 */
module Rules {
  import opened Results
  import opened Text
  import opened Keywords
  import opened RuleSyntax
  import opened Calendar

  /** `re.IGNORECASE` */
  const IGNORECASE: bv32 := 2
  /** `re.LOCALE` */
  const LOCALE: bv32 := 4

  /**
   * `re.search(pattern, text, flags)` found a match. The regular-expression
   * engine is not modelled; every matching function takes it as a parameter.
   */
  type Searcher = (string, string, bv32) -> bool

  datatype RuleError =
    | MalformedRule(segment: string)    // "Could not parse rule"
    | UnknownRegexFlag(flag: char)      // KeyError from RegexRule.FLAGS
    | MalformedDuration(value: string)  // "Could not parse duration"
    | UnknownUnit(unit: string)         // TypeError from timedelta(**{unit: number})
    | DurationOverflow                  // OverflowError from timedelta
    | MalformedDate(value: string)      // ValueError from time.strptime

  datatype MatchError =
    | UnknownKey(key: string)           // KeyError from KEYWORDS
    | UnsupportedOperator(op: char)     // KeyError from the kind's OPERATORS
    | NotAnInteger(text: string)        // ValueError from int() / float()
    | DateOutOfRange(text: string)      // ValueError from the date round trip of the field

  datatype Kind =
    | Regex(pattern: string, reFlags: bv32)
    | TimeDelta(number: nat, unit: string, seconds: int)
    | TimeStamp(midnight: int)

  datatype Rule = Rule(key: string, op: char, delimiter: char, flags: string, negate: bool, kind: Kind)

  // ---------------------------------------------------------------------
  // RegexRule

  /** `RegexRule.FLAGS` */
  function FlagBit(c: char): Option<bv32>
  {
    if c == 'i' then Some(IGNORECASE) else if c == 'l' then Some(LOCALE) else None
  }

  /** The flags `RegexRule.__init__` ORs together, failing at the first flag that has no entry. */
  function RegexFlags(flags: string): (r: Result<bv32, RuleError>)
    ensures r.Err? ==> r.error.UnknownRegexFlag?
  {
    if flags == [] then Ok(0)
    else
      match FlagBit(flags[0])
      case None => Err(UnknownRegexFlag(flags[0]))
      case Some(b) =>
        match RegexFlags(flags[1..])
        case Err(e) => Err(e)
        case Ok(rest) => Ok(b | rest)
  }

  /** `acc` ORed into a flag result. */
  function OrInto(acc: bv32, r: Result<bv32, RuleError>): Result<bv32, RuleError>
  {
    match r
    case Err(e) => Err(e)
    case Ok(v) => Ok(acc | v)
  }

  lemma {:induction false} OrAssociates(a: bv32, b: bv32, r: Result<bv32, RuleError>)
    ensures OrInto(a, OrInto(b, r)) == OrInto(a | b, r)
  {
    if r.Ok? {
      OrAssociative(a, b, r.value);
    }
  }

  lemma {:induction false} OrAssociative(a: bv32, b: bv32, c: bv32)
    ensures a | (b | c) == (a | b) | c
  {
  }

  /** The loop of `RegexRule.__init__`: `self.reFlags |= self.FLAGS[reFlag]` for each flag. */
  method CompileRegexFlags(flags: string) returns (r: Result<bv32, RuleError>)
    ensures r == RegexFlags(flags)
  {
    var reFlags: bv32 := 0;
    for i := 0 to |flags|
      invariant RegexFlags(flags) == OrInto(reFlags, RegexFlags(flags[i..]))
    {
      assert flags[i..][0] == flags[i] && flags[i..][1..] == flags[i + 1..];
      var bit := FlagBit(flags[i]);
      if bit.None? {
        assert RegexFlags(flags[i..]) == Err(UnknownRegexFlag(flags[i]));
        return Err(UnknownRegexFlag(flags[i]));
      }
      assert RegexFlags(flags[i..]) == OrInto(bit.value, RegexFlags(flags[i + 1..]));
      OrAssociates(reFlags, bit.value, RegexFlags(flags[i + 1..]));
      reFlags := reFlags | bit.value;
    }
    assert flags[|flags|..] == [];
    return Ok(reFlags);
  }

  // ---------------------------------------------------------------------
  // TimeDeltaRule

  /**
   * `v` starts with what `\d+\s*\w+` matches with the groups `d`: `n` digits
   * spelling the number, `w` blanks, then the unit, a run of word characters.
   */
  predicate DurationAt(v: string, n: nat, w: nat, d: (nat, string))
  {
    && 1 <= n && |d.1| >= 1 && n + w + |d.1| <= |v|
    && (forall k | 0 <= k < n :: IsDigit(v[k])) && DigitsValue(v[..n]) == d.0
    && (forall k | n <= k < n + w :: IsSpace(v[k]))
    && v[n + w..n + w + |d.1|] == d.1 && (forall k | 0 <= k < |d.1| :: IsWordChar(d.1[k]))
  }

  /**
   * `re.match(r'(?P<number>\d+)\s*(?P<unit>\w+)', value)`: the number and the
   * unit. When no word character follows the digits and the blanks, the
   * matcher gives the last digit back to the unit.
   */
  function ParseDuration(v: string): (r: Option<(nat, string)>)
    ensures r.Some? ==> |r.value.1| >= 1
    ensures DigitRun(v, 0) == 0 ==> r.None?
  {
    var n := DigitRun(v, 0);
    if n == 0 then None
    else
      var w := SpaceRun(v, n);
      var u := WordRun(v, n + w);
      if u > 0 then Some(DurationGroups(v, n, w))
      else if n >= 2 then Some(DurationGroups(v, n - 1, 0))
      else None
  }

  /** The groups `number` and `unit` when the unit starts after `n` digits and `w` blanks. */
  function DurationGroups(v: string, n: nat, w: nat): (nat, string)
    requires n + w <= |v| && forall k | 0 <= k < n :: IsDigit(v[k])
  {
    (DigitsValue(v[..n]), v[n + w..n + w + WordRun(v, n + w)])
  }

  /**
   * What a match of `\d+\s*\w+` gives: the value of a run of digits, and a
   * word that follows it after some blanks.
   */
  lemma {:induction false} ParseDurationMatch(v: string)
    ensures ParseDuration(v).Some? ==> exists n: nat, w: nat :: DurationAt(v, n, w, ParseDuration(v).value)
  {
    var n := DigitRun(v, 0);
    if n > 0 {
      var w := SpaceRun(v, n);
      if WordRun(v, n + w) > 0 {
        DurationWordFollows(v, n, w);
      } else if n >= 2 {
        DurationDigitGivenBack(v, n, w);
      }
    }
  }

  /** A word after the digits and blanks is the unit. */
  lemma {:induction false} DurationWordFollows(v: string, n: nat, w: nat)
    requires 1 <= n == DigitRun(v, 0) && w == SpaceRun(v, n) && WordRun(v, n + w) > 0
    ensures ParseDuration(v) == Some(DurationGroups(v, n, w)) && DurationAt(v, n, w, DurationGroups(v, n, w))
  {
    DurationAtRuns(v, n, w);
  }

  /** With no word after the blanks, the last digit becomes the unit. */
  lemma {:induction false} DurationDigitGivenBack(v: string, n: nat, w: nat)
    requires 2 <= n == DigitRun(v, 0) && w == SpaceRun(v, n) && WordRun(v, n + w) == 0
    ensures ParseDuration(v) == Some(DurationGroups(v, n - 1, 0)) && DurationAt(v, n - 1, 0, DurationGroups(v, n - 1, 0))
  {
    assert IsWordChar(v[n - 1]);
    DurationAtRuns(v, n - 1, 0);
  }

  /** Digits, then blanks, then at least one word character make a match with those groups. */
  lemma {:induction false} DurationAtRuns(v: string, n: nat, w: nat)
    requires 1 <= n && n + w <= |v|
    requires forall k | 0 <= k < n :: IsDigit(v[k])
    requires forall k | n <= k < n + w :: IsSpace(v[k])
    requires WordRun(v, n + w) >= 1
    ensures DurationAt(v, n, w, DurationGroups(v, n, w))
  {
    var u := v[n + w..n + w + WordRun(v, n + w)];
    assert forall k | 0 <= k < |u| :: u[k] == v[n + w + k];
  }

  /** `unit.lower()`, with an `s` appended unless it already ends in one. */
  function NormalizeUnit(u: string): (r: string)
    ensures |u| <= |r| <= |u| + 1 && r[..|u|] == Lower(u)
    ensures |r| >= 1 && r[|r| - 1] == 's'
  {
    var l := Lower(u);
    if l != [] && l[|l| - 1] == 's' then l else l + "s"
  }

  /** The keyword arguments `datetime.timedelta` accepts, in microseconds. */
  function UnitMicroseconds(unit: string): Option<nat>
  {
    if unit == "microseconds" then Some(1)
    else if unit == "milliseconds" then Some(1000)
    else if unit == "seconds" then Some(1000000)
    else if unit == "minutes" then Some(60000000)
    else if unit == "hours" then Some(3600000000)
    else if unit == "days" then Some(86400000000)
    else if unit == "weeks" then Some(604800000000)
    else None
  }

  const MICROSECONDS_PER_DAY: nat := 86400000000

  /** `timedelta.max.days` */
  const MAX_DELTA_DAYS: nat := 999999999

  /** `timedelta(**{unit: number}).seconds`: the part of the span below one day. */
  function DeltaSeconds(number: nat, unit: string): (r: Result<int, RuleError>)
    ensures r.Ok? ==> 0 <= r.value < 86400
    ensures r.Err? ==> r.error == UnknownUnit(unit) || r.error == DurationOverflow
  {
    match UnitMicroseconds(unit)
    case None => Err(UnknownUnit(unit))
    case Some(us) =>
      var total := number * us;
      if total / MICROSECONDS_PER_DAY > MAX_DELTA_DAYS then Err(DurationOverflow)
      else Ok((total / 1000000) % SECONDS_PER_DAY)
  }

  // ---------------------------------------------------------------------
  // Construction

  /** `ruleClass(**d)` for the class `DELIMITER_TO_RULE` gives the segment's delimiter. */
  function MakeRule(seg: Segment): (r: Result<Rule, RuleError>)
    requires IsDelimiter(seg.delimiter)
    ensures r.Err? ==> !r.error.MalformedRule?
  {
    var negate := 'n' in seg.flags;
    if seg.delimiter == '/' then
      match RegexFlags(seg.flags)
      case Err(e) => Err(e)
      case Ok(f) => Ok(Rule(seg.key, seg.op, seg.delimiter, seg.flags, negate, Regex(seg.value, f)))
    else if seg.delimiter == '%' then
      match ParseDuration(seg.value)
      case None => Err(MalformedDuration(seg.value))
      case Some((n, u)) =>
        var unit := NormalizeUnit(u);
        match DeltaSeconds(n, unit)
        case Err(e) => Err(e)
        case Ok(secs) => Ok(Rule(seg.key, seg.op, seg.delimiter, seg.flags, negate, TimeDelta(n, unit, secs)))
    else
      match ParseDate(seg.value)
      case None => Err(MalformedDate(seg.value))
      case Some(dt) => Ok(Rule(seg.key, seg.op, seg.delimiter, seg.flags, negate, TimeStamp(Midnight(dt))))
  }

  /**
   * `RuleFactory.getRule(ruleString)`: "Could not parse rule" exactly when the
   * pattern does not match; a rule is negated exactly when its flags hold `n`,
   * and its kind is the one its delimiter names.
   */
  function GetRule(s: string): (r: Result<Rule, RuleError>)
    ensures r == Err(MalformedRule(s)) <==> ParseSegment(s).None?
    ensures r.Ok? ==> r.value.negate == ('n' in r.value.flags)
    ensures r.Ok? ==> && (r.value.kind.Regex? <==> r.value.delimiter == '/')
                      && (r.value.kind.TimeDelta? <==> r.value.delimiter == '%')
                      && (r.value.kind.TimeStamp? <==> r.value.delimiter == '@')
  {
    match ParseSegment(s)
    case None => Err(MalformedRule(s))
    case Some(seg) => MakeRule(seg)
  }

  // ---------------------------------------------------------------------
  // Matching

  /** The entries of the `OPERATORS` table of the two time kinds. */
  datatype Comparison = Eq | Le | Ge

  function Comparator(op: char): Option<Comparison>
  {
    if op == '=' then Some(Eq) else if op == '<' then Some(Le) else if op == '>' then Some(Ge) else None
  }

  /** `operator.eq`, `operator.le`, `operator.ge` with the field value on the left. */
  function Compare(c: Comparison, a: int, b: int): bool
  {
    match c
    case Eq => a == b
    case Le => a <= b
    case Ge => a >= b
  }

  predicate IsSign(c: char) { c == '-' || c == '+' }

  /**
   * Stripped text Python 2's `int()` reads: decimal digits, or a sign, then
   * blanks, then decimal digits. The sign is taken off first and the digits
   * are then read with their own leading blanks skipped, so `- 5` is -5.
   */
  predicate IsIntText(t: string)
  {
    && |t| >= 1 && IsDigit(t[|t| - 1])
    && (IsDigit(t[0]) || IsSign(t[0]))
    && (forall k | 1 <= k < |t| :: IsDigit(t[k]) || IsSpace(t[k]))
    && (forall k | 0 <= k < |t| - 1 :: IsDigit(t[k]) ==> IsDigit(t[k + 1]))
  }

  /** Where `int()` starts reading digits: after the sign and the blanks that follow it. */
  function DigitsStart(t: string): (i: nat)
    ensures i <= |t|
    ensures i > 0 ==> IsSign(t[0]) && forall k | 1 <= k < i :: IsSpace(t[k])
    ensures i == 0 ==> t == [] || !IsSign(t[0])
    ensures 0 < i < |t| ==> !IsSpace(t[i])
  {
    if t != [] && IsSign(t[0]) then 1 + SpaceRun(t, 1) else 0
  }

  predicate AllDigits(s: string) { forall k | 0 <= k < |s| :: IsDigit(s[k]) }

  /** `int(text)`; `None` where it raises `ValueError`. */
  function ParseInt(text: string): Option<int>
  {
    var t := Strip(text);
    var body := t[DigitsStart(t)..];
    if body == [] || !AllDigits(body) then None
    else Some(if t[0] == '-' then -(DigitsValue(body) as int) else DigitsValue(body))
  }

  /**
   * Stripped text Python 2's `float()` reads as a whole number: an optional
   * sign directly followed by decimal digits.
   */
  predicate IsWholeText(t: string)
  {
    && |t| >= 1 && (IsDigit(t[0]) || (IsSign(t[0]) && |t| >= 2))
    && forall k | 1 <= k < |t| :: IsDigit(t[k])
  }

  /** `float(text)` for text that spells a whole number; `None` where it raises `ValueError`. */
  function ParseWhole(text: string): Option<int>
  {
    var t := Strip(text);
    if !IsWholeText(t) then None
    else if IsDigit(t[0]) then Some(DigitsValue(t))
    else Some(if t[0] == '-' then -(DigitsValue(t[1..]) as int) else DigitsValue(t[1..]))
  }

  /**
   * `int()` accepts exactly the text described by `IsIntText`, and its value
   * is that of the digits after the sign and its blanks, negated after `-`.
   */
  lemma {:induction false} ParseIntSpec(text: string)
    ensures ParseInt(text).Some? <==> IsIntText(Strip(text))
    ensures ParseInt(text).Some? ==> var t := Strip(text); var d := t[DigitsStart(t)..];
      && AllDigits(d) && ParseInt(text).value == (if t[0] == '-' then -(DigitsValue(d) as int) else DigitsValue(d))
  {
    var t := Strip(text);
    IntTextDigits(t);
  }

  /** Where the digits of `int()`'s text start, and that they run to its end. */
  lemma {:induction false} IntTextDigits(t: string)
    ensures IsIntText(t) <==> DigitsStart(t) < |t| && AllDigits(t[DigitsStart(t)..])
  {
    if IsIntText(t) {
      IntTextHasDigits(t);
    } else if DigitsStart(t) < |t| && AllDigits(t[DigitsStart(t)..]) {
      DigitsMakeIntText(t);
    }
  }

  lemma {:induction false} IntTextHasDigits(t: string)
    requires IsIntText(t)
    ensures DigitsStart(t) < |t| && AllDigits(t[DigitsStart(t)..])
  {
    var i := DigitsStart(t);
    if IsSign(t[0]) {
      assert |t| >= 2 && !IsSpace(t[|t| - 1]);
      assert i < |t|;
      assert IsDigit(t[i]);
    } else {
      assert i == 0 && IsDigit(t[0]);
    }
    DigitsOnward(t, i);
    var body := t[i..];
    assert forall k | 0 <= k < |body| :: body[k] == t[i + k];
  }

  lemma {:induction false} DigitsMakeIntText(t: string)
    requires DigitsStart(t) < |t| && AllDigits(t[DigitsStart(t)..])
    ensures IsIntText(t)
  {
    var i := DigitsStart(t);
    var body := t[i..];
    assert forall k | i <= k < |t| :: t[k] == body[k - i];
    assert forall k | i <= k < |t| :: IsDigit(t[k]);
  }

  /** Once a digit is followed only by digits, everything from it on is a digit. */
  lemma {:induction false} DigitsOnward(t: string, i: nat)
    requires i < |t| && IsDigit(t[i])
    requires forall k | 0 <= k < |t| - 1 :: IsDigit(t[k]) ==> IsDigit(t[k + 1])
    ensures forall k | i <= k < |t| :: IsDigit(t[k])
    decreases |t| - i
  {
    if i + 1 < |t| {
      DigitsOnward(t, i + 1);
    }
  }

  /** A sign, blanks and zero-padded digits read back as the signed number. */
  lemma {:induction false} ParseIntSignBlanks(sign: char, blanks: string, n: nat, w: nat)
    requires IsSign(sign) && forall k | 0 <= k < |blanks| :: IsSpace(blanks[k])
    requires 1 <= w && n < Pow10(w)
    ensures ParseInt([sign] + blanks + PaddedDigits(n, w)) == Some(if sign == '-' then -(n as int) else n)
  {
    var ds := PaddedDigits(n, w);
    var t, i := [sign] + blanks + ds, 1 + |blanks|;
    assert t[0] == sign && ds != [] && AllDigits(ds);
    SignBlanksDigits(sign, blanks, ds);
    PaddedDigitsValue(n, w);
    assert DigitsValue(t[i..]) == n;
    ParseIntOf(t, i);
    var v: int := if sign == '-' then -(n as int) else n;
    assert (if t[0] == '-' then -(DigitsValue(t[i..]) as int) else DigitsValue(t[i..])) == v;
    assert ParseInt(t) == Some(v);
  }

  /** In a sign, blanks and digits, nothing is stripped and the digits start after the blanks. */
  lemma {:induction false} SignBlanksDigits(sign: char, blanks: string, ds: string)
    requires IsSign(sign) && forall k | 0 <= k < |blanks| :: IsSpace(blanks[k])
    requires ds != [] && AllDigits(ds)
    ensures var t := [sign] + blanks + ds;
      Strip(t) == t && DigitsStart(t) == 1 + |blanks| && t[1 + |blanks|..] == ds
  {
    var t := [sign] + blanks + ds;
    var i := 1 + |blanks|;
    assert t[0] == sign && t[|t| - 1] == ds[|ds| - 1] && t[i] == ds[0];
    assert forall k | 1 <= k < i :: t[k] == blanks[k - 1];
    StripUnchanged(t);
    SpaceRunOf(t, 1, |blanks|);
    assert t[i..] == ds;
  }

  /** Stripped text whose digits start at `i` and run to its end reads as those digits, signed. */
  lemma {:induction false} ParseIntOf(t: string, i: nat)
    requires Strip(t) == t && DigitsStart(t) == i && i < |t| && AllDigits(t[i..])
    ensures ParseInt(t) == Some(if t[0] == '-' then -(DigitsValue(t[i..]) as int) else DigitsValue(t[i..]))
  {
  }

  /** `float()` gives no number for a sign followed by a blank. */
  lemma {:induction false} ParseWholeSignBlank(sign: char, rest: string)
    requires IsSign(sign) && rest != [] && IsSpace(rest[0])
    ensures ParseWhole([sign] + rest) == None
  {
    var t := [sign] + rest;
    var r := Strip(t);
    var i :| SpaceAround(t, i, r);
    assert !IsSpace(t[0]);
    assert i == 0 && r != [];
    assert r[0] == sign;
    if |r| >= 2 {
      assert r[1] == t[1] == rest[0];
    }
  }

  /**
   * `float()` accepts exactly the text described by `IsWholeText`, and its
   * value is that of the digits, negated after `-`.
   */
  lemma {:induction false} ParseWholeSpec(text: string)
    ensures ParseWhole(text).Some? <==> IsWholeText(Strip(text))
    ensures ParseWhole(text).Some? ==> var t := Strip(text); var d := if IsSign(t[0]) then t[1..] else t;
      && AllDigits(d) && ParseWhole(text).value == (if t[0] == '-' then -(DigitsValue(d) as int) else DigitsValue(d))
  {
    var t := Strip(text);
    if IsWholeText(t) && IsSign(t[0]) {
      assert forall k | 0 <= k < |t[1..]| :: t[1..][k] == t[k + 1];
    }
  }

  /**
   * The kind's own `__match__` on the field's text, before negation. It fails
   * only on an operator missing from the kind's table or, for the time kinds,
   * a field that is not a number, or for a date rule a field whose day the
   * date round trip refuses.
   */
  function KindMatch(kind: Kind, op: char, field: string, search: Searcher): (r: Result<bool, MatchError>)
    ensures r.Err? ==> r.error in {UnsupportedOperator(op), NotAnInteger(field), DateOutOfRange(field)}
    ensures r.Err? && r.error.UnsupportedOperator? ==> if kind.Regex? then op != '=' else Comparator(op).None?
    ensures r.Err? && r.error.NotAnInteger? ==>
      (kind.TimeDelta? && ParseInt(field).None?) || (kind.TimeStamp? && ParseWhole(field).None?)
    ensures r.Err? && r.error.DateOutOfRange? ==>
      kind.TimeStamp? && ParseWhole(field).Some? && FieldMidnight(ParseWhole(field).value).None?
    ensures r.Ok? ==> match kind
      case Regex(_, _) => op == '='
      case TimeDelta(_, _, _) => Comparator(op).Some? && ParseInt(field).Some?
      case TimeStamp(_) => Comparator(op).Some? && ParseWhole(field).Some? && FieldMidnight(ParseWhole(field).value).Some?
  {
    match kind
    case Regex(pattern, reFlags) =>
      if op == '=' then Ok(search(pattern, field, reFlags)) else Err(UnsupportedOperator(op))
    case TimeDelta(_, _, seconds) =>
      (match Comparator(op)
       case None => Err(UnsupportedOperator(op))
       case Some(c) =>
         match ParseInt(field)
         case None => Err(NotAnInteger(field))
         case Some(v) => Ok(Compare(c, v, seconds)))
    case TimeStamp(midnight) =>
      match ParseWhole(field)
      case None => Err(NotAnInteger(field))
      case Some(v) =>
        match FieldMidnight(v)
        case None => Err(DateOutOfRange(field))
        case Some(day) =>
          match Comparator(op)
          case None => Err(UnsupportedOperator(op))
          case Some(c) => Ok(Compare(c, day, midnight))
  }

  lemma {:induction false} AttributeOfKnown(key: string)
    requires key in KEYWORDS
    ensures AttributeOf(key) in ATTRIBUTES
  {
    AttributeNames();
  }

  /** The text of the track attribute a known key reads. */
  function Field(key: string, t: Track): string
    requires key in KEYWORDS
  {
    AttributeOfKnown(key);
    t[AttributeOf(key)]
  }

  /** `AbstractRule.match(track)`: the key is looked up first, then the kind matches and `n` inverts. */
  function Match(r: Rule, t: Track, search: Searcher): (m: Result<bool, MatchError>)
    ensures m == Err(UnknownKey(r.key)) <==> r.key !in KEYWORDS
    ensures r.key in KEYWORDS ==> var k := KindMatch(r.kind, r.op, Field(r.key, t), search);
      (m.Err? ==> m == k) && (m.Ok? ==> k.Ok? && m.value == (k.value != r.negate))
  {
    if r.key !in KEYWORDS then Err(UnknownKey(r.key))
    else
      match KindMatch(r.kind, r.op, Field(r.key, t), search)
      case Err(e) => Err(e)
      case Ok(b) => Ok(if r.negate then !b else b)
  }

  // ---------------------------------------------------------------------
  // Properties: construction

  /** A flag `RegexRule.FLAGS` has an entry for. */
  predicate IsRegexFlag(c: char) { c == 'i' || c == 'l' }

  /**
   * `RegexRule.__init__` succeeds exactly when every flag is `i` or `l`; the
   * compiled flags then hold IGNORECASE for an `i` and LOCALE for an `l`, and
   * otherwise the error names the first flag without an entry.
   */
  lemma {:induction false} RegexFlagsSpec(flags: string)
    ensures RegexFlags(flags).Ok? <==> forall k | 0 <= k < |flags| :: IsRegexFlag(flags[k])
    ensures RegexFlags(flags).Ok? ==>
      RegexFlags(flags).value == (if 'i' in flags then IGNORECASE else 0) | (if 'l' in flags then LOCALE else 0)
    ensures RegexFlags(flags).Err? ==> exists k | 0 <= k < |flags| ::
      && !IsRegexFlag(flags[k])
      && (forall j | 0 <= j < k :: IsRegexFlag(flags[j]))
      && RegexFlags(flags).error == UnknownRegexFlag(flags[k])
  {
    if flags != [] {
      var tail := flags[1..];
      RegexFlagsSpec(tail);
      assert forall k | 1 <= k < |flags| :: flags[k] == tail[k - 1];
      assert ('i' in flags) == (flags[0] == 'i' || 'i' in tail);
      assert ('l' in flags) == (flags[0] == 'l' || 'l' in tail);
      if RegexFlags(flags).Err? && IsRegexFlag(flags[0]) {
        var k' :| 0 <= k' < |tail| && !IsRegexFlag(tail[k'])
          && (forall j | 0 <= j < k' :: IsRegexFlag(tail[j])) && RegexFlags(tail).error == UnknownRegexFlag(tail[k']);
        assert !IsRegexFlag(flags[k' + 1]);
      }
    }
  }

  /** A regex rule never carries the `n` flag, so it is never negated. */
  lemma {:induction false} RegexNeverNegated(s: string)
    requires GetRule(s).Ok? && GetRule(s).value.kind.Regex?
    ensures !GetRule(s).value.negate
  {
    RegexRuleNotNegated(ParseSegment(s).value);
  }

  lemma {:induction false} RegexRuleNotNegated(seg: Segment)
    requires IsDelimiter(seg.delimiter) && MakeRule(seg).Ok? && MakeRule(seg).value.kind.Regex?
    ensures !MakeRule(seg).value.negate
  {
    assert seg.delimiter == '/';
    RegexFlagsSpec(seg.flags);
  }

  /**
   * A rule is built from the groups of the match: key, operator, delimiter
   * and flags as written, `negate` exactly when `n` is a flag, and the kind
   * chosen by the delimiter (`/` regex, `%` time span, `@` date) from the value.
   */
  lemma {:induction false} GetRuleDispatch(s: string)
    requires GetRule(s).Ok?
    ensures ParseSegment(s).Some?
    ensures var seg, r := ParseSegment(s).value, GetRule(s).value;
      && r.key == seg.key && r.op == seg.op && r.delimiter == seg.delimiter && r.flags == seg.flags
      && r.negate == ('n' in seg.flags)
      && (r.kind.Regex? <==> seg.delimiter == '/')
      && (r.kind.TimeDelta? <==> seg.delimiter == '%')
      && (r.kind.TimeStamp? <==> seg.delimiter == '@')
      && (r.kind.Regex? ==> r.kind.pattern == seg.value && RegexFlags(seg.flags) == Ok(r.kind.reFlags))
      && (r.kind.TimeDelta? ==>
            && ParseDuration(seg.value).Some?
            && r.kind.number == ParseDuration(seg.value).value.0
            && r.kind.unit == NormalizeUnit(ParseDuration(seg.value).value.1)
            && DeltaSeconds(r.kind.number, r.kind.unit) == Ok(r.kind.seconds))
      && (r.kind.TimeStamp? ==> ParseDate(seg.value).Some? && r.kind.midnight == Midnight(ParseDate(seg.value).value))
  {
    MakeRuleDispatch(ParseSegment(s).value);
  }

  /** The rule built from a segment, field by field. */
  lemma {:induction false} MakeRuleDispatch(seg: Segment)
    requires IsDelimiter(seg.delimiter) && MakeRule(seg).Ok?
    ensures var r := MakeRule(seg).value;
      && r.key == seg.key && r.op == seg.op && r.delimiter == seg.delimiter && r.flags == seg.flags
      && r.negate == ('n' in seg.flags)
      && (r.kind.Regex? <==> seg.delimiter == '/')
      && (r.kind.TimeDelta? <==> seg.delimiter == '%')
      && (r.kind.TimeStamp? <==> seg.delimiter == '@')
      && (r.kind.Regex? ==> r.kind.pattern == seg.value && RegexFlags(seg.flags) == Ok(r.kind.reFlags))
      && (r.kind.TimeDelta? ==>
            && ParseDuration(seg.value).Some?
            && r.kind.number == ParseDuration(seg.value).value.0
            && r.kind.unit == NormalizeUnit(ParseDuration(seg.value).value.1)
            && DeltaSeconds(r.kind.number, r.kind.unit) == Ok(r.kind.seconds))
      && (r.kind.TimeStamp? ==> ParseDate(seg.value).Some? && r.kind.midnight == Midnight(ParseDate(seg.value).value))
  {
  }

  /** Text spelled out from well-formed groups builds the rule those groups describe. */
  lemma {:induction false} GetRuleSerialize(seg: Segment)
    requires WellFormed(seg) && !IsWordChar(seg.op)
    ensures GetRule(Serialize(seg)) == MakeRule(seg)
  {
    ParseSerialize(seg);
  }

  /** A number followed directly by a unit word reads back as that number and unit. */
  lemma {:induction false} ParseDurationOf(ds: string, u: string)
    requires |ds| >= 1 && forall k | 0 <= k < |ds| :: IsDigit(ds[k])
    requires |u| >= 1 && !IsDigit(u[0]) && forall k | 0 <= k < |u| :: IsWordChar(u[k])
    ensures ParseDuration(ds + u) == Some((DigitsValue(ds), u))
  {
    var v := ds + u;
    var n := |ds|;
    assert v[..n] == ds && v[n..] == u;
    assert forall k | 0 <= k < n :: v[k] == ds[k];
    assert forall k | n <= k < |v| :: v[k] == u[k - n];
    DigitRunOf(v, n);
    assert SpaceRun(v, n) == 0 by { assert !IsSpace(v[n]); }
    WordRunAt(v, n, |u|);
    ParseDurationAt(v, n, |u|);
  }

  /** The groups of `\d+\s*\w+` when the digits, no blanks and a word follow one another. */
  lemma {:induction false} ParseDurationAt(v: string, n: nat, m: nat)
    requires 1 <= n && n + m == |v| && 1 <= m
    requires DigitRun(v, 0) == n && SpaceRun(v, n) == 0 && WordRun(v, n) == m
    ensures ParseDuration(v) == Some((DigitsValue(v[..n]), v[n..]))
  {
    var w := SpaceRun(v, n);
    var u := WordRun(v, n + w);
    assert w == 0 && u == m;
    assert v[n + w..n + w + u] == v[n..];
  }

  lemma {:induction false} DigitRunOf(s: string, n: nat)
    requires 1 <= n < |s| && (forall k | 0 <= k < n :: IsDigit(s[k])) && !IsDigit(s[n])
    ensures DigitRun(s, 0) == n
  {
  }

  lemma {:induction false} WordRunAt(s: string, i: nat, n: nat)
    requires i + n == |s| && forall k | i <= k < |s| :: IsWordChar(s[k])
    ensures WordRun(s, i) == n
  {
  }

  /** The normalised unit has no upper-case letter, and normalising it again keeps it. */
  lemma {:induction false} NormalizeUnitSpec(u: string)
    ensures forall k | 0 <= k < |NormalizeUnit(u)| :: !IsUpper(NormalizeUnit(u)[k])
    ensures NormalizeUnit(NormalizeUnit(u)) == NormalizeUnit(u)
  {
    var l := NormalizeUnit(u);
    assert forall k | 0 <= k < |l| :: !IsUpper(l[k]) by {
      assert forall k | 0 <= k < |u| :: l[k] == l[..|u|][k] == LowerChar(u[k]);
    }
    LowerUnchanged(l);
  }

  /**
   * The threshold a time-span rule compares against, unit by unit: the span's
   * whole seconds within a day, or `OverflowError` when the span is longer
   * than `timedelta.max` (999999999 days and a little more). Whole days and
   * weeks give 0, milliseconds and microseconds count only their whole
   * seconds, and any other unit (months, years, ...) is not a keyword
   * argument of `timedelta`.
   */
  lemma {:induction false} DeltaSecondsSpec(number: nat, unit: string)
    ensures unit !in {"microseconds", "milliseconds", "seconds", "minutes", "hours", "days", "weeks"} ==>
      DeltaSeconds(number, unit) == Err(UnknownUnit(unit))
    ensures unit == "microseconds" ==>
      DeltaSeconds(number, unit) == (if number / 86400000000 <= MAX_DELTA_DAYS then Ok((number / 1000000) % 86400) else Err(DurationOverflow))
    ensures unit == "milliseconds" ==>
      DeltaSeconds(number, unit) == (if number / 86400000 <= MAX_DELTA_DAYS then Ok((number / 1000) % 86400) else Err(DurationOverflow))
    ensures unit == "seconds" ==>
      DeltaSeconds(number, unit) == (if number / 86400 <= MAX_DELTA_DAYS then Ok(number % 86400) else Err(DurationOverflow))
    ensures unit == "minutes" ==>
      DeltaSeconds(number, unit) == (if number * 60 / 86400 <= MAX_DELTA_DAYS then Ok((number * 60) % 86400) else Err(DurationOverflow))
    ensures unit == "hours" ==>
      DeltaSeconds(number, unit) == (if number * 3600 / 86400 <= MAX_DELTA_DAYS then Ok((number * 3600) % 86400) else Err(DurationOverflow))
    ensures unit == "days" ==>
      DeltaSeconds(number, unit) == (if number <= MAX_DELTA_DAYS then Ok(0) else Err(DurationOverflow))
    ensures unit == "weeks" ==>
      DeltaSeconds(number, unit) == (if number * 7 <= MAX_DELTA_DAYS then Ok(0) else Err(DurationOverflow))
  {
    if unit == "microseconds" {
      assert number * 1 == number;
    } else if unit == "milliseconds" {
      DivCancel(number, 86400000, 1000);
      DivCancel(number, 1000, 1000);
    } else if unit == "seconds" {
      WholeSeconds(number, 1);
    } else if unit == "minutes" {
      WholeSeconds(number, 60);
    } else if unit == "hours" {
      WholeSeconds(number, 3600);
    } else if unit == "days" {
      WholeSeconds(number, 86400);
      DivCancel(number, 1, 86400);
      MultipleOfDay(number, 1);
    } else if unit == "weeks" {
      WholeSeconds(number, 604800);
      assert number * 604800 == (number * 7) * 86400;
      DivCancel(number * 7, 1, 86400);
      MultipleOfDay(number, 7);
    }
  }

  /** A span of `number` times `s` whole seconds, in the microseconds `timedelta` counts. */
  lemma {:induction false} WholeSeconds(number: nat, s: nat)
    requires s >= 1
    ensures number * (s * 1000000) / 86400000000 == number * s / 86400
    ensures number * (s * 1000000) / 1000000 == number * s
  {
    assert number * (s * 1000000) == (number * s) * 1000000;
    DivCancel(number * s, 86400, 1000000);
    DivCancel(number * s, 1, 1000000);
  }

  /** A common factor cancels in a quotient. */
  lemma {:induction false} DivCancel(a: nat, b: nat, c: nat)
    requires b >= 1 && c >= 1
    ensures a * c / (b * c) == a / b
  {
    var q, r := a / b, a % b;
    assert a == q * b + r;
    assert a * c == q * (b * c) + r * c;
    assert r * c < b * c;
    DivUnique(a * c, b * c, q, r * c);
  }

  lemma {:induction false} MultipleOfDay(a: nat, b: nat)
    ensures (a * (b * SECONDS_PER_DAY)) % SECONDS_PER_DAY == 0
  {
    assert a * (b * SECONDS_PER_DAY) == (a * b) * SECONDS_PER_DAY;
  }

  /** A time-span rule with a whole number of days or weeks reports a threshold of 0. */
  lemma {:induction false} DayDurationsZero(s: string)
    requires GetRule(s).Ok? && GetRule(s).value.kind.TimeDelta?
    requires GetRule(s).value.kind.unit in {"days", "weeks"}
    ensures GetRule(s).value.kind.seconds == 0
  {
    var r := GetRule(s).value;
    GetRuleDispatch(s);
    DeltaSecondsSpec(r.kind.number, r.kind.unit);
  }

  // ---------------------------------------------------------------------
  // Properties: matching

  /** Flipping `negate` flips every successful outcome and keeps every error. */
  lemma {:induction false} NegationInverts(r: Rule, t: Track, search: Searcher)
    ensures var m, m' := Match(r, t, search), Match(r.(negate := !r.negate), t, search);
      && (m.Err? <==> m'.Err?)
      && (m.Err? ==> m == m')
      && (m.Ok? ==> m'.value == !m.value)
  {
  }

  /**
   * The failures of `AbstractRule.match`, in the order the program meets them:
   * the key is looked up first; a regex rule then fails only on an operator
   * other than `=`; a time-span rule looks up the operator before it reads the
   * field as a number; a date rule reads the field before it looks up the operator.
   */
  lemma {:induction false} MatchErrors(r: Rule, t: Track, search: Searcher)
    ensures r.key !in KEYWORDS ==> Match(r, t, search) == Err(UnknownKey(r.key))
    ensures r.key in KEYWORDS && r.kind.Regex? ==>
      (Match(r, t, search).Err? <==> r.op != '=')
      && (r.op != '=' ==> Match(r, t, search) == Err(UnsupportedOperator(r.op)))
    ensures r.key in KEYWORDS && r.kind.TimeDelta? ==>
      && (Comparator(r.op).None? ==> Match(r, t, search) == Err(UnsupportedOperator(r.op)))
      && (Comparator(r.op).Some? && ParseInt(Field(r.key, t)).None? ==> Match(r, t, search) == Err(NotAnInteger(Field(r.key, t))))
      && (Comparator(r.op).Some? && ParseInt(Field(r.key, t)).Some? ==> Match(r, t, search).Ok?)
    ensures r.key in KEYWORDS && r.kind.TimeStamp? ==> var f := Field(r.key, t);
      && (ParseWhole(f).None? ==> Match(r, t, search) == Err(NotAnInteger(f)))
      && (ParseWhole(f).Some? && FieldMidnight(ParseWhole(f).value).None? ==> Match(r, t, search) == Err(DateOutOfRange(f)))
      && (ParseWhole(f).Some? && FieldMidnight(ParseWhole(f).value).Some? && Comparator(r.op).None? ==>
            Match(r, t, search) == Err(UnsupportedOperator(r.op)))
      && (ParseWhole(f).Some? && FieldMidnight(ParseWhole(f).value).Some? && Comparator(r.op).Some? ==> Match(r, t, search).Ok?)
  {
  }

  /** The operators of the time kinds are `==`, `<=` and `>=` with the field's number on the left. */
  lemma {:induction false} TimeDeltaMeaning(r: Rule, t: Track, search: Searcher, v: int)
    requires r.key in KEYWORDS && r.kind.TimeDelta? && !r.negate
    requires ParseInt(Field(r.key, t)) == Some(v)
    ensures r.op == '=' ==> Match(r, t, search) == Ok(v == r.kind.seconds)
    ensures r.op == '<' ==> Match(r, t, search) == Ok(v <= r.kind.seconds)
    ensures r.op == '>' ==> Match(r, t, search) == Ok(v >= r.kind.seconds)
    ensures r.op !in {'=', '<', '>'} ==> Match(r, t, search) == Err(UnsupportedOperator(r.op))
  {
  }

  /** The midnight starting an instant's day: a multiple of a day, at most a day before it. */
  lemma {:induction false} DayStartSpec(v: int)
    ensures DayStart(v) % SECONDS_PER_DAY == 0
    ensures DayStart(v) <= v < DayStart(v) + SECONDS_PER_DAY
    ensures forall m: int :: m % SECONDS_PER_DAY == 0 && m <= v < m + SECONDS_PER_DAY ==> m == DayStart(v)
  {
  }

  /** Two instants of the same UTC day match a date rule alike. */
  lemma {:induction false} SameDayMatchesAlike(r: Rule, t1: Track, t2: Track, search: Searcher, v1: int, v2: int)
    requires r.key in KEYWORDS && r.kind.TimeStamp?
    requires ParseWhole(Field(r.key, t1)) == Some(v1) && ParseWhole(Field(r.key, t2)) == Some(v2)
    requires v1 / SECONDS_PER_DAY == v2 / SECONDS_PER_DAY
    ensures || Match(r, t1, search) == Match(r, t2, search)
            || (&& Match(r, t1, search) == Err(DateOutOfRange(Field(r.key, t1)))
                && Match(r, t2, search) == Err(DateOutOfRange(Field(r.key, t2))))
  {
    KindMatchSameDay(r.kind, r.op, Field(r.key, t1), Field(r.key, t2), search, v1, v2);
  }

  lemma {:induction false} KindMatchSameDay(kind: Kind, op: char, f1: string, f2: string, search: Searcher, v1: int, v2: int)
    requires kind.TimeStamp? && ParseWhole(f1) == Some(v1) && ParseWhole(f2) == Some(v2)
    requires v1 / SECONDS_PER_DAY == v2 / SECONDS_PER_DAY
    ensures || KindMatch(kind, op, f1, search) == KindMatch(kind, op, f2, search)
            || (&& KindMatch(kind, op, f1, search) == Err(DateOutOfRange(f1))
                && KindMatch(kind, op, f2, search) == Err(DateOutOfRange(f2)))
  {
    assert FieldMidnight(v1) == FieldMidnight(v2);
  }

  /**
   * What a date rule `k=@d@`, `k<@d@`, `k>@d@` selects: instants on day `d`,
   * instants up to the end of day `d`, instants from the start of day `d` on.
   */
  lemma {:induction false} TimeStampWindow(s: string, t: Track, search: Searcher, v: int)
    requires GetRule(s).Ok? && GetRule(s).value.kind.TimeStamp? && GetRule(s).value.key in KEYWORDS
    requires ParseWhole(Field(GetRule(s).value.key, t)) == Some(v) && FourDigitYear(v)
    ensures var r := GetRule(s).value; var m := r.kind.midnight;
      && (r.op == '=' ==> Match(r, t, search) == Ok(r.negate != (m <= v < m + SECONDS_PER_DAY)))
      && (r.op == '<' ==> Match(r, t, search) == Ok(r.negate != (v < m + SECONDS_PER_DAY)))
      && (r.op == '>' ==> Match(r, t, search) == Ok(r.negate != (v >= m)))
  {
    GetRuleDispatch(s);
    WindowOf(GetRule(s).value, t, search, v);
  }

  lemma {:induction false} WindowOf(r: Rule, t: Track, search: Searcher, v: int)
    requires r.key in KEYWORDS && r.kind.TimeStamp? && r.kind.midnight % SECONDS_PER_DAY == 0
    requires ParseWhole(Field(r.key, t)) == Some(v) && FourDigitYear(v)
    ensures var m := r.kind.midnight;
      && (r.op == '=' ==> Match(r, t, search) == Ok(r.negate != (m <= v < m + SECONDS_PER_DAY)))
      && (r.op == '<' ==> Match(r, t, search) == Ok(r.negate != (v < m + SECONDS_PER_DAY)))
      && (r.op == '>' ==> Match(r, t, search) == Ok(r.negate != (v >= m)))
  {
    var m := r.kind.midnight;
    FieldMidnightOfFourDigitYear(v);
    DayStartSpec(v);
    var w := DayStart(v);
    DayFloorOrder(w, m);
    DayFloorOrder(m, w);
  }

  lemma {:induction false} DayFloorOrder(w: int, m: int)
    requires w % SECONDS_PER_DAY == 0 && m % SECONDS_PER_DAY == 0
    ensures w < m ==> w + SECONDS_PER_DAY <= m
  {
    var a, b := w / SECONDS_PER_DAY, m / SECONDS_PER_DAY;
    assert w == a * SECONDS_PER_DAY && m == b * SECONDS_PER_DAY;
    if w < m {
      assert a < b;
      assert (b - a) * SECONDS_PER_DAY >= SECONDS_PER_DAY;
    }
  }

  /**
   * `\d+\s*\w+` gives a digit back when nothing else follows: `12` reads as
   * one of unit `2`, and a lone digit does not parse.
   */
  lemma {:induction false} ParseDurationBacktracks()
    ensures ParseDuration("12") == Some((1, "2"))
    ensures ParseDuration("3") == None
  {
    var v := "12";
    assert DigitRun(v, 0) == 2;
    assert SpaceRun(v, 2) == 0 && WordRun(v, 2) == 0;
    assert WordRun(v, 1) == 1;
    assert v[..1] == "1" && v[1..2] == "2";
    assert DigitsValue("1") == 1;
  }

  /** A span in months or years is rejected when the rule is built: neither is a `timedelta` unit. */
  lemma {:induction false} CalendarUnitsRejected(seg: Segment)
    requires seg.delimiter == '%' && ParseDuration(seg.value).Some?
    requires var unit := NormalizeUnit(ParseDuration(seg.value).value.1); unit == "months" || unit == "years"
    ensures MakeRule(seg) == Err(UnknownUnit(NormalizeUnit(ParseDuration(seg.value).value.1)))
  {
  }

  /** `mt<%1month%` is rejected when it is built. */
  lemma {:induction false} MonthsRejected()
    ensures GetRule("mt<%1month%") == Err(UnknownUnit("months"))
  {
    var seg := Segment("mt", '<', '%', "1month", "");
    assert Serialize(seg) == "mt<%1month%";
    GetRuleSerialize(seg);
    MonthsSegmentRejected(seg);
  }

  lemma {:induction false} MonthsSegmentRejected(seg: Segment)
    requires seg == Segment("mt", '<', '%', "1month", "")
    ensures MakeRule(seg) == Err(UnknownUnit("months"))
  {
    assert "1" + "month" == "1month";
    LowerUnchanged("month");
    assert NormalizeUnit("month") == "months";
    SpanRejected("mt", '<', "", "1", "month");
  }

  /** A number written directly before a word that normalises to `months` or `years` is rejected. */
  lemma {:induction false} SpanRejected(key: string, op: char, flags: string, ds: string, u: string)
    requires |ds| >= 1 && forall k | 0 <= k < |ds| :: IsDigit(ds[k])
    requires |u| >= 1 && !IsDigit(u[0]) && forall k | 0 <= k < |u| :: IsWordChar(u[k])
    requires NormalizeUnit(u) == "months" || NormalizeUnit(u) == "years"
    ensures MakeRule(Segment(key, op, '%', ds + u, flags)) == Err(UnknownUnit(NormalizeUnit(u)))
  {
    ParseDurationOf(ds, u);
    CalendarUnitsRejected(Segment(key, op, '%', ds + u, flags));
  }

  /**
   * A date rule written with the text `strftime` gives a date targets that
   * date's midnight: `mt=@2010-01-02@` compares against 2 January 2010.
   */
  lemma {:induction false} DateRuleTargets(key: string, op: char, flags: string, dt: Date)
    requires Valid(dt) && dt.year <= 9999
    ensures MakeRule(Segment(key, op, '@', DateText(dt), flags))
         == Ok(Rule(key, op, '@', flags, 'n' in flags, TimeStamp(Midnight(dt))))
  {
    ParseDateText(dt);
  }
}
