/**
 * `Playlist`: a named rule set, the tracks it selects from a database and the
 * m3u text listing them.
 *
 * A playlist's rule string is split on runs of whitespace and every piece
 * must be a rule; a track is selected when every rule matches it, rules being
 * tried in order and the first one that does not match ending the test. An
 * error raised while matching aborts the whole selection: the tracks selected
 * so far stay in the playlist and the m3u text is not (re)computed.
 */
module Playlists {
  import opened Results
  import opened Text
  import opened Keywords
  import opened Rules

  // ---------------------------------------------------------------------
  // Rules of a playlist

  /**
   * `[parse(r) for r in pieces]` where each `parse` may raise: the first piece
   * that fails ends the list. The rules of a playlist use `RuleFactory.getRule`.
   */
  function ParseRules(parse: string -> Result<Rule, RuleError>, pieces: seq<string>): (r: Result<seq<Rule>, RuleError>)
    ensures r.Ok? ==> |r.value| == |pieces| && forall i | 0 <= i < |pieces| :: parse(pieces[i]) == Ok(r.value[i])
  {
    if pieces == [] then Ok([])
    else
      match parse(pieces[0])
      case Err(e) => Err(e)
      case Ok(rule) =>
        match ParseRules(parse, pieces[1..])
        case Err(e) => Err(e)
        case Ok(rest) =>
          assert forall i | 1 <= i < |pieces| :: pieces[i] == pieces[1..][i - 1];
          Ok([rule] + rest)
  }

  /** The rules of `Playlist(name, ruleString)`: `Playlist.REGEX.split(ruleString)`, each piece a rule. */
  function PlaylistRules(ruleString: string): (r: Result<seq<Rule>, RuleError>)
    ensures var pieces := SplitOnSpaceRuns(ruleString);
      r.Ok? ==> |r.value| == |pieces| && forall i | 0 <= i < |pieces| :: GetRule(pieces[i]) == Ok(r.value[i])
  {
    ParseRules(GetRule, SplitOnSpaceRuns(ruleString))
  }

  // ---------------------------------------------------------------------
  // Selection

  /** The inner loop of `findMatchingTracks`: rules in order, stopping at the first that does not match. */
  function Admits(rules: seq<Rule>, t: Track, search: Searcher): Result<bool, MatchError>
  {
    if rules == [] then Ok(true)
    else
      match Match(rules[0], t, search)
      case Err(e) => Err(e)
      case Ok(b) => if b then Admits(rules[1..], t, search) else Ok(false)
  }

  /** Every rule matches the track. */
  predicate Passes(rules: seq<Rule>, t: Track, search: Searcher)
  {
    forall i | 0 <= i < |rules| :: Match(rules[i], t, search) == Ok(true)
  }

  /**
   * The outer loop of `findMatchingTracks`: the tracks kept, in order, and the
   * error that ended the scan early, if any.
   */
  function Scan(rules: seq<Rule>, records: seq<Track>, search: Searcher): (r: (seq<Track>, Option<MatchError>))
    ensures |r.0| <= |records|
  {
    if records == [] then ([], None)
    else
      match Admits(rules, records[0], search)
      case Err(e) => ([], Some(e))
      case Ok(b) =>
        var rest := Scan(rules, records[1..], search);
        ((if b then [records[0]] else []) + rest.0, rest.1)
  }

  /** A scan result after the tracks `kept` were already appended. */
  function Prepend(kept: seq<Track>, r: (seq<Track>, Option<MatchError>)): (seq<Track>, Option<MatchError>)
  {
    (kept + r.0, r.1)
  }

  /** The records every rule matches, in their order. */
  function Selected(rules: seq<Rule>, records: seq<Track>, search: Searcher): seq<Track>
  {
    if records == [] then []
    else (if Passes(rules, records[0], search) then [records[0]] else []) + Selected(rules, records[1..], search)
  }

  /** `a` is `b` with some elements dropped, the rest kept in order. */
  predicate IsSubsequence<T(==)>(a: seq<T>, b: seq<T>)
  {
    if a == [] then true
    else if b == [] then false
    else (a[0] == b[0] && IsSubsequence(a[1..], b[1..])) || IsSubsequence(a, b[1..])
  }

  // ---------------------------------------------------------------------
  // m3u text

  function Files(tracks: seq<Track>): (r: seq<string>)
    ensures |r| == |tracks| && forall i | 0 <= i < |tracks| :: r[i] == FileOf(tracks[i])
  {
    seq(|tracks|, i requires 0 <= i < |tracks| => FileOf(tracks[i]))
  }

  /** `'\n'.join([track.file for track in tracks]) + '\n'` */
  function Render(tracks: seq<Track>): (r: string)
    ensures |r| >= 1 && r[|r| - 1] == '\n'
  {
    Join(Files(tracks), '\n') + "\n"
  }

  // ---------------------------------------------------------------------
  // The playlist object

  class Playlist {
    const name: string
    const rules: seq<Rule>
    /** The tracks the last selection kept. */
    var tracks: seq<Track>
    /** The m3u text; `None` until a selection completes. */
    var m3u: Option<string>

    /** The object `Playlist.__init__` builds once its rules are parsed. */
    constructor (name: string, rules: seq<Rule>)
      ensures this.name == name && this.rules == rules
      ensures tracks == [] && m3u == None
    {
      this.name := name;
      this.rules := rules;
      tracks := [];
      m3u := None;
    }

    /** `Playlist(name, ruleString)`: fails with the error of the first piece that is not a rule. */
    static method Parse(name: string, ruleString: string) returns (r: Result<Playlist, RuleError>)
      ensures PlaylistRules(ruleString).Err? ==> r == Err(PlaylistRules(ruleString).error)
      ensures PlaylistRules(ruleString).Ok? ==>
        && r.Ok? && fresh(r.value)
        && r.value.name == name && r.value.rules == PlaylistRules(ruleString).value
        && r.value.tracks == [] && r.value.m3u == None
    {
      match PlaylistRules(ruleString)
      case Err(e) =>
        r := Err(e);
      case Ok(rules) =>
        var p := new Playlist(name, rules);
        r := Ok(p);
    }

    /** `setM3u` */
    method SetM3u()
      modifies this
      ensures m3u == Some(Render(tracks))
      ensures tracks == old(tracks)
    {
      m3u := Some(Render(tracks));
    }

    /**
     * The inner loop of `findMatchingTracks` for one track: `toAdd` after the
     * rules are tried in order, leaving at the first that does not match; an
     * error from a rule is passed on.
     */
    method Admit(track: Track, search: Searcher) returns (r: Result<bool, MatchError>)
      ensures r == Admits(rules, track, search)
    {
      var toAdd := true;
      var j := 0;
      while j < |rules|
        invariant 0 <= j <= |rules|
        invariant Admits(rules, track, search) == Admits(rules[j..], track, search)
      {
        assert rules[j..][0] == rules[j] && rules[j..][1..] == rules[j + 1..];
        var m := Match(rules[j], track, search);
        if m.Err? {
          return Err(m.error);
        }
        if !m.value {
          toAdd := false;
          break;
        }
        j := j + 1;
      }
      assert toAdd ==> rules[j..] == [];
      return Ok(toAdd);
    }

    /**
     * `findMatchingTracks(records)`: keeps the records every rule matches and
     * renders them; an error from a rule ends the scan with the tracks kept so
     * far and the m3u text untouched.
     */
    method FindMatchingTracks(records: seq<Track>, search: Searcher) returns (failure: Option<MatchError>)
      modifies this
      ensures (tracks, failure) == Scan(rules, records, search)
      ensures failure.None? ==> m3u == Some(Render(tracks))
      ensures failure.Some? ==> m3u == old(m3u)
    {
      tracks := [];
      assert records[0..] == records;
      assert [] + Scan(rules, records, search).0 == Scan(rules, records, search).0;
      for i := 0 to |records|
        invariant Scan(rules, records, search) == Prepend(tracks, Scan(rules, records[i..], search))
        invariant m3u == old(m3u)
      {
        var track := records[i];
        ScanUnfold(rules, records, i, search);
        var verdict := Admit(track, search);
        if verdict.Err? {
          assert tracks + [] == tracks;
          return Some(verdict.error);
        }
        var head: seq<Track> := if verdict.value then [track] else [];
        PrependPrepend(tracks, head, Scan(rules, records[i + 1..], search));
        tracks := tracks + head;
      }
      assert records[|records|..] == [];
      assert tracks + [] == tracks;
      SetM3u();
      return None;
    }
  }

  /** One step of `Scan` at index `i`. */
  lemma {:induction false} ScanUnfold(rules: seq<Rule>, records: seq<Track>, i: nat, search: Searcher)
    requires i < |records|
    ensures Scan(rules, records[i..], search)
         == match Admits(rules, records[i], search)
            case Err(e) => ([], Some(e))
            case Ok(b) => Prepend(if b then [records[i]] else [], Scan(rules, records[i + 1..], search))
  {
    assert records[i..][0] == records[i] && records[i..][1..] == records[i + 1..];
  }

  lemma {:induction false} PrependPrepend(a: seq<Track>, b: seq<Track>, r: (seq<Track>, Option<MatchError>))
    ensures Prepend(a, Prepend(b, r)) == Prepend(a + b, r)
  {
    assert a + (b + r.0) == (a + b) + r.0;
  }

  // ---------------------------------------------------------------------
  // Properties: rules of a playlist

  /** Parsing fails exactly when some piece is not a rule, and reports the first such piece's error. */
  lemma {:induction false} ParseRulesError(parse: string -> Result<Rule, RuleError>, pieces: seq<string>)
    ensures ParseRules(parse, pieces).Err? <==> exists i | 0 <= i < |pieces| :: parse(pieces[i]).Err?
    ensures ParseRules(parse, pieces).Err? ==> exists i | 0 <= i < |pieces| ::
      && parse(pieces[i]) == Err(ParseRules(parse, pieces).error)
      && forall j | 0 <= j < i :: parse(pieces[j]).Ok?
  {
    if pieces != [] {
      var tail := pieces[1..];
      ParseRulesError(parse, tail);
      assert forall i | 1 <= i < |pieces| :: pieces[i] == tail[i - 1];
      if ParseRules(parse, pieces).Err? && parse(pieces[0]).Ok? {
        var i :| 0 <= i < |tail| && parse(tail[i]) == Err(ParseRules(parse, tail).error)
          && forall j | 0 <= j < i :: parse(tail[j]).Ok?;
        assert parse(pieces[i + 1]) == Err(ParseRules(parse, pieces).error);
      }
    }
  }

  /**
   * `re.split` leaves an empty piece for an empty rule string and for
   * whitespace at either end, and the empty piece is not a rule: such a
   * playlist cannot be built. An empty string or leading whitespace fails on
   * that very piece.
   */
  lemma {:induction false} BlankEdgesFail(ruleString: string)
    requires ruleString == "" || IsSpace(ruleString[0]) || IsSpace(ruleString[|ruleString| - 1])
    ensures PlaylistRules(ruleString).Err?
    ensures ruleString == "" || IsSpace(ruleString[0]) ==> PlaylistRules(ruleString) == Err(MalformedRule(""))
  {
    var pieces := SplitOnSpaceRuns(ruleString);
    SplitOnSpaceRunsEmptyPieces(ruleString);
    assert GetRule("") == Err(MalformedRule("")) by {
      assert RuleSyntax.ParseSegment("") == None;
    }
    if ruleString != "" && !IsSpace(ruleString[0]) {
      assert pieces[|pieces| - 1] == "";
      ParseRulesError(GetRule, pieces);
    }
  }

  /** Rules written one after another, separated by single spaces, give a playlist with exactly those rules. */
  lemma {:induction false} PlaylistRulesJoin(xs: seq<string>)
    requires |xs| >= 1
    requires forall i | 0 <= i < |xs| :: xs[i] != [] && NoSpace(xs[i]) && GetRule(xs[i]).Ok?
    ensures PlaylistRules(Join(xs, ' ')).Ok?
    ensures var rules := PlaylistRules(Join(xs, ' ')).value;
      |rules| == |xs| && forall i | 0 <= i < |xs| :: rules[i] == GetRule(xs[i]).value
  {
    SplitOnSpaceRunsJoin(xs);
    ParseRulesError(GetRule, xs);
  }

  // ---------------------------------------------------------------------
  // Properties: selection

  /** The short-circuit loop admits a track exactly when every rule matches it. */
  lemma {:induction false} AdmitsPasses(rules: seq<Rule>, t: Track, search: Searcher)
    ensures Admits(rules, t, search) == Ok(true) <==> Passes(rules, t, search)
  {
    if rules != [] {
      var tail := rules[1..];
      AdmitsPasses(tail, t, search);
      assert forall i | 1 <= i < |rules| :: rules[i] == tail[i - 1];
      if Match(rules[0], t, search) != Ok(true) {
        assert !Passes(rules, t, search);
      }
    }
  }

  /** `rules[i]` is the first rule whose outcome on `t` is not `Ok(true)`, and that outcome is `m`. */
  predicate FirstOutcome(rules: seq<Rule>, t: Track, search: Searcher, i: int, m: Result<bool, MatchError>)
  {
    && 0 <= i < |rules|
    && Match(rules[i], t, search) == m
    && forall j | 0 <= j < i :: Match(rules[j], t, search) == Ok(true)
  }

  /**
   * When the loop does not admit a track, its outcome is that of the first rule
   * that does not match: a rejection, or the error that rule raised.
   */
  lemma {:induction false} AdmitsStops(rules: seq<Rule>, t: Track, search: Searcher)
    requires Admits(rules, t, search) != Ok(true)
    ensures exists i :: FirstOutcome(rules, t, search, i, Admits(rules, t, search))
  {
    var tail := rules[1..];
    if Match(rules[0], t, search) == Ok(true) {
      AdmitsStops(tail, t, search);
      var i :| FirstOutcome(tail, t, search, i, Admits(tail, t, search));
      assert forall j | 1 <= j <= i + 1 :: rules[j] == tail[j - 1];
      assert FirstOutcome(rules, t, search, i + 1, Admits(rules, t, search));
    } else {
      assert FirstOutcome(rules, t, search, 0, Admits(rules, t, search));
    }
  }

  /** The rule that fixes the outcome is unique: a track with a first rejecting rule is rejected. */
  lemma {:induction false} AdmitsRejects(rules: seq<Rule>, t: Track, search: Searcher, i: int)
    requires FirstOutcome(rules, t, search, i, Ok(false))
    ensures Admits(rules, t, search) == Ok(false)
  {
    if i > 0 {
      var tail := rules[1..];
      assert forall j | 1 <= j <= i :: rules[j] == tail[j - 1];
      assert FirstOutcome(tail, t, search, i - 1, Ok(false));
      AdmitsRejects(tail, t, search, i - 1);
    }
  }

  /** Without rules every record is kept. */
  lemma {:induction false} ScanNoRules(records: seq<Track>, search: Searcher)
    ensures Scan([], records, search) == (records, None)
  {
    if records != [] {
      ScanNoRules(records[1..], search);
      assert [records[0]] + records[1..] == records;
    }
  }

  /** A scan that meets no error keeps exactly the records every rule matches, in order. */
  lemma {:induction false} ScanSelects(rules: seq<Rule>, records: seq<Track>, search: Searcher)
    requires Scan(rules, records, search).1.None?
    ensures Scan(rules, records, search).0 == Selected(rules, records, search)
  {
    if records != [] {
      var t, tail := records[0], records[1..];
      AdmitsPasses(rules, t, search);
      assert Admits(rules, t, search).Ok?;
      var head: seq<Track> := if Passes(rules, t, search) then [t] else [];
      assert Scan(rules, records, search).0 == head + Scan(rules, tail, search).0;
      ScanSelects(rules, tail, search);
      assert Selected(rules, records, search) == head + Selected(rules, tail, search);
    }
  }

  /** The scan fails exactly when some record makes a rule fail before any rule rejects it. */
  lemma {:induction false} ScanFails(rules: seq<Rule>, records: seq<Track>, search: Searcher)
    ensures Scan(rules, records, search).1.Some? <==> exists i | 0 <= i < |records| :: Admits(rules, records[i], search).Err?
  {
    if records != [] {
      var tail := records[1..];
      ScanFails(rules, tail, search);
      assert forall i | 1 <= i < |records| :: records[i] == tail[i - 1];
    }
  }

  /**
   * A failed scan reports the error of the first record on which a rule
   * failed, and keeps what the records before it selected.
   */
  lemma {:induction false} ScanFailsAt(rules: seq<Rule>, records: seq<Track>, search: Searcher, i: int)
    requires 0 <= i < |records| && Admits(rules, records[i], search).Err?
    requires forall j | 0 <= j < i :: Admits(rules, records[j], search).Ok?
    ensures Scan(rules, records, search) == (Scan(rules, records[..i], search).0, Some(Admits(rules, records[i], search).error))
  {
    var e := Admits(rules, records[i], search).error;
    if i == 0 {
      assert Scan(rules, records[..0], search).0 == [];
    } else {
      var tail := records[1..];
      assert forall j | 0 <= j < |tail| :: tail[j] == records[j + 1];
      ScanFailsAt(rules, tail, search, i - 1);
      var prefix := records[..i];
      assert prefix[0] == records[0] && prefix[1..] == tail[..i - 1];
      var b := Admits(rules, records[0], search).value;
      var head: seq<Track> := if b then [records[0]] else [];
      assert Scan(rules, records, search) == (head + Scan(rules, tail, search).0, Scan(rules, tail, search).1);
      assert Scan(rules, prefix, search).0 == head + Scan(rules, tail[..i - 1], search).0;
    }
  }

  /** The selected records all pass every rule and keep their relative order. */
  lemma {:induction false} SelectedSound(rules: seq<Rule>, records: seq<Track>, search: Searcher)
    ensures forall i | 0 <= i < |Selected(rules, records, search)| :: Passes(rules, Selected(rules, records, search)[i], search)
    ensures IsSubsequence(Selected(rules, records, search), records)
  {
    if records != [] {
      SelectedSound(rules, records[1..], search);
      var rest := Selected(rules, records[1..], search);
      if Passes(rules, records[0], search) {
        var sel := [records[0]] + rest;
        assert sel[1..] == rest;
        assert forall i | 1 <= i < |sel| :: sel[i] == rest[i - 1];
      } else {
        assert Selected(rules, records, search) == rest;
        SubsequenceOfTail(rest, records);
      }
    }
  }

  lemma {:induction false} SubsequenceOfTail<T>(a: seq<T>, b: seq<T>)
    requires b != [] && IsSubsequence(a, b[1..])
    ensures IsSubsequence(a, b)
  {
  }

  /** Every record that passes every rule is selected. */
  lemma {:induction false} SelectedComplete(rules: seq<Rule>, records: seq<Track>, search: Searcher)
    ensures forall i | 0 <= i < |records| :: Passes(rules, records[i], search) ==> records[i] in Selected(rules, records, search)
  {
    if records != [] {
      SelectedComplete(rules, records[1..], search);
      assert forall i | 1 <= i < |records| :: records[i] == records[1..][i - 1];
    }
  }

  // ---------------------------------------------------------------------
  // Properties: m3u text

  /** No tracks: the m3u text is a single empty line. */
  lemma {:induction false} RenderEmpty()
    ensures Render([]) == "\n"
  {
  }

  lemma {:induction false} JoinSnoc(xs: seq<string>, y: string, c: char)
    requires |xs| >= 1
    ensures Join(xs + [y], c) == Join(xs, c) + [c] + y
  {
    if |xs| > 1 {
      JoinSnoc(xs[1..], y, c);
      assert (xs + [y])[1..] == xs[1..] + [y];
    }
  }

  /** Lines with no newline in them, joined and terminated by newlines, split back into those lines and an empty tail. */
  lemma {:induction false} JoinLines(fs: seq<string>)
    requires |fs| >= 1 && forall i | 0 <= i < |fs| :: '\n' !in fs[i]
    ensures Split(Join(fs, '\n') + "\n", '\n') == fs + [""]
  {
    JoinSnoc(fs, "", '\n');
    assert Join(fs, '\n') + "\n" == Join(fs + [""], '\n');
    SplitJoin(fs + [""], '\n');
  }

  /**
   * Some tracks, none with a newline in its path: reading the m3u text back
   * line by line gives the paths in order, then the empty text after the
   * final newline.
   */
  lemma {:induction false} RenderLines(tracks: seq<Track>)
    requires |tracks| >= 1
    requires forall i | 0 <= i < |tracks| :: '\n' !in FileOf(tracks[i])
    ensures Split(Render(tracks), '\n') == Files(tracks) + [""]
  {
    JoinLines(Files(tracks));
  }
}
