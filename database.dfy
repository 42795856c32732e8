/**
 * `parsedatabase`: reading the text of an MPD database into track records
 * keyed by file path.
 *
 * Every line is stripped first. `songList begin` and `songList end` switch
 * reading on and off; outside a song list every other line is ignored. Inside
 * one, each line is `name: value`; a `key: ` line closes the track being read
 * (storing it under its `file` attribute) and opens a fresh one, and every line
 * then sets the attribute `name.lower()` of the open track (`__dict__` and
 * `__class__` cannot be set to a string). The track open when
 * the text ends is never stored.
 */
module Database {
  import opened Results
  import opened Text
  import opened Keywords

  datatype DbError =
    | MissingSeparator(line: string)    // ValueError: `line.split(": ", 1)` gave one piece
    | NoCurrentTrack(line: string)      // AttributeError: `setattr(None, ...)`
    | SpecialAttribute(line: string)    // TypeError: `__dict__` or `__class__` set to a string

  /** The loop's variables: `parsing`, `track` and `tracks`. */
  datatype DbState = DbState(parsing: bool, current: Option<Track>, tracks: map<string, Track>)

  const INITIAL: DbState := DbState(false, None, map[])

  const BEGIN: string := "songList begin"
  const END: string := "songList end"
  const KEY_PREFIX: string := "key: "

  /**
   * The attributes `setattr` refuses to set to a string on an instance of the
   * classic class `Track`; on `None` only `__class__` is such an attribute.
   */
  const SPECIAL_ATTRIBUTES: set<string> := {"__dict__", "__class__"}
  const CLASS_ATTRIBUTE: string := "__class__"

  /** `tracks[track.file] = track` when there is a track. */
  function Store(tracks: map<string, Track>, current: Option<Track>): (r: map<string, Track>)
    ensures current.None? ==> r == tracks
    ensures current.Some? ==> r.Keys == tracks.Keys + {FileOf(current.value)}
    ensures current.Some? ==> r[FileOf(current.value)] == current.value
    ensures current.Some? ==> forall f | f in tracks && f != FileOf(current.value) :: r[f] == tracks[f]
  {
    match current
    case None => tracks
    case Some(t) => tracks[FileOf(t) := t]
  }

  /** One iteration of the loop of `parsedatabase`. */
  function Step(st: DbState, raw: string): (r: Result<DbState, DbError>)
    ensures r.Err? ==> st.parsing && r.error.line == Strip(raw)
  {
    var line := Strip(raw);
    if line == BEGIN then Ok(st.(parsing := true))
    else if line == END then Ok(st.(parsing := false))
    else if !st.parsing then Ok(st)
    else
      var st1 := if StartsWith(line, KEY_PREFIX) then DbState(true, Some(EmptyTrack()), Store(st.tracks, st.current)) else st;
      match SplitFirst(line, ": ")
      case None => Err(MissingSeparator(line))
      case Some((name, value)) =>
        match st1.current
        case None => if Lower(name) == CLASS_ATTRIBUTE then Err(SpecialAttribute(line)) else Err(NoCurrentTrack(line))
        case Some(t) =>
          if Lower(name) in SPECIAL_ATTRIBUTES then Err(SpecialAttribute(line))
          else Ok(st1.(current := Some(t[Lower(name) := value])))
  }

  /** The loop over all lines, stopping at the first error. */
  function Run(st: DbState, lines: seq<string>): (r: Result<DbState, DbError>)
    ensures r.Err? ==> exists i | 0 <= i < |lines| :: r.error.line == Strip(lines[i])
    decreases |lines|
  {
    if lines == [] then Ok(st)
    else
      match Step(st, lines[0])
      case Err(e) => Err(e)
      case Ok(next) => Run(next, lines[1..])
  }

  /** `parsedatabase(dbFile)` on the lines of the file. */
  function Parse(lines: seq<string>): (r: Result<map<string, Track>, DbError>)
    ensures r.Err? ==> exists i | 0 <= i < |lines| :: r.error.line == Strip(lines[i])
  {
    match Run(INITIAL, lines)
    case Err(e) => Err(e)
    case Ok(st) => Ok(st.tracks)
  }

  /** `parsedatabase`, line by line. */
  method ParseDatabase(lines: seq<string>) returns (r: Result<map<string, Track>, DbError>)
    ensures r == Parse(lines)
  {
    var tracks: map<string, Track> := map[];
    var parsing := false;
    var track: Option<Track> := None;
    assert lines[0..] == lines;
    for i := 0 to |lines|
      invariant Run(INITIAL, lines) == Run(DbState(parsing, track, tracks), lines[i..])
    {
      assert lines[i..][0] == lines[i] && lines[i..][1..] == lines[i + 1..];
      ghost var st := DbState(parsing, track, tracks);
      var line := Strip(lines[i]);
      if line == BEGIN {
        parsing := true;
        assert Step(st, lines[i]) == Ok(DbState(parsing, track, tracks));
        continue;
      }
      if line == END {
        parsing := false;
        assert Step(st, lines[i]) == Ok(DbState(parsing, track, tracks));
        continue;
      }
      if parsing {
        if StartsWith(line, KEY_PREFIX) {
          if track.Some? {
            tracks := tracks[FileOf(track.value) := track.value];
          }
          track := Some(EmptyTrack());
        }
        var parts := SplitFirst(line, ": ");
        if parts.None? {
          assert Step(st, lines[i]) == Err(MissingSeparator(line));
          return Err(MissingSeparator(line));
        }
        var (name, value) := parts.value;
        var attribute := Lower(name);
        if track.None? {
          if attribute == CLASS_ATTRIBUTE {
            assert Step(st, lines[i]) == Err(SpecialAttribute(line));
            return Err(SpecialAttribute(line));
          }
          assert Step(st, lines[i]) == Err(NoCurrentTrack(line));
          return Err(NoCurrentTrack(line));
        }
        if attribute in SPECIAL_ATTRIBUTES {
          assert Step(st, lines[i]) == Err(SpecialAttribute(line));
          return Err(SpecialAttribute(line));
        }
        track := Some(track.value[attribute := value]);
      }
      assert Step(st, lines[i]) == Ok(DbState(parsing, track, tracks));
    }
    assert lines[|lines|..] == [];
    return Ok(tracks);
  }

  // ---------------------------------------------------------------------
  // Properties

  /** Every track is stored under its own path. */
  predicate Keyed(tracks: map<string, Track>)
  {
    forall f | f in tracks :: FileOf(tracks[f]) == f
  }

  lemma {:induction false} StepKeyed(st: DbState, raw: string)
    requires Keyed(st.tracks) && Step(st, raw).Ok?
    ensures Keyed(Step(st, raw).value.tracks)
  {
    StepStores(st, raw);
    StoreKeyed(st.tracks, st.current);
  }

  /** A line that reads without error stores the open track exactly when it is a `key: ` line of a song list. */
  lemma {:induction false} StepStores(st: DbState, raw: string)
    requires Step(st, raw).Ok?
    ensures var line := Strip(raw);
      Step(st, raw).value.tracks
        == if st.parsing && line != BEGIN && line != END && StartsWith(line, KEY_PREFIX)
           then Store(st.tracks, st.current) else st.tracks
  {
    var line := Strip(raw);
    if st.parsing && line != BEGIN && line != END {
      var st1 := if StartsWith(line, KEY_PREFIX) then DbState(true, Some(EmptyTrack()), Store(st.tracks, st.current)) else st;
      var (name, value) := SplitFirst(line, ": ").value;
      assert Step(st, raw) == Ok(st1.(current := Some(st1.current.value[Lower(name) := value])));
    }
  }

  lemma {:induction false} StoreKeyed(tracks: map<string, Track>, current: Option<Track>)
    requires Keyed(tracks)
    ensures Keyed(Store(tracks, current))
  {
  }

  lemma {:induction false} RunKeyed(st: DbState, lines: seq<string>)
    requires Keyed(st.tracks) && Run(st, lines).Ok?
    ensures Keyed(Run(st, lines).value.tracks)
    decreases |lines|
  {
    if lines != [] {
      StepKeyed(st, lines[0]);
      RunKeyed(Step(st, lines[0]).value, lines[1..]);
    }
  }

  /** The map `parsedatabase` returns holds every track under its `file` attribute. */
  lemma {:induction false} ParseKeyed(lines: seq<string>)
    requires Parse(lines).Ok?
    ensures Keyed(Parse(lines).value)
  {
    RunKeyed(INITIAL, lines);
  }

  /** Outside a song list, lines that do not open one change nothing. */
  lemma {:induction false} OutsideIgnored(st: DbState, lines: seq<string>)
    requires !st.parsing
    requires forall i | 0 <= i < |lines| :: Strip(lines[i]) != BEGIN
    ensures Run(st, lines) == Ok(st)
    decreases |lines|
  {
    if lines != [] {
      assert Step(st, lines[0]) == Ok(st);
      OutsideIgnored(st, lines[1..]);
    }
  }

  /** A database with no song list yields no tracks. */
  lemma {:induction false} NoSongListNoTracks(lines: seq<string>)
    requires forall i | 0 <= i < |lines| :: Strip(lines[i]) != BEGIN
    ensures Parse(lines) == Ok(map[])
  {
    OutsideIgnored(INITIAL, lines);
  }

  /**
   * Tracks are stored only by `key: ` lines: after the last one, whatever
   * follows leaves the stored tracks as they are, so the last track read is
   * never stored.
   */
  lemma {:induction false} NoKeyLineKeepsStore(st: DbState, lines: seq<string>)
    requires forall i | 0 <= i < |lines| :: !StartsWith(Strip(lines[i]), KEY_PREFIX)
    requires Run(st, lines).Ok?
    ensures Run(st, lines).value.tracks == st.tracks
    decreases |lines|
  {
    if lines != [] {
      var next := Step(st, lines[0]);
      assert next.Ok? && Run(st, lines) == Run(next.value, lines[1..]);
      StepNoKeyKeeps(st, lines[0]);
      assert forall i | 0 <= i < |lines[1..]| :: lines[1..][i] == lines[i + 1];
      NoKeyLineKeepsStore(next.value, lines[1..]);
    }
  }

  /** A line without the `key: ` prefix never changes the stored tracks. */
  lemma {:induction false} StepNoKeyKeeps(st: DbState, raw: string)
    requires !StartsWith(Strip(raw), KEY_PREFIX) && Step(st, raw).Ok?
    ensures Step(st, raw).value.tracks == st.tracks
  {
    var line := Strip(raw);
    if line != BEGIN && line != END && st.parsing {
      var (name, value) := SplitFirst(line, ": ").value;
      assert Step(st, raw) == Ok(st.(current := Some(st.current.value[Lower(name) := value])));
    }
  }

  /**
   * A `key: value` line inside a song list stores the open track under its
   * path, replacing any track stored there before, and opens a fresh track
   * whose `key` is the value.
   */
  lemma {:induction false} KeyLine(st: DbState, value: string)
    requires st.parsing
    requires value != [] && !IsSpace(value[|value| - 1])
    ensures Step(st, KEY_PREFIX + value) == Ok(DbState(true, Some(EmptyTrack()["key" := value]), Store(st.tracks, st.current)))
  {
    KeyLineShape(value);
  }

  /** How `Step` reads a `key: value` line. */
  lemma {:induction false} KeyLineShape(value: string)
    requires value != [] && !IsSpace(value[|value| - 1])
    ensures var line := KEY_PREFIX + value;
      && Strip(line) == line && line != BEGIN && line != END
      && StartsWith(line, KEY_PREFIX) && SplitFirst(line, ": ") == Some(("key", value))
      && Lower("key") == "key"
  {
    KeyLineStripped(value);
    KeyNotMarker(value);
    KeyLineSplits(value);
    LowerUnchanged("key");
  }

  lemma {:induction false} KeyLineStripped(value: string)
    requires value != [] && !IsSpace(value[|value| - 1])
    ensures Strip(KEY_PREFIX + value) == KEY_PREFIX + value
  {
    var line := KEY_PREFIX + value;
    assert line[0] == 'k' && line[|line| - 1] == value[|value| - 1];
    StripUnchanged(line);
  }

  lemma {:induction false} KeyLineSplits(value: string)
    ensures SplitFirst(KEY_PREFIX + value, ": ") == Some(("key", value))
  {
    assert KEY_PREFIX + value == "key" + ": " + value;
    SplitFirstAfterName("key", value);
  }

  lemma {:induction false} KeyNotMarker(value: string)
    ensures var line := KEY_PREFIX + value; line != BEGIN && line != END && StartsWith(line, KEY_PREFIX)
  {
    var line := KEY_PREFIX + value;
    assert line[3] == ':' && BEGIN[3] != ':' && END[3] != ':';
    assert line[..|KEY_PREFIX|] == KEY_PREFIX;
  }

  /**
   * Any other `Name: value` line inside a song list sets the attribute
   * `name.lower()` of the open track to the value; with no open track it fails.
   */
  lemma {:induction false} AttributeLine(st: DbState, name: string, value: string)
    requires st.parsing
    requires name != [] && !IsSpace(name[0]) && ':' !in name && name != "key"
    requires value != [] && !IsSpace(value[|value| - 1])
    ensures var line := name + ": " + value;
      st.current.None? ==>
        Step(st, line) == Err(if Lower(name) == CLASS_ATTRIBUTE then SpecialAttribute(line) else NoCurrentTrack(line))
    ensures st.current.Some? && Lower(name) in SPECIAL_ATTRIBUTES ==>
      Step(st, name + ": " + value) == Err(SpecialAttribute(name + ": " + value))
    ensures st.current.Some? && Lower(name) !in SPECIAL_ATTRIBUTES ==>
      Step(st, name + ": " + value) == Ok(st.(current := Some(st.current.value[Lower(name) := value])))
  {
    var line := name + ": " + value;
    StripUnchanged(line);
    SplitFirstAfterName(name, value);
    PlainLine(name, value);
  }

  /** `songList begin` switches reading on and changes nothing else. */
  lemma {:induction false} BeginLine(st: DbState)
    ensures Step(st, BEGIN) == Ok(st.(parsing := true))
  {
    assert BEGIN[0] == 's' && BEGIN[|BEGIN| - 1] == 'n';
    StripUnchanged(BEGIN);
  }

  lemma {:induction false} Unfold2<T>(a: T, b: T, rest: seq<T>)
    ensures [a, b] + rest == [a] + ([b] + rest)
  {
  }

  lemma {:induction false} Unfold3<T>(a: T, b: T, c: T, rest: seq<T>)
    ensures [a, b, c] + rest == [a, b] + ([c] + rest)
  {
  }

  /** The loop over a line that reads without error goes on from the state it leaves. */
  lemma {:induction false} RunStep(st: DbState, line: string, rest: seq<string>, next: DbState)
    requires Step(st, line) == Ok(next)
    ensures Run(st, [line] + rest) == Run(next, rest)
  {
    assert ([line] + rest)[0] == line && ([line] + rest)[1..] == rest;
  }

  /** A song list opened by its first `key: ` line leaves that track open and nothing stored. */
  lemma {:induction false} RunOpensTrack(value: string, rest: seq<string>)
    requires value != [] && !IsSpace(value[|value| - 1])
    ensures Run(INITIAL, [BEGIN, KEY_PREFIX + value] + rest)
         == Run(DbState(true, Some(EmptyTrack()["key" := value]), map[]), rest)
  {
    var st1 := INITIAL.(parsing := true);
    BeginLine(INITIAL);
    KeyLine(st1, value);
    assert Store(map[], None) == map[];
    RunStep(st1, KEY_PREFIX + value, rest, DbState(true, Some(EmptyTrack()["key" := value]), map[]));
    Unfold2(BEGIN, KEY_PREFIX + value, rest);
    RunStep(INITIAL, BEGIN, [KEY_PREFIX + value] + rest, st1);
  }

  /**
   * A first track that sets `__dict__` or `__class__`, in any case, makes
   * `parsedatabase` raise at that line, whatever follows.
   */
  lemma {:induction false} SpecialAttributeRaises(value: string, name: string, v: string, rest: seq<string>)
    requires value != [] && !IsSpace(value[|value| - 1])
    requires name != [] && !IsSpace(name[0]) && ':' !in name && Lower(name) in SPECIAL_ATTRIBUTES
    requires v != [] && !IsSpace(v[|v| - 1])
    ensures Parse([BEGIN, KEY_PREFIX + value, name + ": " + v] + rest) == Err(SpecialAttribute(name + ": " + v))
  {
    var line, st := name + ": " + v, DbState(true, Some(EmptyTrack()["key" := value]), map[]);
    var lines := [BEGIN, KEY_PREFIX + value, line] + rest;
    assert lines == [BEGIN, KEY_PREFIX + value] + ([line] + rest) by {
      Unfold3(BEGIN, KEY_PREFIX + value, line, rest);
    }
    assert Run(INITIAL, lines) == Run(st, [line] + rest) by {
      RunOpensTrack(value, [line] + rest);
    }
    assert Run(st, [line] + rest) == Err(SpecialAttribute(line)) by {
      SpecialAttributeLine(st, name, v, rest);
    }
  }

  /** Inside a song list with a track open, setting `__dict__` or `__class__` stops the loop. */
  lemma {:induction false} SpecialAttributeLine(st: DbState, name: string, v: string, rest: seq<string>)
    requires st.parsing && st.current.Some?
    requires name != [] && !IsSpace(name[0]) && ':' !in name && Lower(name) in SPECIAL_ATTRIBUTES
    requires v != [] && !IsSpace(v[|v| - 1])
    ensures Run(st, [name + ": " + v] + rest) == Err(SpecialAttribute(name + ": " + v))
  {
    SpecialNotKey(name);
    AttributeLine(st, name, v);
    RunFails(st, name + ": " + v, rest);
  }

  lemma {:induction false} SpecialNotKey(name: string)
    requires Lower(name) in SPECIAL_ATTRIBUTES
    ensures name != "key"
  {
    LowerUnchanged("key");
  }

  /** The loop stops at a line that raises, with that line's error. */
  lemma {:induction false} RunFails(st: DbState, line: string, rest: seq<string>)
    requires Step(st, line).Err?
    ensures Run(st, [line] + rest) == Err(Step(st, line).error)
  {
    assert ([line] + rest)[0] == line;
  }

  /** A `name: value` line with a colon-free name other than `key` is neither a marker nor a `key: ` line. */
  lemma {:induction false} PlainLine(name: string, value: string)
    requires ':' !in name && name != "key"
    ensures var line := name + ": " + value; line != BEGIN && line != END && !StartsWith(line, KEY_PREFIX)
  {
    var line := name + ": " + value;
    assert line[|name|] == ':';
    assert ':' !in BEGIN && ':' !in END;
    assert |line| >= 5 ==> line[..5] != KEY_PREFIX by {
      if |line| >= 5 {
        if |name| >= 4 {
          assert line[3] == name[3] != KEY_PREFIX[3];
        } else if |name| < 3 {
          assert line[|name|] == ':' != KEY_PREFIX[|name|];
        } else {
          assert line[..5][..3] == name != KEY_PREFIX[..3];
        }
      }
    }
  }

  lemma {:induction false} RunAppend(st: DbState, a: seq<string>, b: seq<string>)
    ensures Run(st, a + b) == (match Run(st, a) case Err(e) => Err(e) case Ok(mid) => Run(mid, b))
    decreases |a|
  {
    if a == [] {
      assert a + b == b;
    } else {
      assert (a + b)[0] == a[0] && (a + b)[1..] == a[1..] + b;
      if Step(st, a[0]).Ok? {
        RunAppend(Step(st, a[0]).value, a[1..], b);
      }
    }
  }

  /**
   * The tracks `parsedatabase` returns are those stored by the last `key: `
   * line: the lines after it, including the track it opened, add nothing.
   */
  lemma {:induction false} LastTrackNotStored(before: seq<string>, after: seq<string>)
    requires forall i | 0 <= i < |after| :: !StartsWith(Strip(after[i]), KEY_PREFIX)
    requires Parse(before + after).Ok?
    ensures Run(INITIAL, before).Ok? && Parse(before + after).value == Run(INITIAL, before).value.tracks
  {
    RunAppend(INITIAL, before, after);
    NoKeyLineKeepsStore(Run(INITIAL, before).value, after);
  }
}
