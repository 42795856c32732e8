/**
 * `parsempdconf`: the settings of an MPD configuration file, and
 * `_underscoreToCamelCase`, which turns the file's setting names into the
 * names the program uses (`db_file` becomes `dbFile`).
 *
 * Every line is stripped; empty lines and lines holding `#`, `{` or `}` are
 * skipped. Any other line is a name, whitespace, and a value; the value loses
 * one leading and one trailing double quote, and a value that is `~` or holds
 * `~/` has its home directory filled in: every `~` becomes the user's name
 * when a user is given, otherwise the value goes through `expanduser`, which
 * is a parameter here. Later lines overwrite earlier ones.
 */
module Config {
  import opened Results
  import opened Text

  // ---------------------------------------------------------------------
  // _underscoreToCamelCase

  /** `token.capitalize()` for every token, concatenated. */
  function CapitalizeAll(tokens: seq<string>): string
  {
    if tokens == [] then "" else Capitalize(tokens[0]) + CapitalizeAll(tokens[1..])
  }

  /** `_underscoreToCamelCase(s)`: the first `_`-separated token as it is, every later one capitalised. */
  function CamelCase(s: string): (r: string)
    ensures '_' !in s ==> r == s
  {
    var tokens := Split(s, '_');
    tokens[0] + CapitalizeAll(tokens[1..])
  }

  /** `_underscoreToCamelCase`, with its loop over the tokens after the first. */
  method UnderscoreToCamelCase(s: string) returns (r: string)
    ensures r == CamelCase(s)
  {
    var tokens := Split(s, '_');
    r := tokens[0];
    for i := 1 to |tokens|
      invariant r + CapitalizeAll(tokens[i..]) == CamelCase(s)
    {
      assert tokens[i..][0] == tokens[i] && tokens[i..][1..] == tokens[i + 1..];
      r := r + Capitalize(tokens[i]);
    }
    assert tokens[|tokens|..] == [];
  }

  // ---------------------------------------------------------------------
  // One line of the configuration file

  datatype ConfigError =
    | MissingValue(line: string)   // ValueError: `re.split(r'\s+', line, 1)` gave one piece

  /** `re.sub(r'(^"|"$)', '', value)`: one leading and one trailing double quote removed. */
  function Unquote(v: string): (r: string)
    ensures |v| - 2 <= |r| <= |v|
    ensures |v| >= 2 && v[0] == '"' && v[|v| - 1] == '"' ==> r == v[1..|v| - 1]
  {
    var rest := if v != [] && v[0] == '"' then v[1..] else v;
    if rest != [] && rest[|rest| - 1] == '"' then rest[..|rest| - 1] else rest
  }

  /** `re.search(r'[#{}]', line)` */
  predicate IsSkipped(line: string)
  {
    '#' in line || '{' in line || '}' in line
  }

  /** The test `value == '~' or value.count('~/') > 0`. */
  predicate NeedsHome(value: string)
  {
    value == "~" || Contains(value, "~/")
  }

  /** `if user:` */
  predicate HasUser(user: Option<string>)
  {
    user.Some? && user.value != ""
  }

  /** The home-directory fix-up of a value: a value that needs none is left as it is. */
  function WithHome(value: string, user: Option<string>, expand: string -> string): (r: string)
    ensures !NeedsHome(value) ==> r == value
  {
    if !NeedsHome(value) then value
    else if HasUser(user) then ReplaceChar(value, '~', user.value)
    else expand(value)
  }

  /** With a user given whose name has no `~`, no `~` remains after the fix-up. */
  lemma WithHomeRemovesTilde(value: string, user: Option<string>, expand: string -> string)
    requires NeedsHome(value) && HasUser(user) && '~' !in user.value
    ensures '~' !in WithHome(value, user, expand)
  {
    ReplaceCharRemoves(value, '~', user.value);
  }

  /** One iteration of the loop of `parsempdconf`: the setting a line makes, if any. */
  function ConfigLine(raw: string, user: Option<string>, expand: string -> string): (r: Result<Option<(string, string)>, ConfigError>)
    ensures r.Err? ==> r == Err(MissingValue(Strip(raw)))
  {
    var line := Strip(raw);
    if line == [] || IsSkipped(line) then Ok(None)
    else
      match SplitOnFirstSpaceRun(line)
      case None => Err(MissingValue(line))
      case Some((name, value)) => Ok(Some((CamelCase(name), WithHome(Unquote(value), user, expand))))
  }

  /** The loop of `parsempdconf` from the settings `dict` on, stopping at the first error. */
  function Settings(dict: map<string, string>, lines: seq<string>, user: Option<string>, expand: string -> string): (r: Result<map<string, string>, ConfigError>)
    ensures r.Ok? ==> dict.Keys <= r.value.Keys
    decreases |lines|
  {
    if lines == [] then Ok(dict)
    else
      match ConfigLine(lines[0], user, expand)
      case Err(e) => Err(e)
      case Ok(None) => Settings(dict, lines[1..], user, expand)
      case Ok(Some((k, v))) => Settings(dict[k := v], lines[1..], user, expand)
  }

  /** `parsempdconf(configFile, user)` on the lines of the file. */
  method ParseMpdConf(lines: seq<string>, user: Option<string>, expand: string -> string) returns (r: Result<map<string, string>, ConfigError>)
    ensures r == Settings(map[], lines, user, expand)
  {
    var configDict: map<string, string> := map[];
    assert lines[0..] == lines;
    for i := 0 to |lines|
      invariant Settings(map[], lines, user, expand) == Settings(configDict, lines[i..], user, expand)
    {
      assert lines[i..][0] == lines[i] && lines[i..][1..] == lines[i + 1..];
      var line := Strip(lines[i]);
      if line != [] && !IsSkipped(line) {
        var parts := SplitOnFirstSpaceRun(line);
        if parts.None? {
          return Err(MissingValue(line));
        }
        var (name, value) := parts.value;
        var key := UnderscoreToCamelCase(name);
        value := Unquote(value);
        if NeedsHome(value) {
          if HasUser(user) {
            value := ReplaceChar(value, '~', user.value);
          } else {
            value := expand(value);
          }
        }
        configDict := configDict[key := value];
      }
    }
    assert lines[|lines|..] == [];
    return Ok(configDict);
  }

  // ---------------------------------------------------------------------
  // Properties: camel case

  lemma {:induction false} CapitalizeAllFree(tokens: seq<string>)
    requires forall i | 0 <= i < |tokens| :: '_' !in tokens[i]
    ensures '_' !in CapitalizeAll(tokens)
  {
    if tokens != [] {
      CapitalizeAllFree(tokens[1..]);
      CapitalizeFree(tokens[0]);
    }
  }

  lemma {:induction false} CapitalizeFree(s: string)
    requires '_' !in s
    ensures '_' !in Capitalize(s)
  {
    if s != [] {
      var r := Capitalize(s);
      assert forall i | 1 <= i < |s| :: r[i] == Lower(s[1..])[i - 1] == LowerChar(s[i]) != '_';
      assert r[0] == UpperChar(s[0]) != '_';
    }
  }

  /** Camel case keeps the first token as it is and leaves no underscore. */
  lemma {:induction false} CamelCaseSpec(s: string)
    ensures StartsWith(CamelCase(s), Split(s, '_')[0])
    ensures '_' !in CamelCase(s)
  {
    var tokens := Split(s, '_');
    CapitalizeAllFree(tokens[1..]);
    assert CamelCase(s)[..|tokens[0]|] == tokens[0];
  }

  /** Each later token contributes its capitalised form, in order. */
  lemma {:induction false} CapitalizeAllAppend(a: seq<string>, b: seq<string>)
    ensures CapitalizeAll(a + b) == CapitalizeAll(a) + CapitalizeAll(b)
  {
    if a == [] {
      assert a + b == b;
    } else {
      assert (a + b)[0] == a[0] && (a + b)[1..] == a[1..] + b;
      CapitalizeAllAppend(a[1..], b);
    }
  }

  /** `first_rest` is `first` followed by the camel case of `rest` with its first letter raised. */
  lemma {:induction false} CamelCaseSplit(first: string, rest: string)
    requires '_' !in first
    ensures CamelCase(first + "_" + rest) == first + Capitalize(Split(rest, '_')[0]) + CapitalizeAll(Split(rest, '_')[1..])
  {
    var s := first + "_" + rest;
    IndexOfAfterFree(first, '_', rest);
    assert s[..|first|] == first && s[|first| + 1..] == rest;
    var tail := Split(rest, '_');
    assert Split(s, '_') == [first] + tail;
    assert CapitalizeAll(tail) == Capitalize(tail[0]) + CapitalizeAll(tail[1..]);
  }

  /** `first_rest` with a lower-case, underscore-free `rest` becomes `first` + `Rest` (`db_file` gives `dbFile`). */
  lemma {:induction false} CamelCaseTwo(first: string, rest: string)
    requires '_' !in first && '_' !in rest && rest != []
    requires forall i | 0 <= i < |rest| :: 'a' <= rest[i] <= 'z'
    ensures CamelCase(first + "_" + rest) == first + [UpperChar(rest[0])] + rest[1..]
  {
    CamelCaseOneJoin(first, rest);
    CapitalizeLower(rest);
  }

  /** `first_rest` with an underscore-free `rest` is `first` followed by `rest` capitalised. */
  lemma {:induction false} CamelCaseOneJoin(first: string, rest: string)
    requires '_' !in first && '_' !in rest
    ensures CamelCase(first + "_" + rest) == first + Capitalize(rest)
  {
    CamelCaseSplit(first, rest);
    var tokens := Split(rest, '_');
    assert tokens == [rest];
    assert tokens[1..] == [];
    assert CapitalizeAll(tokens[1..]) == "";
    assert first + Capitalize(tokens[0]) + "" == first + Capitalize(rest);
  }

  /** `capitalize` of a word in lower case raises its first letter only. */
  lemma {:induction false} CapitalizeLower(w: string)
    requires w != [] && forall i | 0 <= i < |w| :: 'a' <= w[i] <= 'z'
    ensures Capitalize(w) == [UpperChar(w[0])] + w[1..]
  {
    LowerUnchanged(w[1..]);
  }

  // ---------------------------------------------------------------------
  // Properties: one line

  /** Quotes around a value are removed, and nothing else. */
  lemma {:induction false} UnquoteSpec(x: string)
    ensures Unquote("\"" + x + "\"") == x
    ensures x == [] || (x[0] != '"' && x[|x| - 1] != '"') ==> Unquote(x) == x
    ensures x == [] || x[|x| - 1] != '"' ==> Unquote("\"" + x) == x
    ensures x == [] || x[0] != '"' ==> Unquote(x + "\"") == x
  {
    assert ("\"" + x + "\"")[1..] == x + "\"";
    assert (x + "\"")[..|x|] == x;
  }

  /**
   * Blank lines, comments and lines that open or close a block make no
   * setting; any other line without whitespace inside is an error.
   */
  lemma {:induction false} ConfigLineSkips(raw: string, user: Option<string>, expand: string -> string)
    ensures Strip(raw) == [] || IsSkipped(Strip(raw)) ==> ConfigLine(raw, user, expand) == Ok(None)
    ensures Strip(raw) != [] && !IsSkipped(Strip(raw)) ==>
      (ConfigLine(raw, user, expand) == Err(MissingValue(Strip(raw))) <==> NoSpace(Strip(raw)))
  {
    var line := Strip(raw);
    if line != [] && !IsSkipped(line) && !NoSpace(line) {
      var k :| 0 <= k < |line| && IsSpace(line[k]);
      assert NonSpaceRun(line, 0) < |line|;
    }
  }

  /**
   * A value with a single `~`, given a user: when the value is `~` itself or
   * the `~` starts `~/`, the `~` becomes the user's name; otherwise the value
   * is left as it is.
   */
  lemma {:induction false} WithHomeParts(a: string, b: string, user: Option<string>, expand: string -> string)
    requires HasUser(user) && '~' !in a && '~' !in b
    ensures WithHome(a + "~" + b, user, expand)
         == if (a == [] && b == []) || (b != [] && b[0] == '/') then a + user.value + b else a + "~" + b
  {
    var v := a + "~" + b;
    TildeSlashAt(a, b);
    if (a == [] && b == []) || (b != [] && b[0] == '/') {
      assert NeedsHome(v) by {
        if b != [] {
          assert OccursAt(v, "~/", |a|) by { assert v[|a|..|a| + 2] == "~/"; }
        }
      }
      ReplaceCharAt(a, '~', b, user.value);
      ReplaceCharUnchanged(a, '~', user.value);
      ReplaceCharUnchanged(b, '~', user.value);
    }
  }

  /** In a value with a single `~`, `~/` can only occur at that `~`. */
  lemma {:induction false} TildeSlashAt(a: string, b: string)
    requires '~' !in a && '~' !in b
    ensures Contains(a + "~" + b, "~/") ==> b != [] && b[0] == '/'
    ensures a + "~" + b == "~" <==> a == [] && b == []
  {
    var v := a + "~" + b;
    if Contains(v, "~/") {
      var k := FindFrom(v, "~/", 0).value;
      assert v[k] == '~' && v[k + 1] == '/' by { assert v[k..k + 2] == "~/"; }
      assert v[k + 1] == b[0];
    }
    if v == "~" {
      assert |v| == 1;
    }
  }

  /** A value with no `~` at all is left as it is. */
  lemma {:induction false} WithHomeNoTilde(value: string, user: Option<string>, expand: string -> string)
    requires '~' !in value
    ensures WithHome(value, user, expand) == value
  {
    forall k: nat | k + 2 <= |value|
      ensures !OccursAt(value, "~/", k)
    {
      assert value[k..k + 2][0] == value[k] != '~';
    }
  }

  /** Every setting's name is camel-cased, so it has no underscore. */
  lemma {:induction false} ConfigLineKey(raw: string, user: Option<string>, expand: string -> string)
    requires ConfigLine(raw, user, expand).Ok? && ConfigLine(raw, user, expand).value.Some?
    ensures '_' !in ConfigLine(raw, user, expand).value.value.0
  {
    var (name, value) := SplitOnFirstSpaceRun(Strip(raw)).value;
    CamelCaseSpec(name);
  }

  // ---------------------------------------------------------------------
  // Properties: the whole file

  lemma {:induction false} SettingsAppend(dict: map<string, string>, a: seq<string>, b: seq<string>, user: Option<string>, expand: string -> string)
    ensures Settings(dict, a + b, user, expand)
         == (match Settings(dict, a, user, expand) case Err(e) => Err(e) case Ok(mid) => Settings(mid, b, user, expand))
    decreases |a|
  {
    if a == [] {
      assert a + b == b;
    } else {
      assert (a + b)[0] == a[0] && (a + b)[1..] == a[1..] + b;
      match ConfigLine(a[0], user, expand)
      case Err(_) =>
      case Ok(None) => SettingsAppend(dict, a[1..], b, user, expand);
      case Ok(Some((k, v))) => SettingsAppend(dict[k := v], a[1..], b, user, expand);
    }
  }

  lemma {:induction false} SettingsKeep(dict: map<string, string>, lines: seq<string>, user: Option<string>, expand: string -> string, key: string)
    requires Settings(dict, lines, user, expand).Ok?
    requires forall i | 0 <= i < |lines| :: ConfigLine(lines[i], user, expand).Ok? && ConfigLine(lines[i], user, expand).value.Some? ==>
      ConfigLine(lines[i], user, expand).value.value.0 != key
    ensures key in dict ==> key in Settings(dict, lines, user, expand).value && Settings(dict, lines, user, expand).value[key] == dict[key]
    ensures key !in dict ==> key !in Settings(dict, lines, user, expand).value
    decreases |lines|
  {
    if lines != [] {
      var tail := lines[1..];
      assert forall i | 0 <= i < |tail| :: tail[i] == lines[i + 1];
      match ConfigLine(lines[0], user, expand)
      case Ok(None) =>
        assert Settings(dict, lines, user, expand) == Settings(dict, tail, user, expand);
        SettingsKeep(dict, tail, user, expand, key);
      case Ok(Some((k, v))) =>
        assert k != key;
        assert Settings(dict, lines, user, expand) == Settings(dict[k := v], tail, user, expand);
        SettingsKeep(dict[k := v], tail, user, expand, key);
    }
  }

  /**
   * The last line that sets a name decides its value: later lines that set
   * other names, or none, leave it alone.
   */
  lemma {:induction false} LastSettingWins(before: seq<string>, line: string, after: seq<string>, user: Option<string>, expand: string -> string)
    requires ConfigLine(line, user, expand).Ok? && ConfigLine(line, user, expand).value.Some?
    requires Settings(map[], before + [line] + after, user, expand).Ok?
    requires forall i | 0 <= i < |after| :: ConfigLine(after[i], user, expand).Ok? && ConfigLine(after[i], user, expand).value.Some? ==>
      ConfigLine(after[i], user, expand).value.value.0 != ConfigLine(line, user, expand).value.value.0
    ensures var (k, v) := ConfigLine(line, user, expand).value.value;
      k in Settings(map[], before + [line] + after, user, expand).value
      && Settings(map[], before + [line] + after, user, expand).value[k] == v
  {
    var (k, v) := ConfigLine(line, user, expand).value.value;
    SettingsAppend(map[], before + [line], after, user, expand);
    SettingsAppend(map[], before, [line], user, expand);
    var mid := Settings(map[], before, user, expand).value;
    assert [line][1..] == [];
    assert Settings(map[], before + [line], user, expand) == Ok(mid[k := v]);
    SettingsKeep(mid[k := v], after, user, expand, k);
  }
}
