# mpdspl smart playlists, modelled in Dafny

`mpdspl.py` builds "smart" playlists out of an MPD music database. A playlist
is a name and a rule string such as

    ar=/(Fred|George)/ ti=/when/i mt<%3days%

Each space-separated rule names a track field by a short code (`KEYWORDS`),
gives an operator and a value between delimiters, and may end with flags.
The delimiter picks the kind of rule:

- `/…/` is a regular-expression search (`RegexRule`);
- `%…%` is a time span (`TimeDeltaRule`);
- `@…@` is a calendar date (`TimeStampRule`).

The `n` flag negates a rule. A track is kept when every rule matches it. The
kept tracks' paths are written as an m3u list.

Tracks come from the text of MPD's database (`parsedatabase`). Where the
database lives comes from MPD's configuration file (`parsempdconf`), whose
setting names are camel-cased by `_underscoreToCamelCase`.

The project models all of this and proves properties of it. Each module
follows one part of the program:

- `Keywords` (`keywords.dfy`): `KEYWORDS`, and the track record `Track()` creates.
- `RuleSyntax` (`rulesyntax.dfy`): the pattern `RuleFactory.getRule` matches.
  It follows the backtracking regular-expression matcher exactly.
- `Calendar` (`calendar.dfy`): `time.strptime(value, '%Y-%m-%d')` and `time.mktime`, as `TimeStampRule` uses them.
- `Rules` (`rules.dfy`): the three rule kinds, `RuleFactory.getRule`, and `AbstractRule.match`.
- `Playlists` (`playlists.dfy`): the `Playlist` class, with `findMatchingTracks` and `setM3u`.
- `Database` (`database.dfy`): `parsedatabase`.
- `Config` (`config.dfy`): `_underscoreToCamelCase` and `parsempdconf`.
- `Text` and `Results` (`text.dfy`, `results.dfy`): the string operations the
  program calls (`strip`, `lower`, `capitalize`, `split`, `join`, `replace`,
  `re.split(r'\s+')`) and the `Option` and `Result` types.

Rules are immutable once built, so they are datatypes. A playlist's selected
tracks and m3u text are updated in place, so `Playlist` is a class. Every
error the program raises is a value of an error datatype:

- `RuleError` for errors raised while a rule is built;
- `MatchError` for errors raised while a track is matched;
- `DbError` for the database;
- `ConfigError` for the configuration file.

Each loop of the program is a method proved equal to a function. These loops
are:

- the flag loop of `RegexRule.__init__`;
- both loops of `findMatchingTracks`;
- the loop of `_underscoreToCamelCase`;
- the loops of `parsempdconf` and `parsedatabase`.

The inner rule loop of `findMatchingTracks` is its own method
(`Playlist.Admit`) so that each proof stays small.

Where the program's own documentation and its code differ, the model follows
the code:

- A rule's key is any run of word characters. An unknown key fails only when a
  track is matched (`KeyError` at line 63), not when the rule is built.
- An operator a kind does not support also fails only at match time
  (`getOperator`, line 60). This applies to a regex rule with `<`, for example.
- `RegexRule` accepts only the flags `i` and `l`. The flag `n` raises there,
  so a regex rule can never be negated.
- `timedelta` does not take months or years, so `%1month%` fails when the rule
  is built.
- A time-span rule compares against `timedelta.seconds`. That is the part of
  the span below one day, so whole days and weeks give 0.
- `strptime` accepts one-digit months and days, and a blank-padded day.

Python integers are unbounded, like Dafny's, so no wrap-around is modelled.
`timedelta` refuses spans above 999999999 days, and the model does the same
(`DurationOverflow`).

## Model

| member | source | states |
|---|---|---|
| `Keywords.EmptyTrack` | mpdspl.py:212-216 | a fresh track has exactly the lower-cased attribute names of `KEYWORDS`, each set to the empty string |
| `Keywords.AttributeNames` | mpdspl.py:32-42 | the attributes the rule codes read, lower-cased, are exactly artist, album, title, track, genre, date, time, file, key, mtime and rating, the attribute set every track has |
| `RuleSyntax.LineEnd` | mpdspl.py:155 | `.` stops at the first newline: the result is the first newline at or after the start, or the end of the text |
| `RuleSyntax.LastIndex` | mpdspl.py:155 | finds the last occurrence of the delimiter in a range; the greedy `.+` backs off to that position |
| `RuleSyntax.MatchWithKey` | mpdspl.py:153-156 | a match with a fixed key has that key and one of the three delimiters |
| `RuleSyntax.MatchWithKeySound` | mpdspl.py:153-156 | a match with a fixed key: the groups spell out a prefix of the input, the value is non-empty without a newline, the flags are word characters, and the text after the match does not start with a word character |
| `RuleSyntax.MatchWithKeyLast` | mpdspl.py:155 | the value of a match ends at the last delimiter before the next newline |
| `RuleSyntax.TryKeys` | mpdspl.py:153-156 | backtracking over key lengths: a match found is the one at its key length, and no longer key length up to the limit has a match; no match is found only when no key length has one |
| `RuleSyntax.ParseSegment` | mpdspl.py:153-156 | `re.match` of the rule pattern: a match always has one of the three delimiters |
| `RuleSyntax.ParseSound` | mpdspl.py:153-158 | a successful parse has groups the pattern allows, matches a prefix of the input, its key is the longest run of word characters that leaves a match, and its value runs to the last delimiter before the next newline |
| `RuleSyntax.ParseNone` | mpdspl.py:153-158 | the pattern fails exactly when no key length within the leading run of word characters has a match |
| `RuleSyntax.ParseComplete` | mpdspl.py:153-158 | any text made of a key, an operator, a delimiter, a non-empty newline-free value and the delimiter again, followed by anything, parses |
| `RuleSyntax.ParseSerialize` | mpdspl.py:153-156 | round trip: well-formed groups whose operator is not a word character parse back to themselves from the text they spell |
| `RuleSyntax.SerializedMatch` | mpdspl.py:153-156 | the text spelled by well-formed groups matches with exactly those groups once the key length is fixed |
| `RuleSyntax.MatchAt` | mpdspl.py:155 | when the closing delimiter is at a given position and only flag characters follow it, the match has exactly those groups |
| `Calendar.Midnight` | mpdspl.py:137 | the instant of a date's midnight is a whole number of days since the epoch |
| `Calendar.MonthAt` | mpdspl.py:136 | the `%m` field gives a month from 1 to 12, written with one or two digits whose value it is, and followed by `-` |
| `Calendar.DayAt` | mpdspl.py:136 | the `%d` field gives a day from 1 to 31, written with one or two digits whose value it is, or a blank and one digit |
| `Calendar.ParseDate` | mpdspl.py:136 | `strptime` accepts only dates that exist |
| `Calendar.ParseDateText` | mpdspl.py:136 | round trip: the `YYYY-MM-DD` text of any existing date of years 1 to 9999 is read back as that very date |
| `Calendar.PaddedDigitsValue` | mpdspl.py:142 | zero-padded digits of a number that fits read back as that number |
| `Calendar.EpochIsZero` | mpdspl.py:137 | 1970-01-01 is instant 0 |
| `Calendar.DaysBeforeMonthYear` | mpdspl.py:137 | the months of a year add up to the length of that year |
| `Calendar.DaysBeforeNextYear` | mpdspl.py:137 | the day count before a year grows by exactly the length of the year before it |
| `Calendar.OrdinalMonotone` | mpdspl.py:137 | a later date has a larger day number |
| `Calendar.MidnightMonotone` | mpdspl.py:136-137 | the midnights of two different dates are at least one day apart, in calendar order |
| `Rules.RegexFlags` | mpdspl.py:79-84 | compiling the flags fails only with an unknown-flag error |
| `Rules.CompileRegexFlags` | mpdspl.py:82-84 | the flag loop computes the flags of `RegexFlags`, including failing at the first flag that has no entry |
| `Rules.RegexFlagsSpec` | mpdspl.py:76-84 | flags compile exactly when all of them are `i` or `l`. The result holds IGNORECASE if there is an `i` and LOCALE if there is an `l`. Otherwise the error names the first bad flag |
| `Rules.RegexNeverNegated` | mpdspl.py:54 | no regex rule is negated, because `n` has no entry in `FLAGS` |
| `Rules.RegexRuleNotNegated` | mpdspl.py:54 | the same for a rule built from any segment |
| `Rules.ParseDuration` | mpdspl.py:99-107 | a parsed duration has a non-empty unit, and a value that does not start with a digit does not parse |
| `Rules.ParseDurationMatch` | mpdspl.py:99-107 | a parsed duration is a match of `\d+\s*\w+`: a run of digits whose value is the number, blanks, then the unit as a run of word characters |
| `Rules.ParseDurationOf` | mpdspl.py:105-110 | a number written directly before a unit word reads back as that number and that unit |
| `Rules.ParseDurationBacktracks` | mpdspl.py:99-107 | `12` reads as number 1 with unit `2`; a lone digit does not parse |
| `Rules.NormalizeUnit` | mpdspl.py:110-112 | the unit is lower-cased, keeps its letters as a prefix, gains at most one character, and ends in `s` |
| `Rules.NormalizeUnitSpec` | mpdspl.py:110-112 | the normalised unit has no upper-case letter, and normalising it again changes nothing |
| `Rules.DeltaSeconds` | mpdspl.py:114-115 | the threshold lies in [0, 86400), and the only failures are an unknown unit and an overflow |
| `Rules.DeltaSecondsSpec` | mpdspl.py:114-115 | unit by unit: seconds, minutes and hours give the span's seconds modulo one day, milliseconds and microseconds their whole seconds modulo one day, days and weeks 0; each overflows exactly when the span exceeds 999999999 days; any other unit, months and years included, is unknown |
| `Rules.DayDurationsZero` | mpdspl.py:114-115 | a built time-span rule in days or weeks has threshold 0 |
| `Rules.CalendarUnitsRejected` | mpdspl.py:109-114 | a time span whose unit normalises to `months` or `years` fails to build with an unknown-unit error naming that unit |
| `Rules.SpanRejected` | mpdspl.py:105-114 | a number written directly before a word that normalises to `months` or `years` fails to build |
| `Rules.MonthsRejected` | mpdspl.py:109-162 | the rule text `mt<%1month%` fails in `getRule` with an unknown-unit error for `months` |
| `Rules.MakeRule` | mpdspl.py:161-162 | building a rule from parsed groups never reports a malformed rule string |
| `Rules.GetRule` | mpdspl.py:152-162 | "Could not parse rule" is raised exactly when the pattern does not match; a built rule is negated exactly when `n` is a flag, and its kind is the one its delimiter names |
| `Rules.GetRuleDispatch` | mpdspl.py:147-162 | a built rule has the key, operator, delimiter and flags of the match. It is negated exactly when `n` is a flag. Its kind follows the delimiter (`/` regex, `%` time span, `@` date), and its payload comes from the value |
| `Rules.MakeRuleDispatch` | mpdspl.py:161-162 | the same, for the rule built from any segment |
| `Rules.GetRuleSerialize` | mpdspl.py:153-162 | the text spelled by well-formed groups builds exactly the rule those groups describe |
| `Rules.DateRuleTargets` | mpdspl.py:132-137 | a date rule written with a date's `YYYY-MM-DD` text compares against that date's midnight, so `mt=@2010-01-02@` targets 2 January 2010 |
| `Rules.ParseIntSpec` | mpdspl.py:118 | `int()` accepts exactly stripped text made of an optional sign, blanks after the sign, and digits. It gives the value those digits spell, negated after `-` |
| `Rules.ParseIntSignBlanks` | mpdspl.py:118 | a sign, any blanks and digits read back as the signed number, so `int("- 5")` is -5 |
| `Rules.ParseWholeSpec` | mpdspl.py:141 | `float()` accepts, as a whole number, exactly stripped text made of an optional sign directly followed by digits. It gives the value those digits spell, negated after `-` |
| `Rules.ParseWholeSignBlank` | mpdspl.py:141 | `float()` refuses a sign followed by a blank |
| `Rules.KindMatch` | mpdspl.py:86-144 | a kind's comparison fails only with an unsupported operator, a field that is not a number (read by `int()` for a time span, by `float()` for a date), or, for a date, a field whose day the round trip through `gmtime`, `strftime`, `strptime` and `mktime` refuses. A regex rule succeeds exactly with `=`. A time-span rule succeeds exactly with a table operator and a number. A date rule succeeds exactly with a number, a day the round trip keeps and a table operator |
| `Rules.Match` | mpdspl.py:62-68 | an unknown key fails exactly when the key is not in `KEYWORDS`; otherwise the result is the kind's comparison on the key's attribute, inverted exactly when the rule is negated |
| `Rules.NegationInverts` | mpdspl.py:62-68 | flipping `negate` flips every successful match result and leaves every error unchanged |
| `Rules.MatchErrors` | mpdspl.py:59-68 | which error a match raises, and in what order. The key is checked first. A regex rule then fails exactly for an operator other than `=`. A time-span rule checks the operator before the number; a date rule checks the number first. A date rule whose day the round trip refuses fails with a date-range error. With a known key, a table operator and a number (and, for a date rule, a day the round trip keeps), matching succeeds |
| `Rules.TimeDeltaMeaning` | mpdspl.py:117-118 | `=`, `<` and `>` compare the field's number with the threshold as `==`, `<=` and `>=`, field on the left; any other operator fails |
| `Rules.DayStartSpec` | mpdspl.py:139-143 | the truncated instant is the unique multiple of a day that is at most one day before the instant |
| `Calendar.DayOfMidnight` | mpdspl.py:141-142 | every instant of a date's day lies on that date, and its day starts at the date's midnight |
| `Calendar.OrdinalInYear` | mpdspl.py:141-142 | a date's day number lies within its year |
| `Calendar.YearsLater1900` | mpdspl.py:143 | a year from 69 to 99 and the year 1900 later are both leap or both common, a fixed number of days apart |
| `Calendar.YearsLater2000` | mpdspl.py:143 | the same for a year from 1 to 68 and the year 2000 later |
| `Calendar.FieldMidnightOfFourDigitYear` | mpdspl.py:141-143 | the round trip of an instant of years 1900 to 9999 gives the midnight starting its day |
| `Calendar.FieldMidnightFourDigits` | mpdspl.py:141-143 | an instant on a date of years 1900 to 9999 comes back as that date's midnight |
| `Calendar.FieldMidnightRefused` | mpdspl.py:141-143 | an instant on a date of years 100 to 1899, or of year 10000 on, makes the round trip raise: `strftime` and `mktime` refuse the first, and `strptime` reads only four year digits |
| `Calendar.FieldMidnightNineteenth` | mpdspl.py:141-143 | an instant on a date of years 69 to 99 comes back as the midnight of the same day 1900 years later, which is a valid date |
| `Calendar.FieldMidnightTwentieth` | mpdspl.py:141-143 | an instant on a date of years 1 to 68 comes back as the midnight of the same day 2000 years later, which is a valid date |
| `Calendar.FieldMidnightBeforeYearOne` | mpdspl.py:141-143 | an instant of year 0 comes back as a day of year 2000; instants before year 0 make the round trip raise |
| `Rules.SameDayMatchesAlike` | mpdspl.py:139-144 | two instants on the same UTC day give the same date-rule result, or both make the rule fail with a date-range error |
| `Rules.TimeStampWindow` | mpdspl.py:126-144 | date rules select by day, for fields holding instants of years 1900 to 9999: `=@d@` selects instants on day d, `<@d@` instants before the end of day d, and `>@d@` instants from the start of day d, each inverted by `n` |
| `Rules.WindowOf` | mpdspl.py:139-144 | the same day windows, for any date rule whose midnight is a whole day and a field of years 1900 to 9999 |
| `Playlists.ParseRules` | mpdspl.py:176-177 | when every piece parses, there is one rule per piece, in order, and each is what parsing that piece gives |
| `Playlists.PlaylistRules` | mpdspl.py:172-177 | the rules of a playlist are, one per piece of the rule string split on whitespace runs, what `getRule` gives for that piece |
| `Playlists.ParseRulesError` | mpdspl.py:176-177 | parsing fails exactly when some piece is not a rule, and it fails with the first such piece's error |
| `Playlists.BlankEdgesFail` | mpdspl.py:172-177 | an empty rule string, or one with whitespace at either end, cannot build a playlist. An empty string or leading whitespace fails on the empty first piece |
| `Playlists.PlaylistRulesJoin` | mpdspl.py:172-177 | rules written with single spaces between them give a playlist with exactly those rules, in order |
| `Playlists.Scan` | mpdspl.py:181-191 | the outer loop keeps at most as many tracks as there are records |
| `Playlists.Files` | mpdspl.py:196 | one path per track, in order |
| `Playlists.Render` | mpdspl.py:196 | the m3u text is never empty and always ends with a newline |
| `Playlists.Playlist.constructor` | mpdspl.py:174-178 | a new playlist has its name and rules, no tracks and no m3u text |
| `Playlists.Playlist.Parse` | mpdspl.py:174-178 | `Playlist(name, ruleString)` fails with the parse error, or gives a fresh playlist with the parsed rules and no tracks |
| `Playlists.Playlist.SetM3u` | mpdspl.py:195-196 | the m3u text becomes the tracks' paths joined by newlines, with a final newline; the tracks are unchanged |
| `Playlists.Playlist.Admit` | mpdspl.py:184-188 | the inner loop's verdict for one track is `Admits`: rules are tried in order, leaving at the first that does not match, and an error is passed on |
| `Playlists.Playlist.FindMatchingTracks` | mpdspl.py:180-193 | the kept tracks and the error are those of `Scan`. With no error the m3u text is rendered from the kept tracks; after an error it is left as it was |
| `Playlists.AdmitsPasses` | mpdspl.py:184-191 | the short-circuit loop admits a track exactly when every rule matches it |
| `Playlists.AdmitsStops` | mpdspl.py:184-188 | a track that is not admitted gets the outcome of the first rule that does not match it: a rejection or that rule's error |
| `Playlists.AdmitsRejects` | mpdspl.py:186-188 | a track whose first non-matching rule returns false is rejected |
| `Playlists.ScanNoRules` | mpdspl.py:180-191 | a playlist without rules keeps every record, in order |
| `Playlists.ScanSelects` | mpdspl.py:180-191 | a scan with no error keeps exactly the records that every rule matches, in their order |
| `Playlists.ScanFails` | mpdspl.py:180-193 | the scan fails exactly when some record makes a rule raise before any rule rejects it |
| `Playlists.ScanFailsAt` | mpdspl.py:180-193 | a failed scan reports the first such record's error and keeps what the records before it selected |
| `Playlists.SelectedSound` | mpdspl.py:184-191 | every selected record passes every rule, and the selection is an in-order subsequence of the records |
| `Playlists.SelectedComplete` | mpdspl.py:184-191 | every record that passes every rule is selected |
| `Playlists.RenderEmpty` | mpdspl.py:196 | an empty selection renders as a single newline |
| `Playlists.JoinLines` | mpdspl.py:196 | newline-free lines joined by newlines, plus a final newline, split back into those lines followed by one empty piece |
| `Playlists.RenderLines` | mpdspl.py:195-196 | if no path contains a newline, reading the m3u text line by line gives the paths in order, then one empty piece |
| `Database.Store` | mpdspl.py:381-382 | storing the open track adds it under its path, replaces whatever was stored under that path, and keeps every other entry |
| `Database.Step` | mpdspl.py:369-386 | one line of the loop fails only inside a song list, and the error names the stripped line |
| `Database.StepStores` | mpdspl.py:380-383 | a line that reads without error stores the open track exactly when it is a `key: ` line inside a song list; every other line leaves the stored tracks as they were |
| `Database.Run` | mpdspl.py:366-388 | the loop's error names one of the input lines |
| `Database.Parse` | mpdspl.py:361-388 | `parsedatabase` fails only with an error naming one of its lines |
| `Database.ParseDatabase` | mpdspl.py:361-388 | the line loop computes `Parse`: the tracks stored when the lines end, or the first error |
| `Database.StepKeyed` | mpdspl.py:380-383 | one line keeps every stored track under its own path |
| `Database.RunKeyed` | mpdspl.py:366-388 | any run of lines keeps every stored track under its own path |
| `Database.ParseKeyed` | mpdspl.py:361-388 | the returned map holds every track under its `file` attribute |
| `Database.OutsideIgnored` | mpdspl.py:372-379 | outside a song list, lines that do not open one change nothing |
| `Database.NoSongListNoTracks` | mpdspl.py:361-388 | a database without `songList begin` yields no tracks |
| `Database.NoKeyLineKeepsStore` | mpdspl.py:380-383 | lines without a `key: ` prefix never change the stored tracks |
| `Database.RunAppend` | mpdspl.py:366-388 | reading two blocks of lines equals reading the first, then the second from the resulting state |
| `Database.LastTrackNotStored` | mpdspl.py:380-388 | the result holds the tracks stored by the last `key: ` line; the track still open at the end is never stored |
| `Database.KeyLine` | mpdspl.py:380-386 | inside a song list, a `key: v` line stores the open track under its path and opens a fresh track whose `key` is v |
| `Database.AttributeLine` | mpdspl.py:385-386 | inside a song list, any other `Name: v` line sets attribute `name.lower()` of the open track to v, unless `name.lower()` is `__dict__` or `__class__`. `Track` is a classic class, so `setattr` refuses to set those two to a string and raises `TypeError`. With no track open the line fails with `AttributeError`, or with `TypeError` for `__class__` |
| `Database.SpecialAttributeLine` | mpdspl.py:385-386 | with a track open, a `__dict__` or `__class__` line (in any case) stops the loop with `TypeError` at that line, whatever follows |
| `Database.SpecialAttributeRaises` | mpdspl.py:361-386 | a database whose first track sets `__dict__` or `__class__` makes `parsedatabase` raise `TypeError` at that line, as `songList begin`, `key: a`, `__class__: x` does |
| `Database.PlainLine` | mpdspl.py:372-380 | a `name: value` line whose name has no colon and is not `key` is neither a song-list marker nor a `key: ` line |
| `Config.CamelCase` | mpdspl.py:330-335 | a name without underscores is returned unchanged |
| `Config.UnderscoreToCamelCase` | mpdspl.py:330-335 | the loop computes `CamelCase`: the first token, then each later token capitalised |
| `Config.CamelCaseSpec` | mpdspl.py:330-335 | the result starts with the first token unchanged and contains no underscore |
| `Config.CamelCaseSplit` | mpdspl.py:330-335 | `first_rest` becomes `first` followed by the capitalised first token of `rest`, then its later tokens capitalised |
| `Config.CamelCaseOneJoin` | mpdspl.py:330-335 | `first_rest` with an underscore-free `rest` becomes `first` followed by `rest` capitalised |
| `Config.CamelCaseTwo` | mpdspl.py:330-335 | `first_rest` with a lower-case, underscore-free `rest` becomes `first` followed by `rest` with its first letter raised, as `db_file` becomes `dbFile` |
| `Config.CapitalizeLower` | mpdspl.py:334 | `capitalize()` of a lower-case word raises its first letter only |
| `Config.CapitalizeFree` | mpdspl.py:334 | capitalising never produces an underscore |
| `Config.CapitalizeAllFree` | mpdspl.py:333-334 | capitalising underscore-free tokens and concatenating them produces no underscore |
| `Config.CapitalizeAllAppend` | mpdspl.py:333-334 | the tokens contribute their capitalised forms in order |
| `Config.Unquote` | mpdspl.py:347 | the result is at most two characters shorter than the value, and a value in double quotes loses exactly those quotes |
| `Config.UnquoteSpec` | mpdspl.py:347 | one pair of surrounding double quotes is removed. A lone leading quote is removed, as is a lone trailing quote, so `"/srv/music` and `/srv/music"` both become `/srv/music`, and `"` alone becomes empty. A value with no quote at either end is unchanged |
| `Config.WithHome` | mpdspl.py:350-354 | a value that is neither `~` nor holds `~/` is unchanged |
| `Config.WithHomeRemovesTilde` | mpdspl.py:350-352 | with a user whose name has no `~`, a value that needs the fix-up keeps no `~` |
| `Config.WithHomeParts` | mpdspl.py:350-352 | with a user given, a value with one `~` that is `~` itself or starts `~/` has that `~` replaced by the user's name; any other such value is unchanged |
| `Config.WithHomeNoTilde` | mpdspl.py:350 | a value with no `~` is left unchanged |
| `Config.ConfigLine` | mpdspl.py:341-356 | a line fails only with the error that names the stripped line |
| `Config.ConfigLineSkips` | mpdspl.py:341-343 | blank lines and lines containing `#`, `{` or `}` set nothing. Any other line fails exactly when it has no whitespace inside |
| `Config.ConfigLineKey` | mpdspl.py:345 | every setting's name contains no underscore |
| `Config.Settings` | mpdspl.py:339-358 | settings are only ever added or overwritten: every name set before is still set after |
| `Config.ParseMpdConf` | mpdspl.py:338-358 | the line loop computes `Settings`: each setting from its line, later lines overwriting earlier ones, or the first error |
| `Config.SettingsAppend` | mpdspl.py:340-356 | reading two blocks of lines equals reading the first, then the second from the resulting settings |
| `Config.SettingsKeep` | mpdspl.py:356 | lines that set other names leave a name's value, or its absence, unchanged |
| `Config.LastSettingWins` | mpdspl.py:340-356 | the last line that sets a name decides its value |
| `Text.Lower` | mpdspl.py:110 | `lower()` keeps the length and lower-cases each character |
| `Text.LowerUnchanged` | mpdspl.py:110 | text without upper-case letters is its own `lower()` |
| `Text.Capitalize` | mpdspl.py:334 | `capitalize()` keeps the length, upper-cases the first character and lower-cases the rest |
| `Text.Strip` | mpdspl.py:341 | `strip()` gives the text found between leading and trailing whitespace: a piece of the input with only whitespace before and after it, and no whitespace at either of its own ends |
| `Text.StripUnchanged` | mpdspl.py:369 | text with no whitespace at either end is unchanged by `strip()` |
| `Text.FindFrom` | mpdspl.py:385 | finds the first occurrence of the pattern at or after the starting index, or reports that there is none |
| `Text.SplitFirst` | mpdspl.py:385 | a successful `split(": ", 1)` gives a name and a value that rejoin around the separator to the line |
| `Text.SplitFirstSpec` | mpdspl.py:385 | `split(": ", 1)` succeeds exactly when the separator occurs. The text is the name, the separator and the value, with no earlier occurrence of the separator |
| `Text.SplitFirstAfterName` | mpdspl.py:385 | a `name: value` line whose name has no colon splits into that name and that value |
| `Text.Split` | mpdspl.py:331 | `split('_')` gives at least one piece, and no piece contains the separator |
| `Text.Join` | mpdspl.py:196 | a join starts with the first piece, and the separator follows it when there is a second |
| `Text.JoinSplit` | mpdspl.py:331 | joining the pieces of a split with its separator gives back the text |
| `Text.SplitJoin` | mpdspl.py:196 | splitting a join of separator-free pieces gives back the pieces |
| `Text.SplitOnSpaceRuns` | mpdspl.py:172-177 | `re.split(r'\s+')` gives at least one piece, and no piece contains whitespace |
| `Text.SplitOnSpaceRunsJoin` | mpdspl.py:172-177 | splitting non-empty, whitespace-free pieces joined by single spaces gives back the pieces |
| `Text.SplitOnSpaceRunsEmptyPieces` | mpdspl.py:172-177 | an empty string splits into one empty piece. Leading whitespace gives an empty first piece, and trailing whitespace gives an empty last piece |
| `Text.SplitOnFirstSpaceRun` | mpdspl.py:343 | `re.split(r'\s+', line, 1)` fails exactly when the line has no whitespace; otherwise the line is the first piece, which has no whitespace, a run of whitespace, and the second piece, which does not start with whitespace |
| `Text.ReplaceCharRemoves` | mpdspl.py:352 | replacing a character by text without it leaves none of it |
| `Text.ReplaceCharUnchanged` | mpdspl.py:352 | text without the character is unchanged |
| `Text.ReplaceCharAt` | mpdspl.py:352 | every occurrence is replaced: the text on either side of one is replaced on its own, and the occurrence becomes the replacement |

## Left out

- Command-line parsing, help text, `RuleFactory.help`, and saving or loading playlists (`getSaveFile`, `save`, `getM3uPath`, `writeM3u`, `savegubbage`, `loadgubbage`) are not modelled. They are I/O and presentation.
- The top-level script (lines 419 onwards) is not modelled, and neither is `parseargs`'s merging of options with the configuration.
- `parseStickerDB` is not modelled: it reads ratings from an SQLite database.
- Files are not read. `parsedatabase` and `parsempdconf` take the file's lines as a sequence.
- `os.path.expanduser` is a function parameter of `parsempdconf`, and the MPD user is an optional parameter.
- The regular-expression engine (`re.search` with IGNORECASE and LOCALE) is a function parameter of matching (`Searcher`). Only the flag bits passed to it are modelled.
- `Rules.MatchErrors`: the `Searcher` parameter is a total function, so a pattern that `re.search` refuses to compile (`ti=/(/`, which `getRule` accepts) matches here instead of raising `re.error` when a track is matched. A regex rule therefore fails in the model only for an operator other than `=`.
- `findMatchingTracks` iterates over a Python dictionary (`tracks.values()`), whose order is not specified. The model takes the records as a sequence in iteration order.
- `Rules.KindMatch`: for a date rule, the field is read by `float()` in its whole-number forms only (an optional sign directly followed by digits). Decimal, exponent, `inf` and `nan` forms that `float()` accepts are not modelled, and they give a `NotAnInteger` error here.
- `Calendar.Midnight`: `time.mktime` and `time.gmtime` are taken in UTC. Local time zones and daylight saving are not modelled.
- `Calendar.Midnight`: Python 2's `time.mktime` and `time.strftime` refuse years 100 to 1899, and with `time.accept2dyear` set they read years 1 to 99 as 1969 to 2068. The model gives every year from 1 on its proleptic Gregorian midnight, so `mt=@1850-01-01@` builds here but not in the program, and `@0050-01-01@` targets year 50 rather than 2050.
- Text is a sequence of characters. Python 2's `\w`, `\s` and `\d` are taken in their ASCII meaning, and `lower` and `capitalize` change ASCII letters only.
- `__repr__` is not modelled.
