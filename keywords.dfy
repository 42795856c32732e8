/**
 * The field registry (`KEYWORDS`) and the track record it shapes.
 * A rule names a field by a short code; the code maps to the name of the
 * track attribute it reads (lower-cased at lookup) and a description for help text.
 */
module Keywords {
  import opened Text

  /** `KEYWORDS`: rule code -> (attribute name as written, description). */
  const KEYWORDS: map<string, (string, string)> :=
    map[
      "ar" := ("Artist", "Artist"),
      "al" := ("Album", "Album"),
      "ti" := ("Title", "Title"),
      "tn" := ("Track", "Track number"),
      "ge" := ("Genre", "Genre"),
      "ye" := ("Date", "Track year"),
      "le" := ("Time", "Track duration (in seconds)"),
      "fp" := ("file", "File full path"),
      "fn" := ("key", "File name"),
      "mt" := ("mtime", "File modification time"),
      "ra" := ("Rating", "Track rating")
    ]

  /** The attribute a rule code reads: `KEYWORDS[code][0].lower()`. */
  function AttributeOf(code: string): string
    requires code in KEYWORDS
  {
    Lower(KEYWORDS[code].0)
  }

  /** Every attribute a fresh `Track()` starts with (`AttributeNames` shows it is that of every code). */
  const ATTRIBUTES: set<string> :=
    {"artist", "album", "title", "track", "genre", "date", "time", "file", "key", "mtime", "rating"}

  /**
   * A track record: attribute name -> text value. `Track()` creates every
   * keyword attribute and `setattr` only adds or overwrites, so every track
   * has all of them.
   */
  type Track = t: map<string, string> | ATTRIBUTES <= t.Keys
    witness map a | a in ATTRIBUTES :: ""

  /** `Track()`: every keyword attribute set to the empty string, nothing else. */
  function EmptyTrack(): (t: Track)
    ensures t.Keys == ATTRIBUTES
    ensures forall a | a in t :: t[a] == ""
  {
    map a | a in ATTRIBUTES :: ""
  }

  /** The attributes the rule codes read, lower-cased, are exactly `ATTRIBUTES`. */
  lemma {:induction false} AttributeNames()
    ensures ATTRIBUTES == set code | code in KEYWORDS :: AttributeOf(code)
  {
    assert AttributeOf("ar") == "artist";
    assert AttributeOf("al") == "album";
    assert AttributeOf("ti") == "title";
    assert AttributeOf("tn") == "track";
    assert AttributeOf("ge") == "genre";
    assert AttributeOf("ye") == "date";
    assert AttributeOf("le") == "time";
    assert AttributeOf("fp") == "file";
    assert AttributeOf("fn") == "key";
    assert AttributeOf("mt") == "mtime";
    assert AttributeOf("ra") == "rating";
  }

  /** `track.file` */
  function FileOf(t: Track): string
  {
    t["file"]
  }
}
