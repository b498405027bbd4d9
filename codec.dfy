/**
 * The metadata an ink carries in its private comment: a JSON object whose key
 * `swatch<year>` holds `{date, theme?, theme_description?}` for that year, next to
 * any other keys, which every write passes through untouched.
 *
 * The JSON text itself is not modelled: a comment is its raw text together with
 * what `json.loads` makes of it, and a write returns the object that
 * `json.dumps` would serialise.
 */
module Codec {
  import opened Wrappers
  import opened Text
  import opened Calendar

  /**
   * A decoded JSON value: a string, an object, a list, or any other value
   * (number, boolean, null), of which only its truthiness matters here.
   */
  datatype Json = JStr(s: string) | JObj(fields: map<string, Json>) | JList(items: seq<Json>) | JOther(truthy: bool)

  /** Python truthiness of a decoded value. */
  predicate Truthy(j: Json) {
    match j
    case JStr(s) => s != ""
    case JObj(m) => m != map[]
    case JList(xs) => xs != []
    case JOther(t) => t
  }

  /** A `private_comment`: its text (`""` also stands for a missing comment) and the result of `json.loads` on it, `None` where that raises. */
  datatype CommentText = CommentText(raw: string, decoded: Option<Json>)

  /** `parse_comment_json`: the decoded value, or `{}` for an empty or undecodable comment. */
  function ParseComment(c: CommentText): (r: Json)
    ensures c.raw == "" || c.decoded.None? ==> r == JObj(map[])
    ensures c.raw != "" && c.decoded.Some? ==> r == c.decoded.value
  {
    if c.raw == "" then JObj(map[])
    else match c.decoded
      case None => JObj(map[])
      case Some(v) => v
  }

  /** The comment decodes to an object (otherwise `data.get` raises in the source). */
  predicate ObjectComment(c: CommentText) {
    ParseComment(c).JObj?
  }

  /** `f"swatch{year}"` */
  function SwatchKey(year: nat): string {
    "swatch" + NatToString(year)
  }

  lemma SwatchKeyInjective(y1: nat, y2: nat)
    requires y1 != y2
    ensures SwatchKey(y1) != SwatchKey(y2)
  {
    if SwatchKey(y1) == SwatchKey(y2) {
      assert NatToString(y1) == SwatchKey(y1)[6..];
      NatToStringInjective(y1, y2);
    }
  }

  /** `m.get(k)` */
  function Lookup(m: map<string, Json>, k: string): (r: Option<Json>)
    ensures r.Some? <==> k in m
    ensures r.Some? ==> r.value == m[k]
  {
    if k in m then Some(m[k]) else None
  }

  /** `get_swatch_data`: the year's record, only when it is an object. */
  function GetSwatch(c: CommentText, year: nat): (r: Option<map<string, Json>>)
    requires ObjectComment(c)
    ensures r.Some? <==> SwatchKey(year) in ParseComment(c).fields && ParseComment(c).fields[SwatchKey(year)].JObj?
    ensures r.Some? ==> JObj(r.value) == ParseComment(c).fields[SwatchKey(year)]
  {
    var data := ParseComment(c).fields;
    var key := SwatchKey(year);
    if key in data && data[key].JObj? then Some(data[key].fields) else None
  }

  /** The year's `date`, where present, is a string (`strptime` raises `TypeError` otherwise). */
  predicate ReadableDate(c: CommentText, year: nat) {
    ObjectComment(c) &&
    var sw := GetSwatch(c, year);
    sw.Some? && "date" in sw.value ==> sw.value["date"].JStr?
  }

  /**
   * `parse_swatch_date_from_comment`: the record's date text, when it is a valid
   * calendar date in the requested year.
   */
  function ExtractDate(c: CommentText, year: nat): (r: Option<string>)
    requires ReadableDate(c, year)
    ensures r.Some? ==> IsDateText(r.value) && ParseDate(r.value).value.year == year
    ensures r.Some? ==> GetSwatch(c, year).Some? && Lookup(GetSwatch(c, year).value, "date") == Some(JStr(r.value))
    ensures GetSwatch(c, year).Some? && "date" in GetSwatch(c, year).value
            && IsDateText(GetSwatch(c, year).value["date"].s)
            && ParseDate(GetSwatch(c, year).value["date"].s).value.year == year
            ==> r == Some(GetSwatch(c, year).value["date"].s)
  {
    var sw := GetSwatch(c, year);
    if sw.None? || sw.value == map[] || "date" !in sw.value then None
    else
      var text := sw.value["date"].s;
      match ParseDate(text)
      case None => None
      case Some(d) => if d.year == year then Some(text) else None
  }

  /** Theme metadata read back from a record; each side is `""` when absent or falsy. */
  datatype ThemeRecord = ThemeRecord(theme: Json, description: Json)

  /** `value or ""` over a possibly missing field. */
  function OrEmpty(o: Option<Json>): (r: Json)
    ensures o.Some? && Truthy(o.value) ==> r == o.value
    ensures !(o.Some? && Truthy(o.value)) ==> r == JStr("")
  {
    if o.Some? && Truthy(o.value) then o.value else JStr("")
  }

  /** `parse_theme_from_comment` */
  function ExtractTheme(c: CommentText, year: nat): (r: Option<ThemeRecord>)
    requires ObjectComment(c)
    ensures r.Some? ==> Truthy(r.value.theme) || Truthy(r.value.description)
    ensures r.Some? ==> (Truthy(r.value.theme) || r.value.theme == JStr(""))
    ensures r.Some? ==> (Truthy(r.value.description) || r.value.description == JStr(""))
    ensures r.None? <==> (GetSwatch(c, year).None? ||
      (!Truthy(OrEmpty(Lookup(GetSwatch(c, year).value, "theme"))) &&
       !Truthy(OrEmpty(Lookup(GetSwatch(c, year).value, "theme_description")))))
    ensures r.Some? ==> r.value == ThemeRecord(OrEmpty(Lookup(GetSwatch(c, year).value, "theme")),
                                               OrEmpty(Lookup(GetSwatch(c, year).value, "theme_description")))
  {
    var sw := GetSwatch(c, year);
    if sw.None? || sw.value == map[] then None
    else
      var theme := Lookup(sw.value, "theme");
      var description := Lookup(sw.value, "theme_description");
      if (theme.Some? && Truthy(theme.value)) || (description.Some? && Truthy(description.value)) then
        Some(ThemeRecord(OrEmpty(theme), OrEmpty(description)))
      else None
  }

  /** What `check_overwrite_conflict` reports about a record already saved for the year. */
  datatype Conflict = Conflict(date: Json, theme: Option<Json>, description: Option<Json>)

  /** `check_overwrite_conflict`: a conflict exactly when the year's record holds a truthy date. */
  function CheckOverwriteConflict(c: CommentText, year: nat): (r: Option<Conflict>)
    requires ObjectComment(c)
    ensures r.Some? <==> GetSwatch(c, year).Some? && "date" in GetSwatch(c, year).value
                         && Truthy(GetSwatch(c, year).value["date"])
    ensures r.Some? ==> r.value.date == GetSwatch(c, year).value["date"]
    ensures r.Some? ==> r.value.theme == Lookup(GetSwatch(c, year).value, "theme")
                        && r.value.description == Lookup(GetSwatch(c, year).value, "theme_description")
  {
    var sw := GetSwatch(c, year);
    if sw.None? || sw.value == map[] then None
    else
      var date := Lookup(sw.value, "date");
      if date.None? || !Truthy(date.value) then None
      else Some(Conflict(date.value, Lookup(sw.value, "theme"), Lookup(sw.value, "theme_description")))
  }

  /** The record `build_swatch_comment_json` stores: the date, plus each theme field only when non-empty. */
  function SwatchRecord(date: string, theme: string, description: string): map<string, Json> {
    var base := map["date" := JStr(date)];
    var withTheme := if theme != "" then base["theme" := JStr(theme)] else base;
    if description != "" then withTheme["theme_description" := JStr(description)] else withTheme
  }

  /**
   * `build_swatch_comment_json`: the comment's object with the year's record
   * replaced and every other key kept (`""` stands for an omitted theme).
   */
  function BuildSwatchComment(c: CommentText, year: nat, date: string, theme: string, description: string): (r: Json)
    requires ObjectComment(c)
    ensures r.JObj? && r.fields.Keys == ParseComment(c).fields.Keys + {SwatchKey(year)}
    ensures r.fields[SwatchKey(year)] == JObj(SwatchRecord(date, theme, description))
    ensures forall k :: k in ParseComment(c).fields && k != SwatchKey(year) ==> r.fields[k] == ParseComment(c).fields[k]
  {
    JObj(ParseComment(c).fields[SwatchKey(year) := JObj(SwatchRecord(date, theme, description))])
  }

  /**
   * Python's `key in data` on a decoded value: a key test on an object, a
   * substring test on a string, a membership test on a list; `None` where `in`
   * raises `TypeError` (a number, a boolean, null).
   */
  function HasKey(data: Json, key: string): (r: Option<bool>)
    ensures data.JObj? ==> r == Some(key in data.fields)
    ensures data.JStr? ==> r == Some(Contains(data.s, key))
    ensures data.JList? ==> r == Some(JStr(key) in data.items)
    ensures data.JOther? <==> r.None?
  {
    match data
    case JObj(m) => Some(key in m)
    case JStr(t) => Some(Contains(t, key))
    case JList(xs) => Some(JStr(key) in xs)
    case JOther(_) => None
  }

  /**
   * `remove_swatch_from_comment`: the comment's object without the year's record;
   * `None` where the source raises `TypeError` (the key test on a number, a boolean
   * or null, or `del` on a string or list that holds the key). Whatever remains is
   * dumped as it is, and a falsy remainder is written as the empty object `"{}"`.
   */
  function RemoveSwatchComment(c: CommentText, year: nat): (r: Option<Json>)
    ensures ObjectComment(c) ==> r.Some? && r.value.JObj?
    ensures ObjectComment(c) ==> r.value.fields.Keys == ParseComment(c).fields.Keys - {SwatchKey(year)}
    ensures ObjectComment(c) ==> forall k :: k in r.value.fields ==> r.value.fields[k] == ParseComment(c).fields[k]
    ensures r.None? <==> HasKey(ParseComment(c), SwatchKey(year)) != Some(false) && !ParseComment(c).JObj?
    ensures r.Some? && !ObjectComment(c) ==>
              r.value == if Truthy(ParseComment(c)) then ParseComment(c) else JObj(map[])
  {
    var data := ParseComment(c);
    var key := SwatchKey(year);
    match HasKey(data, key)
    case None => None
    case Some(present) =>
      if present && !data.JObj? then None
      else
        var rest := if present then JObj(data.fields - {key}) else data;
        if Truthy(rest) then Some(rest) else Some(JObj(map[]))
  }

  // ---------------------------------------------------------------------------
  // Round trips and passthrough
  // ---------------------------------------------------------------------------

  /** A written object, read back from any (non-empty) text that decodes to it. */
  function Written(raw: string, value: Json): CommentText {
    CommentText(raw, Some(value))
  }

  /** Empty, missing or malformed comments read as holding nothing: no reader fails on them. */
  lemma TolerantParse(c: CommentText, year: nat)
    requires c.raw == "" || c.decoded.None?
    ensures ReadableDate(c, year)
    ensures ExtractDate(c, year) == None && ExtractTheme(c, year) == None
    ensures CheckOverwriteConflict(c, year) == None
  {
    assert ParseComment(c) == JObj(map[]);
  }

  /** A record stored as a bare string (the legacy form) is never read as a date. */
  lemma LegacyStringIgnored(c: CommentText, year: nat, text: string)
    requires ObjectComment(c)
    requires SwatchKey(year) in ParseComment(c).fields && ParseComment(c).fields[SwatchKey(year)] == JStr(text)
    ensures ReadableDate(c, year) && ExtractDate(c, year) == None && ExtractTheme(c, year) == None
  {
  }

  /** A date of another year is never returned, even when valid. */
  lemma WrongYearIgnored(c: CommentText, year: nat, text: string)
    requires ReadableDate(c, year)
    requires GetSwatch(c, year).Some? && Lookup(GetSwatch(c, year).value, "date") == Some(JStr(text))
    requires IsDateText(text) && ParseDate(text).value.year != year
    ensures ExtractDate(c, year) == None
  {
  }

  /** Building then reading the date gives the date back, for any valid date of that year. */
  lemma BuildThenExtractDate(c: CommentText, year: nat, date: string, theme: string, description: string, raw: string)
    requires ObjectComment(c) && raw != ""
    requires IsDateText(date) && ParseDate(date).value.year == year
    ensures ReadableDate(Written(raw, BuildSwatchComment(c, year, date, theme, description)), year)
    ensures ExtractDate(Written(raw, BuildSwatchComment(c, year, date, theme, description)), year) == Some(date)
  {
    var w := Written(raw, BuildSwatchComment(c, year, date, theme, description));
    assert GetSwatch(w, year) == Some(SwatchRecord(date, theme, description));
    assert SwatchRecord(date, theme, description)["date"] == JStr(date);
  }

  /** Building then reading the theme gives both fields back whenever one is non-empty. */
  lemma BuildThenExtractTheme(c: CommentText, year: nat, date: string, theme: string, description: string, raw: string)
    requires ObjectComment(c) && raw != ""
    requires theme != "" || description != ""
    ensures ObjectComment(Written(raw, BuildSwatchComment(c, year, date, theme, description)))
    ensures ExtractTheme(Written(raw, BuildSwatchComment(c, year, date, theme, description)), year)
            == Some(ThemeRecord(JStr(theme), JStr(description)))
  {
    var w := Written(raw, BuildSwatchComment(c, year, date, theme, description));
    var rec := SwatchRecord(date, theme, description);
    assert GetSwatch(w, year) == Some(rec);
    assert "date" in rec;
    assert Lookup(rec, "theme") == if theme != "" then Some(JStr(theme)) else None;
    assert Lookup(rec, "theme_description") == if description != "" then Some(JStr(description)) else None;
  }

  /** Writing one year's record leaves every other year's reading as it was. */
  lemma BuildKeepsOtherYears(c: CommentText, year: nat, other: nat, date: string, theme: string, description: string, raw: string)
    requires ReadableDate(c, other) && raw != "" && other != year
    ensures ReadableDate(Written(raw, BuildSwatchComment(c, year, date, theme, description)), other)
    ensures ExtractDate(Written(raw, BuildSwatchComment(c, year, date, theme, description)), other) == ExtractDate(c, other)
    ensures ExtractTheme(Written(raw, BuildSwatchComment(c, year, date, theme, description)), other) == ExtractTheme(c, other)
  {
    SwatchKeyInjective(year, other);
    var w := Written(raw, BuildSwatchComment(c, year, date, theme, description));
    assert GetSwatch(w, other) == GetSwatch(c, other);
  }

  /** After removal the year reads as unassigned, and every other year reads as before. */
  lemma RemoveThenExtract(c: CommentText, year: nat, other: nat, raw: string)
    requires ReadableDate(c, other) && raw != "" && other != year
    ensures RemoveSwatchComment(c, year).Some?
    ensures ReadableDate(Written(raw, RemoveSwatchComment(c, year).value), year)
    ensures ExtractDate(Written(raw, RemoveSwatchComment(c, year).value), year) == None
    ensures ReadableDate(Written(raw, RemoveSwatchComment(c, year).value), other)
    ensures ExtractDate(Written(raw, RemoveSwatchComment(c, year).value), other) == ExtractDate(c, other)
  {
    SwatchKeyInjective(year, other);
    var w := Written(raw, RemoveSwatchComment(c, year).value);
    assert GetSwatch(w, year) == None;
    assert GetSwatch(w, other) == GetSwatch(c, other);
  }

  /** Removing a record just written restores the comment minus that year's old record. */
  lemma RemoveUndoesBuild(c: CommentText, year: nat, date: string, theme: string, description: string, raw: string)
    requires ObjectComment(c) && raw != ""
    ensures RemoveSwatchComment(Written(raw, BuildSwatchComment(c, year, date, theme, description)), year)
            == RemoveSwatchComment(c, year)
  {
    var before := ParseComment(c).fields;
    var after := BuildSwatchComment(c, year, date, theme, description).fields;
    assert after - {SwatchKey(year)} == before - {SwatchKey(year)};
    assert SwatchKey(year) in after;
    if SwatchKey(year) !in before {
      assert before - {SwatchKey(year)} == before;
    }
  }

  /** Saving over a record just written is always reported as a conflict on its date. */
  lemma BuildThenConflict(c: CommentText, year: nat, date: string, theme: string, description: string, raw: string)
    requires ObjectComment(c) && raw != "" && date != ""
    ensures ObjectComment(Written(raw, BuildSwatchComment(c, year, date, theme, description)))
    ensures CheckOverwriteConflict(Written(raw, BuildSwatchComment(c, year, date, theme, description)), year)
            == Some(Conflict(JStr(date),
                             if theme != "" then Some(JStr(theme)) else None,
                             if description != "" then Some(JStr(description)) else None))
  {
    var w := Written(raw, BuildSwatchComment(c, year, date, theme, description));
    assert GetSwatch(w, year) == Some(SwatchRecord(date, theme, description));
  }
}
