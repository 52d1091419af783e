/** The Old School RuneScape hiscores client: the choice of endpoint, the
    checks on the HTTP response, the parsing of the plain-text `index_lite`
    payload into labelled skills and activities, and the final record with the
    player's name and a capture time.

    The skill and activity catalogs and their column schemas are fixed
    configuration of the program; here they are the `Catalog` parameter. */
module RsApi {
  import opened Wrappers
  import opened PyStr
  import opened PyInt
  import opened PyDict

  const HISCORES_API: String := "https://secure.runescape.com/m=hiscore_oldschool/index_lite.ws"
  const HISCORES_IRONMAN_API: String := "https://secure.runescape.com/m=hiscore_oldschool_ironman/index_lite.ws"

  /** The start of the maintenance page the service serves instead of data. */
  const HTML_MARKER: String := "<!doctype html>"

  const STATUS_OK: int := 200

  // ---------------------------------------------------------------- endpoint

  /** The four characters of `p` at `i` spell "iron" in any mix of cases. */
  predicate IronAt(p: String, i: int)
    requires 0 <= i && i + 4 <= |p|
  {
    && (p[i] == 'i' || p[i] == 'I') && (p[i + 1] == 'r' || p[i + 1] == 'R')
    && (p[i + 2] == 'o' || p[i + 2] == 'O') && (p[i + 3] == 'n' || p[i + 3] == 'N')
  }

  ghost predicate MentionsIron(p: String)
  {
    exists i :: 0 <= i && i + 4 <= |p| && IronAt(p, i)
  }

  /** `get_hiscores_api`: the ironman endpoint exactly when the name holds
      "iron" in any case, the standard endpoint otherwise. */
  function GetHiscoresApi(player: String): (api: String)
    ensures api == HISCORES_IRONMAN_API <==> MentionsIron(player)
    ensures api == HISCORES_API <==> !MentionsIron(player)
  {
    LowerIronMatch(player);
    if Contains(LowerAscii(player), "iron") then HISCORES_IRONMAN_API else HISCORES_API
  }

  /** `"iron" in player.lower()` is the case-insensitive occurrence of "iron". */
  lemma LowerIronMatch(player: String)
    ensures Contains(LowerAscii(player), "iron") <==> MentionsIron(player)
  {
    var lower := LowerAscii(player);
    if Contains(lower, "iron") {
      var i :| OccursAt(lower, "iron", i);
      LowerIronAt(player, i);
      assert IronAt(player, i);
    }
    if MentionsIron(player) {
      var i :| 0 <= i && i + 4 <= |player| && IronAt(player, i);
      LowerIronAt(player, i);
    }
  }

  /** At one index: the lower-cased name holds "iron" exactly where the name spells it in any case. */
  lemma LowerIronAt(player: String, i: int)
    requires 0 <= i && i + 4 <= |player|
    ensures OccursAt(LowerAscii(player), "iron", i) <==> IronAt(player, i)
  {
    var t := LowerAscii(player)[i..i + 4];
    LowerSlice(player, i);
    IronWord(t, player[i], player[i + 1], player[i + 2], player[i + 3]);
  }

  /** The four lower-cased characters at `i`. */
  lemma LowerSlice(player: String, i: int)
    requires 0 <= i && i + 4 <= |player|
    ensures var t := LowerAscii(player)[i..i + 4];
      && |t| == 4 && t[0] == LowerChar(player[i]) && t[1] == LowerChar(player[i + 1])
      && t[2] == LowerChar(player[i + 2]) && t[3] == LowerChar(player[i + 3])
  {
    var lower := LowerAscii(player);
    assert lower[i] == LowerChar(player[i]) && lower[i + 1] == LowerChar(player[i + 1]);
    assert lower[i + 2] == LowerChar(player[i + 2]) && lower[i + 3] == LowerChar(player[i + 3]);
  }

  /** Four lower-cased characters spell "iron" exactly when the originals spell it in any case. */
  lemma IronWord(t: String, a: char, b: char, c: char, d: char)
    requires |t| == 4 && t[0] == LowerChar(a) && t[1] == LowerChar(b)
    requires t[2] == LowerChar(c) && t[3] == LowerChar(d)
    ensures t == "iron" <==> (a == 'i' || a == 'I') && (b == 'r' || b == 'R') && (c == 'o' || c == 'O') && (d == 'n' || d == 'N')
  {
    LowerLetter(a, 'i', 'I');
    LowerLetter(b, 'r', 'R');
    LowerLetter(c, 'o', 'O');
    LowerLetter(d, 'n', 'N');
    assert t == "iron" <==> t[0] == 'i' && t[1] == 'r' && t[2] == 'o' && t[3] == 'n';
  }

  /** Lower-casing gives a given lower-case letter exactly from it and its capital. */
  lemma LowerLetter(c: char, lc: char, uc: char)
    requires 'a' <= lc <= 'z' && uc as int == lc as int - 32
    ensures LowerChar(c) == lc <==> c == lc || c == uc
  {
  }

  // ---------------------------------------------------------- response check

  /** What `requests.get` gives back that the client looks at. `query` is the
      query component of `url`. `elapsedMicros` is `response.elapsed`. */
  datatype Response = Response(
    text: String, statusCode: int, reason: String, url: String, query: String, elapsedMicros: nat)

  /** The outcome of the HTTP call: a read timeout, any other failure of the
      HTTP library, or a response. */
  datatype Transport = ReadTimeout | OtherFailure | Received(response: Response)

  datatype FetchError =
    | TimedOut(timeout: real)                                  // HiscoresDownError
    | HtmlResponse(text: String)                               // HiscoresDownError
    | BadStatus(statusCode: int, reason: String, url: String)  // ValueError
    | Unhandled                                                // raised by the HTTP library itself
  {
    /** The failures reported as `HiscoresDownError`. */
    predicate IsHiscoresDown()
    {
      TimedOut? || HtmlResponse?
    }
  }

  /** The slow-response warning of `request_hiscores`, which only logs. */
  predicate SlowResponse(resp: Response, warnSecs: int)
  {
    resp.elapsedMicros > warnSecs * 1000000
  }

  /** The checks `request_hiscores` makes on a response: the HTML marker first,
      whatever the status, then the status code. */
  function ClassifyResponse(resp: Response): (r: Result<Response, FetchError>)
    ensures (exists i :: OccursAt(resp.text, HTML_MARKER, i)) ==> r == Err(HtmlResponse(resp.text))
    ensures ((forall i :: !OccursAt(resp.text, HTML_MARKER, i)) && resp.statusCode != STATUS_OK) ==>
              r == Err(BadStatus(resp.statusCode, resp.reason, resp.url))
    ensures r.Ok? <==> (forall i :: !OccursAt(resp.text, HTML_MARKER, i)) && resp.statusCode == STATUS_OK
    ensures r.Ok? ==> r.value == resp
  {
    if Contains(resp.text, HTML_MARKER) then Err(HtmlResponse(resp.text))
    else if resp.statusCode != STATUS_OK then Err(BadStatus(resp.statusCode, resp.reason, resp.url))
    else Ok(resp)
  }

  /** `request_hiscores` after the HTTP call: only a read timeout is turned
      into `HiscoresDownError`; other library failures pass through. */
  function RequestHiscores(transport: Transport, timeout: real): (r: Result<Response, FetchError>)
    ensures r.Err? && r.error.IsHiscoresDown() <==>
      transport.ReadTimeout? || (transport.Received? && exists i :: OccursAt(transport.response.text, HTML_MARKER, i))
    ensures r.Ok? ==> transport == Received(r.value) && r.value.statusCode == STATUS_OK
    ensures transport.ReadTimeout? ==> r == Err(TimedOut(timeout))
    ensures transport.OtherFailure? ==> r == Err(Unhandled)
    ensures transport.Received? ==> r == ClassifyResponse(transport.response)
  {
    match transport
    case ReadTimeout => Err(TimedOut(timeout))
    case OtherFailure => Err(Unhandled)
    case Received(resp) => ClassifyResponse(resp)
  }

  // ------------------------------------------------------------- one line

  /** One parsed line: column name to value. */
  type Entry = map<String, int>

  /** A parsed section: catalog label to parsed line. */
  type Section = map<String, Entry>

  datatype LineError =
    | SchemaMismatch(schema: seq<String>, line: String)  // InvalidSchemaError
    | NotAnInteger(field: String)                        // ValueError raised by int()

  /** The comma-separated fields of a line. */
  function Fields(line: String): (fields: seq<String>)
    ensures |fields| == multiset(line)[','] + 1
    ensures Join(fields, ',') == line
  {
    Split(line, ',')
  }

  /** `int(field)` with its failure as a line error. */
  function IntField(field: String): (r: Result<int, LineError>)
    ensures r.Ok? <==> IsIntLiteral(field)
    ensures r.Ok? ==> ParseInt(field) == Some(r.value)
    ensures r.Err? ==> r.error == NotAnInteger(field)
  {
    match ParseInt(field)
    case Some(n) => Ok(n)
    case None => Err(NotAnInteger(field))
  }

  /** `k` is the first field of `fields` that is not an integer literal. */
  ghost predicate FirstBadField(fields: seq<String>, k: int)
  {
    0 <= k < |fields| && !IsIntLiteral(fields[k]) && forall j :: 0 <= j < k ==> IsIntLiteral(fields[j])
  }

  /** Converting the fields stops at the first one that is not an integer literal. */
  lemma FirstBadFieldOf(fields: seq<String>)
    requires TryMap(IntField, fields).Err?
    ensures exists k :: FirstBadField(fields, k) && TryMap(IntField, fields).error == NotAnInteger(fields[k])
  {
    var e := TryMap(IntField, fields).error;
    var k :| 0 <= k < |fields| && IntField(fields[k]) == Err(e) && forall j :: 0 <= j < k ==> IntField(fields[j]).Ok?;
    assert FirstBadField(fields, k);
  }

  /** `_parse_hiscores_response_line`. The field count is checked before any
      conversion: the schema error comes exactly when the counts differ.
      Otherwise the line parses when every field is an integer, the keys are
      the schema's names, and each name (its last occurrence, if it repeats)
      holds the value of its field; or the first non-integer field is reported. */
  function ParseLine(line: String, schema: seq<String>): (r: Result<Entry, LineError>)
    ensures r == Err(SchemaMismatch(schema, line)) <==> |Fields(line)| != |schema|
    ensures r.Ok? <==> |Fields(line)| == |schema| && forall k :: 0 <= k < |schema| ==> IsIntLiteral(Fields(line)[k])
    ensures r.Ok? ==> forall name :: name in r.value <==> name in schema
    ensures r.Ok? ==>
      forall k :: 0 <= k < |schema| && LastOccurrence(schema, k, |schema|) ==>
        schema[k] in r.value && Some(r.value[schema[k]]) == ParseInt(Fields(line)[k])
    ensures r.Err? && r.error.NotAnInteger? ==>
              exists k :: FirstBadField(Fields(line), k) && r.error.field == Fields(line)[k]
  {
    var fields := Fields(line);
    if |schema| != |fields| then Err(SchemaMismatch(schema, line))
    else
      match TryMap(IntField, fields)
      case Err(e) =>
        FirstBadFieldOf(fields);
        Err(e)
      case Ok(values) =>
        DictZipKeys(schema, values);
        Ok(DictZip(schema, values))
  }

  /** `_parse_skill_line`: a line against the skill columns. */
  function ParseSkillLine(cat: Catalog, line: String): (r: Result<Entry, LineError>)
    ensures |Fields(line)| != |cat.skillCols| ==> r == Err(SchemaMismatch(cat.skillCols, line))
    ensures r.Ok? ==> forall name :: name in r.value <==> name in cat.skillCols
  {
    ParseLine(line, cat.skillCols)
  }

  /** `_parse_activity_line`: a line against the activity columns. */
  function ParseActivityLine(cat: Catalog, line: String): (r: Result<Entry, LineError>)
    ensures |Fields(line)| != |cat.activityCols| ==> r == Err(SchemaMismatch(cat.activityCols, line))
    ensures r.Ok? ==> forall name :: name in r.value <==> name in cat.activityCols
  {
    ParseLine(line, cat.activityCols)
  }

  // ------------------------------------------------------------ the payload

  /** The ordered skill and activity labels and the columns of each kind of line. */
  datatype Catalog = Catalog(
    skills: seq<String>, skillCols: seq<String>, activities: seq<String>, activityCols: seq<String>)

  /** What `sanitize_hiscores_stats` returns. */
  datatype Stats = Stats(skills: Section, activities: Section)

  datatype SanitizeError =
    | MalformedSkillLine(schema: seq<String>, line: String)     // "Expected skill line ... malformatted."
    | MalformedActivityLine(schema: seq<String>, line: String)  // "Expected activity line ... malformatted."
    | IntConversion(field: String)                              // int()'s ValueError, not re-wrapped

  /** The `except InvalidSchemaError` around the skills: only a schema error is re-wrapped. */
  function SkillError(e: LineError): (r: SanitizeError)
    ensures e.SchemaMismatch? ==> r == MalformedSkillLine(e.schema, e.line)
    ensures e.NotAnInteger? ==> r == IntConversion(e.field)
    ensures !r.MalformedActivityLine?
  {
    match e
    case SchemaMismatch(schema, line) => MalformedSkillLine(schema, line)
    case NotAnInteger(field) => IntConversion(field)
  }

  /** The `except InvalidSchemaError` around the activities. */
  function ActivityError(e: LineError): (r: SanitizeError)
    ensures e.SchemaMismatch? ==> r == MalformedActivityLine(e.schema, e.line)
    ensures e.NotAnInteger? ==> r == IntConversion(e.field)
    ensures !r.MalformedSkillLine?
  {
    match e
    case SchemaMismatch(schema, line) => MalformedActivityLine(schema, line)
    case NotAnInteger(field) => IntConversion(field)
  }

  /** `text.strip().split("\n")`: at least one line, none holding a newline,
      and together the stripped text. */
  function Lines(text: String): (lines: seq<String>)
    ensures |lines| >= 1
    ensures forall k :: 0 <= k < |lines| ==> '\n' !in lines[k]
    ensures Join(lines, '\n') == Strip(text)
  {
    Split(Strip(text), '\n')
  }

  /** How many lines are taken as skill lines: `len(lines[:len(SKILLS)])`. */
  function SkillCount(cat: Catalog, lines: seq<String>): (n: nat)
    ensures n <= |cat.skills| && n <= |lines|
    ensures n == |cat.skills| || n == |lines|
  {
    Min(|cat.skills|, |lines|)
  }

  /** How many activity lines `zip` pairs with a label, and so parses. */
  function ActivityCount(cat: Catalog, lines: seq<String>): (n: nat)
    ensures n <= |cat.activities| && SkillCount(cat, lines) + n <= |lines|
    ensures n == |cat.activities| || SkillCount(cat, lines) + n == |lines|
  {
    Min(|cat.activities|, |lines| - SkillCount(cat, lines))
  }

  function SkillLines(cat: Catalog, lines: seq<String>): seq<String>
  {
    lines[..SkillCount(cat, lines)]
  }

  function ActivityLines(cat: Catalog, lines: seq<String>): seq<String>
  {
    lines[SkillCount(cat, lines)..]
  }

  /** `dict(zip(labels, map(parse, lines)))`. Because `zip` stops at the
      shorter input and `map` is lazy, only the first `min(|labels|, |lines|)`
      lines are parsed, in order, and the first failure aborts. On success the
      keys are those labels and each label (its last occurrence) holds its
      line's parse. */
  function ParseSection(labels: seq<String>, lines: seq<String>, parse: String -> Result<Entry, LineError>)
    : (r: Result<Section, LineError>)
    ensures r.Ok? <==> forall k :: 0 <= k < Min(|labels|, |lines|) ==> parse(lines[k]).Ok?
    ensures r.Ok? ==>
      forall l :: l in r.value <==> exists k :: 0 <= k < Min(|labels|, |lines|) && labels[k] == l
    ensures r.Ok? ==>
      forall k :: 0 <= k < Min(|labels|, |lines|) && LastOccurrence(labels, k, Min(|labels|, |lines|)) ==>
        labels[k] in r.value && parse(lines[k]) == Ok(r.value[labels[k]])
    ensures r.Err? ==>
      exists k :: 0 <= k < Min(|labels|, |lines|) && parse(lines[k]) == Err(r.error) &&
        forall j :: 0 <= j < k ==> parse(lines[j]).Ok?
  {
    var n := Min(|labels|, |lines|);
    var parsed := lines[..n];
    assert forall k :: 0 <= k < n ==> parsed[k] == lines[k];
    match TryMap(parse, parsed)
    case Err(e) => Err(e)
    case Ok(entries) => Ok(DictZip(labels, entries))
  }

  /** `_parse_skill_line` as the function `map` applies. */
  function SkillParser(cat: Catalog): String -> Result<Entry, LineError>
  {
    line => ParseSkillLine(cat, line)
  }

  /** `_parse_activity_line` as the function `map` applies. */
  function ActivityParser(cat: Catalog): String -> Result<Entry, LineError>
  {
    line => ParseActivityLine(cat, line)
  }

  /** The first `k` lines from `lo` on parse against `schema` and line `k` does not. */
  ghost predicate FirstFailure(lines: seq<String>, schema: seq<String>, lo: int, k: int)
  {
    0 <= lo <= k < |lines| && ParseLine(lines[k], schema).Err?
    && forall j :: lo <= j < k ==> ParseLine(lines[j], schema).Ok?
  }

  /** A section whose lines are the `n` lines of `lines` from `lo` on, each
      parsed against `schema`: label `k` belongs to line `lo + k`. */
  lemma SectionAt(labels: seq<String>, schema: seq<String>, lines: seq<String>, lo: int, n: int,
                  section: seq<String>, parse: String -> Result<Entry, LineError>)
    requires 0 <= lo && 0 <= n && n == Min(|labels|, |section|) && lo + n <= |lines|
    requires forall k :: 0 <= k < n ==> section[k] == lines[lo + k]
    requires forall line :: parse(line) == ParseLine(line, schema)
    ensures var r := ParseSection(labels, section, parse);
      && (r.Ok? <==> forall k :: lo <= k < lo + n ==> ParseLine(lines[k], schema).Ok?)
      && (r.Ok? ==> forall l :: l in r.value <==> exists k :: 0 <= k < n && labels[k] == l)
      && (r.Ok? ==>
            forall k :: 0 <= k < n && LastOccurrence(labels, k, n) ==>
              labels[k] in r.value && ParseLine(lines[lo + k], schema) == Ok(r.value[labels[k]]))
      && (r.Err? ==>
            exists k :: FirstFailure(lines, schema, lo, k) && k < lo + n && r.error == ParseLine(lines[k], schema).error)
  {
    var r := ParseSection(labels, section, parse);
    if r.Ok? {
      SectionAtOk(labels, schema, lines, lo, n, section, parse);
    } else {
      SectionAtErr(labels, schema, lines, lo, n, section, parse);
    }
  }

  lemma SectionAtOk(labels: seq<String>, schema: seq<String>, lines: seq<String>, lo: int, n: int,
                    section: seq<String>, parse: String -> Result<Entry, LineError>)
    requires 0 <= lo && 0 <= n && n == Min(|labels|, |section|) && lo + n <= |lines|
    requires forall k :: 0 <= k < n ==> section[k] == lines[lo + k]
    requires forall line :: parse(line) == ParseLine(line, schema)
    ensures var r := ParseSection(labels, section, parse);
      && (r.Ok? <==> forall k :: lo <= k < lo + n ==> ParseLine(lines[k], schema).Ok?)
      && (r.Ok? ==>
            forall k :: 0 <= k < n && LastOccurrence(labels, k, n) ==>
              labels[k] in r.value && ParseLine(lines[lo + k], schema) == Ok(r.value[labels[k]]))
  {
    forall k | lo <= k < lo + n ensures parse(section[k - lo]) == ParseLine(lines[k], schema) {
      assert section[k - lo] == lines[k];
    }
  }

  lemma SectionAtErr(labels: seq<String>, schema: seq<String>, lines: seq<String>, lo: int, n: int,
                     section: seq<String>, parse: String -> Result<Entry, LineError>)
    requires 0 <= lo && 0 <= n && n == Min(|labels|, |section|) && lo + n <= |lines|
    requires forall k :: 0 <= k < n ==> section[k] == lines[lo + k]
    requires forall line :: parse(line) == ParseLine(line, schema)
    requires ParseSection(labels, section, parse).Err?
    ensures exists k :: FirstFailure(lines, schema, lo, k) && k < lo + n
                        && ParseSection(labels, section, parse).error == ParseLine(lines[k], schema).error
  {
    var r := ParseSection(labels, section, parse);
    var i :| 0 <= i < n && parse(section[i]) == Err(r.error) && forall j :: 0 <= j < i ==> parse(section[j]).Ok?;
    forall j | lo <= j < lo + i ensures ParseLine(lines[j], schema).Ok? {
      assert section[j - lo] == lines[j];
    }
    assert FirstFailure(lines, schema, lo, lo + i);
  }

  /** The skill section: skill label `k` belongs to line `k`. */
  lemma SkillSection(cat: Catalog, lines: seq<String>)
    ensures var r := ParseSection(cat.skills, SkillLines(cat, lines), SkillParser(cat));
      var n := SkillCount(cat, lines);
      && (r.Ok? <==> forall k :: 0 <= k < n ==> ParseLine(lines[k], cat.skillCols).Ok?)
      && (r.Ok? ==> forall l :: l in r.value <==> exists k :: 0 <= k < n && cat.skills[k] == l)
      && (r.Ok? ==>
            forall k :: 0 <= k < n && LastOccurrence(cat.skills, k, n) ==>
              cat.skills[k] in r.value && ParseLine(lines[k], cat.skillCols) == Ok(r.value[cat.skills[k]]))
      && (r.Err? ==>
            exists k :: FirstFailure(lines, cat.skillCols, 0, k) && k < n && r.error == ParseLine(lines[k], cat.skillCols).error)
  {
    var section, n := SkillLines(cat, lines), SkillCount(cat, lines);
    assert forall k :: 0 <= k < n ==> section[k] == lines[0 + k];
    SectionAt(cat.skills, cat.skillCols, lines, 0, n, section, SkillParser(cat));
  }

  /** The activity section: activity label `k` belongs to line `SkillCount + k`. */
  lemma ActivitySection(cat: Catalog, lines: seq<String>)
    ensures var r := ParseSection(cat.activities, ActivityLines(cat, lines), ActivityParser(cat));
      var s, n := SkillCount(cat, lines), ActivityCount(cat, lines);
      && (r.Ok? <==> forall k :: s <= k < s + n ==> ParseLine(lines[k], cat.activityCols).Ok?)
      && (r.Ok? ==> forall l :: l in r.value <==> exists k :: 0 <= k < n && cat.activities[k] == l)
      && (r.Ok? ==>
            forall k :: 0 <= k < n && LastOccurrence(cat.activities, k, n) ==>
              cat.activities[k] in r.value && ParseLine(lines[s + k], cat.activityCols) == Ok(r.value[cat.activities[k]]))
      && (r.Err? ==>
            exists k :: FirstFailure(lines, cat.activityCols, s, k) && k < s + n
                        && r.error == ParseLine(lines[k], cat.activityCols).error)
  {
    var section, s, n := ActivityLines(cat, lines), SkillCount(cat, lines), ActivityCount(cat, lines);
    assert forall k :: 0 <= k < n ==> section[k] == lines[s + k];
    SectionAt(cat.activities, cat.activityCols, lines, s, n, section, ActivityParser(cat));
  }

  /** `sanitize_hiscores_stats` after the split into lines. Skill lines are
      parsed first, then the activity lines `zip` reaches; the result is a
      complete `Stats` or exactly one error: that of the first failing skill
      line, or, when all skill lines parse, that of the first failing
      activity line. A line count other than the catalogs' total is no error. */
  function SanitizeLines(cat: Catalog, lines: seq<String>): (r: Result<Stats, SanitizeError>)
    ensures r.Ok? <==>
      && (forall k :: 0 <= k < SkillCount(cat, lines) ==> ParseLine(lines[k], cat.skillCols).Ok?)
      && (forall k :: SkillCount(cat, lines) <= k < SkillCount(cat, lines) + ActivityCount(cat, lines) ==>
            ParseLine(lines[k], cat.activityCols).Ok?)
    ensures r.Ok? ==>
      forall l :: l in r.value.skills <==> exists k :: 0 <= k < SkillCount(cat, lines) && cat.skills[k] == l
    ensures r.Ok? ==>
      forall l :: l in r.value.activities <==> exists k :: 0 <= k < ActivityCount(cat, lines) && cat.activities[k] == l
    ensures r.Ok? ==>
      forall k :: 0 <= k < SkillCount(cat, lines) && LastOccurrence(cat.skills, k, SkillCount(cat, lines)) ==>
        cat.skills[k] in r.value.skills && ParseLine(lines[k], cat.skillCols) == Ok(r.value.skills[cat.skills[k]])
    ensures r.Ok? ==>
      forall k :: 0 <= k < ActivityCount(cat, lines) && LastOccurrence(cat.activities, k, ActivityCount(cat, lines)) ==>
        && cat.activities[k] in r.value.activities
        && ParseLine(lines[SkillCount(cat, lines) + k], cat.activityCols) == Ok(r.value.activities[cat.activities[k]])
    ensures r.Err? ==>
      || (exists k :: FirstFailure(lines, cat.skillCols, 0, k) && k < SkillCount(cat, lines)
                      && r.error == SkillError(ParseLine(lines[k], cat.skillCols).error))
      || (&& (forall k :: 0 <= k < SkillCount(cat, lines) ==> ParseLine(lines[k], cat.skillCols).Ok?)
          && exists k :: FirstFailure(lines, cat.activityCols, SkillCount(cat, lines), k)
                         && k < SkillCount(cat, lines) + ActivityCount(cat, lines)
                         && r.error == ActivityError(ParseLine(lines[k], cat.activityCols).error))
  {
    SkillSection(cat, lines);
    ActivitySection(cat, lines);
    match ParseSection(cat.skills, SkillLines(cat, lines), SkillParser(cat))
    case Err(e) => Err(SkillError(e))
    case Ok(skills) =>
      match ParseSection(cat.activities, ActivityLines(cat, lines), ActivityParser(cat))
      case Err(e) => Err(ActivityError(e))
      case Ok(activities) => Ok(Stats(skills, activities))
  }

  /** `sanitize_hiscores_stats`. */
  function Sanitize(cat: Catalog, text: String): (r: Result<Stats, SanitizeError>)
    ensures r == SanitizeLines(cat, Lines(text))
    ensures r.Ok? ==>
      && (forall l :: l in r.value.skills ==> l in cat.skills)
      && (forall l :: l in r.value.activities ==> l in cat.activities)
    ensures r.Err? && r.error.MalformedSkillLine? ==>
      r.error.schema == cat.skillCols && r.error.line in Lines(text) && |Fields(r.error.line)| != |cat.skillCols|
    ensures r.Err? && r.error.MalformedActivityLine? ==>
      r.error.schema == cat.activityCols && r.error.line in Lines(text)
      && |Fields(r.error.line)| != |cat.activityCols|
  {
    var lines := Lines(text);
    var r := SanitizeLines(cat, lines);
    SanitizeKeys(cat, lines, r);
    SanitizeQuotes(cat, lines, r);
    r
  }

  /** The labels of a parsed payload come from the catalogs. */
  lemma SanitizeKeys(cat: Catalog, lines: seq<String>, r: Result<Stats, SanitizeError>)
    requires r == SanitizeLines(cat, lines)
    ensures r.Ok? ==>
      && (forall l :: l in r.value.skills ==> l in cat.skills)
      && (forall l :: l in r.value.activities ==> l in cat.activities)
  {
    if r.Ok? {
      forall l | l in r.value.skills ensures l in cat.skills {
        var k :| 0 <= k < SkillCount(cat, lines) && cat.skills[k] == l;
      }
      forall l | l in r.value.activities ensures l in cat.activities {
        var k :| 0 <= k < ActivityCount(cat, lines) && cat.activities[k] == l;
      }
    }
  }

  /** A schema error quotes the section's columns and a payload line whose
      field count differs from them. */
  lemma SanitizeQuotes(cat: Catalog, lines: seq<String>, r: Result<Stats, SanitizeError>)
    requires r == SanitizeLines(cat, lines)
    ensures r.Err? && r.error.MalformedSkillLine? ==>
      r.error.schema == cat.skillCols && r.error.line in lines && |Fields(r.error.line)| != |cat.skillCols|
    ensures r.Err? && r.error.MalformedActivityLine? ==>
      r.error.schema == cat.activityCols && r.error.line in lines && |Fields(r.error.line)| != |cat.activityCols|
  {
    if r.Err? && (r.error.MalformedSkillLine? || r.error.MalformedActivityLine?) {
      if exists k :: FirstFailure(lines, cat.skillCols, 0, k) && k < SkillCount(cat, lines)
                     && r.error == SkillError(ParseLine(lines[k], cat.skillCols).error) {
        var k :| FirstFailure(lines, cat.skillCols, 0, k) && k < SkillCount(cat, lines)
                 && r.error == SkillError(ParseLine(lines[k], cat.skillCols).error);
        QuoteOf(lines[k], cat.skillCols);
      } else {
        var k :| FirstFailure(lines, cat.activityCols, SkillCount(cat, lines), k)
                 && k < SkillCount(cat, lines) + ActivityCount(cat, lines)
                 && r.error == ActivityError(ParseLine(lines[k], cat.activityCols).error);
        QuoteOf(lines[k], cat.activityCols);
      }
    }
  }

  /** A line's schema error, when it has one, quotes the schema and the line. */
  lemma QuoteOf(line: String, schema: seq<String>)
    ensures ParseLine(line, schema).Err? && ParseLine(line, schema).error.SchemaMismatch? ==>
      ParseLine(line, schema).error == SchemaMismatch(schema, line) && |Fields(line)| != |schema|
  {
  }

  // ----------------------------------------------------------- final record

  /** The capture time `datetime.now()`. */
  datatype DateTime = DateTime(year: int, month: int, day: int, hour: int, minute: int, second: int)

  function DaysInMonth(year: int, month: int): int
  {
    if month == 2 then (if (year % 4 == 0 && year % 100 != 0) || year % 400 == 0 then 29 else 28)
    else if month == 4 || month == 6 || month == 9 || month == 11 then 30
    else 31
  }

  /** The values a Python `datetime` can hold (to the second). */
  predicate ValidDateTime(t: DateTime)
  {
    && 1 <= t.year <= 9999 && 1 <= t.month <= 12 && 1 <= t.day <= DaysInMonth(t.year, t.month)
    && 0 <= t.hour < 24 && 0 <= t.minute < 60 && 0 <= t.second < 60
  }

  /** `strftime("%Y-%m-%d %H:%M:%S")`: nineteen characters, digits except
      for the separators, each field reading back as its value. */
  function FormatTimestamp(t: DateTime): (s: String)
    requires ValidDateTime(t)
    ensures |s| == 19
    ensures s[4] == '-' && s[7] == '-' && s[10] == ' ' && s[13] == ':' && s[16] == ':'
    ensures forall k :: 0 <= k < 19 && k != 4 && k != 7 && k != 10 && k != 13 && k != 16 ==> IsDigit(s[k])
    ensures ParseDigits(s[0..4]) == Some(t.year) && ParseDigits(s[5..7]) == Some(t.month)
    ensures ParseDigits(s[8..10]) == Some(t.day) && ParseDigits(s[11..13]) == Some(t.hour)
    ensures ParseDigits(s[14..16]) == Some(t.minute) && ParseDigits(s[17..19]) == Some(t.second)
  {
    var y, mo, d := ZeroPad(t.year, 4), ZeroPad(t.month, 2), ZeroPad(t.day, 2);
    var h, mi, se := ZeroPad(t.hour, 2), ZeroPad(t.minute, 2), ZeroPad(t.second, 2);
    TimestampLayout(y, mo, d, h, mi, se);
    y + "-" + mo + "-" + d + " " + h + ":" + mi + ":" + se
  }

  /** Where the six fields and the five separators of a timestamp lie. */
  lemma TimestampLayout(y: String, mo: String, d: String, h: String, mi: String, se: String)
    requires |y| == 4 && |mo| == 2 && |d| == 2 && |h| == 2 && |mi| == 2 && |se| == 2
    requires AllDigits(y) && AllDigits(mo) && AllDigits(d) && AllDigits(h) && AllDigits(mi) && AllDigits(se)
    ensures var s := y + "-" + mo + "-" + d + " " + h + ":" + mi + ":" + se;
      && |s| == 19
      && s[4] == '-' && s[7] == '-' && s[10] == ' ' && s[13] == ':' && s[16] == ':'
      && (forall k :: 0 <= k < 19 && k != 4 && k != 7 && k != 10 && k != 13 && k != 16 ==> IsDigit(s[k]))
      && s[0..4] == y && s[5..7] == mo && s[8..10] == d
      && s[11..13] == h && s[14..16] == mi && s[17..19] == se
  {
    var date, time := y + "-" + mo + "-" + d, h + ":" + mi + ":" + se;
    ThreeFields(y, mo, d, '-');
    ThreeFields(h, mi, se, ':');
    var s := date + " " + time;
    assert s == y + "-" + mo + "-" + d + " " + h + ":" + mi + ":" + se;
    assert s[0..4] == date[0..4] && s[5..7] == date[5..7] && s[8..10] == date[8..10];
    assert s[11..13] == time[0..2] && s[14..16] == time[3..5] && s[17..19] == time[6..8];
    assert forall k :: 0 <= k < 10 ==> s[k] == date[k];
    assert forall k :: 11 <= k < 19 ==> s[k] == time[k - 11];
  }

  /** Three digit fields joined by a separator: where each field and each separator lies. */
  lemma ThreeFields(a: String, b: String, c: String, sep: char)
    requires AllDigits(a) && AllDigits(b) && AllDigits(c) && !IsDigit(sep)
    ensures var s := a + [sep] + b + [sep] + c;
      && |s| == |a| + |b| + |c| + 2
      && s[..|a|] == a && s[|a| + 1..|a| + 1 + |b|] == b && s[|a| + |b| + 2..] == c
      && s[|a|] == sep && s[|a| + 1 + |b|] == sep
      && forall k :: 0 <= k < |s| ==> (IsDigit(s[k]) <==> k != |a| && k != |a| + 1 + |b|)
  {
    var s := a + [sep] + b + [sep] + c;
    forall k | 0 <= k < |s| ensures IsDigit(s[k]) <==> k != |a| && k != |a| + 1 + |b| {
      if k < |a| {
        assert s[k] == a[k];
      } else if |a| < k < |a| + 1 + |b| {
        assert s[k] == b[k - |a| - 1];
      } else if k > |a| + 1 + |b| {
        assert s[k] == c[k - |a| - |b| - 2];
      }
    }
  }

  /** The dictionary `process_hiscores_response` returns: exactly the keys
      `skills`, `activities`, `player` and `timestamp`. */
  datatype HiscoresRecord = HiscoresRecord(skills: Section, activities: Section, player: String, timestamp: String)

  datatype ProcessError =
    | ParseFailed(cause: SanitizeError)  // raised by sanitize_hiscores_stats
    | InvalidQuery(query: String)        // "Received invalid query in API result"

  /** The query has the one-pair shape `player=<value>`. */
  predicate PlayerQuery(query: String)
  {
    |query| >= 7 && query[..7] == "player=" && '=' !in query[7..]
  }

  /** Splitting the query on `=` gives `player` and one value exactly for that shape. */
  lemma PlayerQuerySplit(query: String)
    ensures var parts := Split(query, '=');
      (|parts| == 2 && parts[0] == "player") <==> PlayerQuery(query)
    ensures PlayerQuery(query) ==> Split(query, '=') == ["player", query[7..]]
  {
    var parts := Split(query, '=');
    if PlayerQuery(query) {
      PlayerQuerySplits(query);
    }
    if |parts| == 2 && parts[0] == "player" {
      PlayerPartsJoin(query, parts);
    }
  }

  lemma PlayerQuerySplits(query: String)
    requires PlayerQuery(query)
    ensures Split(query, '=') == ["player", query[7..]]
  {
    var key, value := "player", query[7..];
    PlayerQueryShape(query, key);
    SplitAfterPiece(key, value, '=');
    SplitFree(value, '=');
  }

  /** A `player=` query is the key, `=`, and the value. */
  lemma PlayerQueryShape(query: String, key: String)
    requires PlayerQuery(query) && key == "player"
    ensures query == key + ['='] + query[7..] && '=' !in key
  {
    assert query[..7] == key + ['='];
    assert query == query[..7] + query[7..];
  }

  lemma PlayerPartsJoin(query: String, parts: seq<String>)
    requires parts == Split(query, '=') && |parts| == 2 && parts[0] == "player"
    ensures PlayerQuery(query)
  {
    JoinPair(parts, '=');
    PlayerQueryOf(query, parts[0], parts[1]);
  }

  /** `player`, `=` and a value free of `=` make a `player=` query. */
  lemma PlayerQueryOf(query: String, key: String, value: String)
    requires query == key + ['='] + value && key == "player" && '=' !in value
    ensures PlayerQuery(query)
  {
    assert query[..7] == key + ['='];
    assert query[7..] == value;
  }

  /** The player name echoed in the request's query: the query split on every
      `=` must be exactly `player` and one value, which has each `+` turned
      into a space. The error quotes the query rejoined, that is, unchanged. */
  function ExtractPlayer(query: String): (r: Result<String, ProcessError>)
    ensures r.Ok? <==> PlayerQuery(query)
    ensures r.Ok? ==> r.value == ReplaceChar(query[7..], '+', ' ')
    ensures r.Err? ==> r.error == InvalidQuery(query)
  {
    PlayerQuerySplit(query);
    var parts := Split(query, '=');
    if |parts| != 2 || parts[0] != "player" then Err(InvalidQuery(Join(parts, '=')))
    else Ok(ReplaceChar(parts[1], '+', ' '))
  }

  /** `process_hiscores_response`: the payload is parsed first, so its error
      wins over a bad query; then the player name and the capture time are
      added. */
  function ProcessResponse(cat: Catalog, resp: Response, now: DateTime): (r: Result<HiscoresRecord, ProcessError>)
    requires ValidDateTime(now)
    ensures Sanitize(cat, resp.text).Err? ==> r == Err(ParseFailed(Sanitize(cat, resp.text).error))
    ensures Sanitize(cat, resp.text).Ok? && ExtractPlayer(resp.query).Err? ==> r == Err(InvalidQuery(resp.query))
    ensures r.Ok? <==> Sanitize(cat, resp.text).Ok? && ExtractPlayer(resp.query).Ok?
    ensures r.Ok? ==>
      && r.value.skills == Sanitize(cat, resp.text).value.skills
      && r.value.activities == Sanitize(cat, resp.text).value.activities
      && r.value.player == ExtractPlayer(resp.query).value
      && r.value.timestamp == FormatTimestamp(now)
  {
    match Sanitize(cat, resp.text)
    case Err(e) => Err(ParseFailed(e))
    case Ok(stats) =>
      match ExtractPlayer(resp.query)
      case Err(e) => Err(e)
      case Ok(player) => Ok(HiscoresRecord(stats.skills, stats.activities, player, FormatTimestamp(now)))
  }
}
