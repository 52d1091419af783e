/** What the hiscores parser guarantees across calls and inputs: how the
    payload is cut into skill and activity lines, why a wrong line count is
    no error, which error wins, and that a well-formed payload parses back
    to the values it was written from. */
module RsApiProperties {
  import opened Wrappers
  import opened PyStr
  import opened PyInt
  import opened PyDict
  import opened RsApi

  // ------------------------------------------------------------ line split

  /** The skill slice and the activity slice are consecutive and cover every line. */
  lemma LinesPartition(cat: Catalog, lines: seq<String>)
    ensures SkillLines(cat, lines) + ActivityLines(cat, lines) == lines
    ensures |SkillLines(cat, lines)| == Min(|cat.skills|, |lines|)
    ensures |cat.skills| <= |lines| ==> |ActivityLines(cat, lines)| == |lines| - |cat.skills|
  {
  }

  /** Text that is empty or only whitespace becomes the single empty line. */
  lemma BlankTextOneLine(text: String)
    requires AllSpace(text)
    ensures Lines(text) == [[]]
  {
    StripBlank(text);
  }

  /** A blank payload fails on its one empty line: against the skill columns
      when there are skills, else against the activity columns; the empty
      field is a schema error unless the schema has exactly one column, in
      which case `int("")` fails. Only with both catalogs empty is it accepted. */
  lemma BlankTextFails(cat: Catalog, text: String)
    requires AllSpace(text)
    ensures var r := Sanitize(cat, text);
      && (|cat.skills| > 0 && |cat.skillCols| != 1 ==> r == Err(MalformedSkillLine(cat.skillCols, [])))
      && (|cat.skills| > 0 && |cat.skillCols| == 1 ==> r == Err(IntConversion([])))
      && (|cat.skills| == 0 && |cat.activities| > 0 && |cat.activityCols| != 1 ==>
            r == Err(MalformedActivityLine(cat.activityCols, [])))
      && (|cat.skills| == 0 && |cat.activities| > 0 && |cat.activityCols| == 1 ==> r == Err(IntConversion([])))
      && (|cat.skills| == 0 && |cat.activities| == 0 ==> r == Ok(Stats(map[], map[])))
  {
    BlankTextOneLine(text);
    var lines := Lines(text);
    assert Fields([]) == [[]];
    assert !IsIntLiteral([]);
    if |cat.skills| > 0 {
      assert FirstFailure(lines, cat.skillCols, 0, 0);
      FirstBadSkillLine(cat, lines, 0);
      if |cat.skillCols| == 1 {
        assert FirstBadField(Fields(lines[0]), 0);
      }
    } else if |cat.activities| > 0 {
      assert FirstFailure(lines, cat.activityCols, 0, 0);
      FirstBadActivityLine(cat, lines, 0);
      if |cat.activityCols| == 1 {
        assert FirstBadField(Fields(lines[0]), 0);
      }
    } else {
      var r := SanitizeLines(cat, lines);
      assert r.Ok?;
      assert r.value.skills.Keys == {} && r.value.activities.Keys == {};
    }
  }

  // ----------------------------------------------------- wrong line counts

  /** Only the first `min(|labels|, |lines|)` lines matter to a section. */
  lemma SectionIgnoresTail(labels: seq<String>, lines: seq<String>, extra: seq<String>,
                           parse: String -> Result<Entry, LineError>)
    requires |lines| >= |labels|
    ensures ParseSection(labels, lines + extra, parse) == ParseSection(labels, lines, parse)
  {
    assert (lines + extra)[..|labels|] == lines[..|labels|];
  }

  /** Lines past the two catalogs are never parsed: appending anything to a
      payload that already has `|skills| + |activities|` lines changes nothing,
      so such lines can never cause an error. */
  lemma ExtraLinesIgnored(cat: Catalog, lines: seq<String>, extra: seq<String>)
    requires |lines| >= |cat.skills| + |cat.activities|
    ensures SanitizeLines(cat, lines + extra) == SanitizeLines(cat, lines)
  {
    var all := lines + extra;
    assert SkillCount(cat, all) == SkillCount(cat, lines) == |cat.skills|;
    assert SkillLines(cat, all) == SkillLines(cat, lines);
    assert ActivityLines(cat, all) == ActivityLines(cat, lines) + extra;
    SectionIgnoresTail(cat.activities, ActivityLines(cat, lines), extra, ActivityParser(cat));
  }

  /** With fewer lines than the catalogs have labels, the payload still parses
      when its lines do, and only the labels that got a line are present. */
  lemma ShortPayloadKeys(cat: Catalog, lines: seq<String>)
    requires SanitizeLines(cat, lines).Ok?
    requires |lines| < |cat.skills| + |cat.activities|
    ensures var stats := SanitizeLines(cat, lines).value;
      && (forall l :: l in stats.skills <==> l in cat.skills[..Min(|cat.skills|, |lines|)])
      && (forall l :: l in stats.activities <==>
            l in cat.activities[..Min(|cat.activities|, |lines| - Min(|cat.skills|, |lines|))])
  {
    var stats := SanitizeLines(cat, lines).value;
    PrefixKeys(cat.skills, SkillCount(cat, lines), stats.skills);
    PrefixKeys(cat.activities, ActivityCount(cat, lines), stats.activities);
  }

  /** Keys drawn from the first `n` labels are the keys in `labels[..n]`. */
  lemma PrefixKeys(labels: seq<String>, n: int, m: Section)
    requires 0 <= n <= |labels|
    requires forall l :: l in m <==> exists k :: 0 <= k < n && labels[k] == l
    ensures forall l :: l in m <==> l in labels[..n]
  {
    forall l ensures l in m <==> l in labels[..n] {
      if l in labels[..n] {
        var k :| 0 <= k < n && labels[..n][k] == l;
        assert labels[k] == l;
      }
      if l in m {
        var k :| 0 <= k < n && labels[k] == l;
        assert labels[..n][k] == l;
      }
    }
  }

  // ------------------------------------------------------------- one line

  /** With distinct column names, a parsed line holds every column, and column
      `i` holds the integer written in field `i`. */
  lemma ParseLineDistinct(line: String, schema: seq<String>, i: int)
    requires forall a, b :: 0 <= a < b < |schema| ==> schema[a] != schema[b]
    requires ParseLine(line, schema).Ok? && 0 <= i < |schema|
    ensures schema[i] in ParseLine(line, schema).value
    ensures Some(ParseLine(line, schema).value[schema[i]]) == ParseInt(Fields(line)[i])
  {
    assert LastOccurrence(schema, i, |schema|);
  }

  // ---------------------------------------------------------- which error

  /** There is only one first failure from a given line on. */
  lemma FirstFailureUnique(lines: seq<String>, schema: seq<String>, lo: int, k: int, k': int)
    requires FirstFailure(lines, schema, lo, k) && FirstFailure(lines, schema, lo, k')
    ensures k == k'
  {
  }

  /** There is only one first bad field. */
  lemma FirstBadFieldUnique(fields: seq<String>, k: int, k': int)
    requires FirstBadField(fields, k) && FirstBadField(fields, k')
    ensures k == k'
  {
  }

  /** The first failing skill line decides the outcome, whatever the activity
      lines hold: a wrong field count is reported as a malformed skill line,
      a non-integer field as `int()`'s own error on the first such field. */
  lemma FirstBadSkillLine(cat: Catalog, lines: seq<String>, k: int)
    requires k < SkillCount(cat, lines) && FirstFailure(lines, cat.skillCols, 0, k)
    ensures SanitizeLines(cat, lines) == Err(SkillError(ParseLine(lines[k], cat.skillCols).error))
    ensures |Fields(lines[k])| != |cat.skillCols| ==>
      SanitizeLines(cat, lines) == Err(MalformedSkillLine(cat.skillCols, lines[k]))
    ensures |Fields(lines[k])| == |cat.skillCols| ==>
      exists f :: FirstBadField(Fields(lines[k]), f) && SanitizeLines(cat, lines) == Err(IntConversion(Fields(lines[k])[f]))
  {
    SkillLineDecides(cat, lines, k);
    LineErrorKinds(lines[k], cat.skillCols);
  }

  lemma SkillLineDecides(cat: Catalog, lines: seq<String>, k: int)
    requires k < SkillCount(cat, lines) && FirstFailure(lines, cat.skillCols, 0, k)
    ensures SanitizeLines(cat, lines) == Err(SkillError(ParseLine(lines[k], cat.skillCols).error))
  {
    var r := SanitizeLines(cat, lines);
    assert r.Err?;
    var k' :| FirstFailure(lines, cat.skillCols, 0, k') && k' < SkillCount(cat, lines)
      && r.error == SkillError(ParseLine(lines[k'], cat.skillCols).error);
    FirstFailureUnique(lines, cat.skillCols, 0, k, k');
  }

  /** A line that fails has either the wrong field count or a first non-integer field. */
  lemma LineErrorKinds(line: String, schema: seq<String>)
    requires ParseLine(line, schema).Err?
    ensures |Fields(line)| != |schema| ==> ParseLine(line, schema).error == SchemaMismatch(schema, line)
    ensures |Fields(line)| == |schema| ==>
      exists f :: FirstBadField(Fields(line), f) && ParseLine(line, schema).error == NotAnInteger(Fields(line)[f])
  {
  }

  /** When every skill line parses, the first failing activity line that
      `zip` reaches decides the outcome, in the same two ways. */
  lemma FirstBadActivityLine(cat: Catalog, lines: seq<String>, k: int)
    requires forall j :: 0 <= j < SkillCount(cat, lines) ==> ParseLine(lines[j], cat.skillCols).Ok?
    requires k < SkillCount(cat, lines) + ActivityCount(cat, lines)
    requires FirstFailure(lines, cat.activityCols, SkillCount(cat, lines), k)
    ensures SanitizeLines(cat, lines) == Err(ActivityError(ParseLine(lines[k], cat.activityCols).error))
    ensures |Fields(lines[k])| != |cat.activityCols| ==>
      SanitizeLines(cat, lines) == Err(MalformedActivityLine(cat.activityCols, lines[k]))
    ensures |Fields(lines[k])| == |cat.activityCols| ==>
      exists f :: FirstBadField(Fields(lines[k]), f)
                  && SanitizeLines(cat, lines) == Err(IntConversion(Fields(lines[k])[f]))
  {
    ActivityLineDecides(cat, lines, k);
    LineErrorKinds(lines[k], cat.activityCols);
  }

  lemma ActivityLineDecides(cat: Catalog, lines: seq<String>, k: int)
    requires forall j :: 0 <= j < SkillCount(cat, lines) ==> ParseLine(lines[j], cat.skillCols).Ok?
    requires k < SkillCount(cat, lines) + ActivityCount(cat, lines)
    requires FirstFailure(lines, cat.activityCols, SkillCount(cat, lines), k)
    ensures SanitizeLines(cat, lines) == Err(ActivityError(ParseLine(lines[k], cat.activityCols).error))
  {
    var r := SanitizeLines(cat, lines);
    assert r.Err?;
    var k' :| FirstFailure(lines, cat.activityCols, SkillCount(cat, lines), k')
      && k' < SkillCount(cat, lines) + ActivityCount(cat, lines)
      && r.error == ActivityError(ParseLine(lines[k'], cat.activityCols).error);
    FirstFailureUnique(lines, cat.activityCols, SkillCount(cat, lines), k, k');
  }

  /** A failing skill line wins over any failing activity line: the error
      then comes from the first failing skill line. */
  lemma SkillErrorWins(cat: Catalog, lines: seq<String>, i: int)
    requires 0 <= i < SkillCount(cat, lines) && ParseLine(lines[i], cat.skillCols).Err?
    ensures exists k :: k <= i && FirstFailure(lines, cat.skillCols, 0, k)
              && SanitizeLines(cat, lines) == Err(SkillError(ParseLine(lines[k], cat.skillCols).error))
  {
    var k := FirstFailing(lines, cat.skillCols, i);
    FirstBadSkillLine(cat, lines, k);
  }

  /** The first line up to `i` that fails against `schema`, given that line `i` fails. */
  function FirstFailing(lines: seq<String>, schema: seq<String>, i: int): (k: int)
    requires 0 <= i < |lines| && ParseLine(lines[i], schema).Err?
    ensures k <= i && FirstFailure(lines, schema, 0, k)
    decreases i
  {
    if forall j :: 0 <= j < i ==> ParseLine(lines[j], schema).Ok? then i
    else
      var j :| 0 <= j < i && ParseLine(lines[j], schema).Err?;
      FirstFailing(lines, schema, j)
  }

  // ------------------------------------------------------------ round trip

  /** One row of the payload as the service writes it: the values in decimal, comma-separated. */
  function RenderRow(row: seq<int>): String
  {
    Join(RenderFields(row), ',')
  }

  function RenderLines(rows: seq<seq<int>>): seq<String>
  {
    seq(|rows|, i requires 0 <= i < |rows| => RenderRow(rows[i]))
  }

  /** A whole payload: the rows, one per line. */
  function RenderPayload(rows: seq<seq<int>>): String
  {
    Join(RenderLines(rows), '\n')
  }

  /** The decimal fields of a rendered row. */
  function RenderFields(row: seq<int>): seq<String>
  {
    seq(|row|, i requires 0 <= i < |row| => IntToString(row[i]))
  }

  /** A rendered row is one line: it holds no newline. */
  lemma RenderRowOneLine(row: seq<int>)
    ensures '\n' !in RenderRow(row)
  {
    var fields := RenderFields(row);
    assert RenderRow(row) == Join(fields, ',');
    forall k | 0 <= k < |fields| ensures '\n' !in fields[k] {
      var t := fields[k];
      assert forall c :: c in t ==> IsDigit(c) || c == '-';
    }
    JoinAvoids(fields, ',', '\n');
  }

  /** A rendered row of at least one value starts and ends with a non-space. */
  lemma RenderRowEnds(row: seq<int>)
    requires |row| >= 1
    ensures |RenderRow(row)| >= 1 && !IsSpace(RenderRow(row)[0])
    ensures !IsSpace(RenderRow(row)[|RenderRow(row)| - 1])
  {
    var fields := RenderFields(row);
    assert RenderRow(row) == Join(fields, ',');
    JoinFirst(fields, ',');
    JoinLast(fields, ',');
  }

  /** A rendered row of at least one value has the row's values as its fields. */
  lemma RenderRowFields(row: seq<int>)
    requires |row| >= 1
    ensures Fields(RenderRow(row)) == RenderFields(row)
  {
    var fields := RenderFields(row);
    assert RenderRow(row) == Join(fields, ',');
    forall k | 0 <= k < |fields| ensures ',' !in fields[k] {
      var t := fields[k];
      assert forall c :: c in t ==> IsDigit(c) || c == '-';
    }
    SplitJoin(fields, ',');
  }

  /** A rendered row with one value per column parses back to those values. */
  lemma RenderRowParses(row: seq<int>, schema: seq<String>)
    requires |row| == |schema| >= 1
    ensures ParseLine(RenderRow(row), schema) == Ok(DictZip(schema, row))
  {
    RenderRowFields(row);
    var fields := Fields(RenderRow(row));
    forall k | 0 <= k < |fields| ensures IntField(fields[k]) == Ok(row[k]) {
      ParseIntToString(row[k]);
    }
    TryMapAllOk(IntField, fields, row);
  }

  /** Lines that hold no newline, and whose text does not start or end with
      whitespace, come back unchanged from joining, stripping and splitting. */
  lemma LinesOfJoin(lines: seq<String>)
    requires |lines| >= 1 && |lines[0]| >= 1 && |lines[|lines| - 1]| >= 1
    requires !IsSpace(lines[0][0]) && !IsSpace(lines[|lines| - 1][|lines[|lines| - 1]| - 1])
    requires forall k :: 0 <= k < |lines| ==> '\n' !in lines[k]
    ensures Lines(Join(lines, '\n')) == lines
  {
    var text := Join(lines, '\n');
    JoinFirst(lines, '\n');
    JoinLast(lines, '\n');
    StripKeeps(text);
    SplitJoin(lines, '\n');
  }

  /** No rendered line holds a newline. */
  lemma RenderLinesOneLine(rows: seq<seq<int>>)
    ensures forall k :: 0 <= k < |RenderLines(rows)| ==> '\n' !in RenderLines(rows)[k]
  {
    var lines := RenderLines(rows);
    forall k | 0 <= k < |lines| ensures '\n' !in lines[k] {
      assert lines[k] == RenderRow(rows[k]);
      RenderRowOneLine(rows[k]);
    }
  }

  /** The rendered line of row `k` is `RenderRow(rows[k])`, and it starts and ends with a non-space. */
  lemma RenderLineEnds(rows: seq<seq<int>>, k: int)
    requires 0 <= k < |rows| && |rows[k]| >= 1
    ensures |RenderLines(rows)| == |rows| && |RenderLines(rows)[k]| >= 1 && !IsSpace(RenderLines(rows)[k][0])
    ensures !IsSpace(RenderLines(rows)[k][|RenderLines(rows)[k]| - 1])
  {
    assert RenderLines(rows)[k] == RenderRow(rows[k]);
    RenderRowEnds(rows[k]);
  }

  /** A rendered payload of non-empty rows splits back into its rendered rows. */
  lemma RenderPayloadLines(rows: seq<seq<int>>)
    requires |rows| >= 1
    requires forall k :: 0 <= k < |rows| ==> |rows[k]| >= 1
    ensures Lines(RenderPayload(rows)) == RenderLines(rows)
  {
    RenderLinesShape(rows);
    LinesOfJoin(RenderLines(rows));
  }

  /** Rendered non-empty rows meet the conditions of `LinesOfJoin`. */
  lemma RenderLinesShape(rows: seq<seq<int>>)
    requires |rows| >= 1
    requires forall k :: 0 <= k < |rows| ==> |rows[k]| >= 1
    ensures var lines := RenderLines(rows);
      && |lines| >= 1 && |lines[0]| >= 1 && |lines[|lines| - 1]| >= 1
      && !IsSpace(lines[0][0]) && !IsSpace(lines[|lines| - 1][|lines[|lines| - 1]| - 1])
      && forall k :: 0 <= k < |lines| ==> '\n' !in lines[k]
  {
    var lines := RenderLines(rows);
    RenderLinesOneLine(rows);
    RenderLineEnds(rows, 0);
    RenderLineEnds(rows, |lines| - 1);
  }

  /** Rendering rows one after another renders each part in turn. */
  lemma RenderLinesAppend(a: seq<seq<int>>, b: seq<seq<int>>)
    ensures RenderLines(a + b) == RenderLines(a) + RenderLines(b)
  {
    assert forall k :: 0 <= k < |a| ==> (a + b)[k] == a[k];
    assert forall k :: |a| <= k < |a| + |b| ==> (a + b)[k] == b[k - |a|];
  }

  /** One skill line per skill label: the rest of the lines are the activity lines. */
  lemma SplitAtCatalog(cat: Catalog, a: seq<String>, b: seq<String>)
    requires |a| == |cat.skills|
    ensures SkillLines(cat, a + b) == a && ActivityLines(cat, a + b) == b
  {
    assert (a + b)[..|a|] == a;
    assert (a + b)[|a|..] == b;
  }

  /** The entries the rows of a section stand for, one dictionary per row. */
  function RowEntries(cols: seq<String>, rows: seq<seq<int>>): seq<Entry>
  {
    seq(|rows|, i requires 0 <= i < |rows| => DictZip(cols, rows[i]))
  }

  /** A section of rendered rows, one per label, parses to the entries of the rows. */
  lemma SectionRoundTrip(labels: seq<String>, cols: seq<String>, rows: seq<seq<int>>,
                         parse: String -> Result<Entry, LineError>)
    requires |rows| == |labels| && |cols| >= 1
    requires forall k :: 0 <= k < |rows| ==> |rows[k]| == |cols|
    requires forall line :: parse(line) == ParseLine(line, cols)
    ensures ParseSection(labels, RenderLines(rows), parse) == Ok(DictZip(labels, RowEntries(cols, rows)))
  {
    var lines, entries := RenderLines(rows), RowEntries(cols, rows);
    forall k | 0 <= k < |lines| ensures parse(lines[k]) == Ok(entries[k]) {
      assert lines[k] == RenderRow(rows[k]);
      RenderRowParses(rows[k], cols);
    }
    assert lines[..|labels|] == lines;
    TryMapAllOk(parse, lines, entries);
  }

  /** Rows of skill values and of activity values, one per label and one value
      per column, rendered as the service does, parse back to the dictionaries
      built from exactly those values. */
  lemma SanitizeRoundTrip(cat: Catalog, skillRows: seq<seq<int>>, activityRows: seq<seq<int>>)
    requires |skillRows| == |cat.skills| && |activityRows| == |cat.activities|
    requires |cat.skills| + |cat.activities| >= 1
    requires |cat.skillCols| >= 1 && |cat.activityCols| >= 1
    requires forall k :: 0 <= k < |skillRows| ==> |skillRows[k]| == |cat.skillCols|
    requires forall k :: 0 <= k < |activityRows| ==> |activityRows[k]| == |cat.activityCols|
    ensures Sanitize(cat, RenderPayload(skillRows + activityRows)) == Ok(Stats(
      DictZip(cat.skills, RowEntries(cat.skillCols, skillRows)),
      DictZip(cat.activities, RowEntries(cat.activityCols, activityRows))))
  {
    var rows := skillRows + activityRows;
    assert forall k :: 0 <= k < |rows| ==> |rows[k]| >= 1 by {
      forall k | 0 <= k < |rows| ensures |rows[k]| >= 1 {
        if k < |skillRows| { assert rows[k] == skillRows[k]; } else { assert rows[k] == activityRows[k - |skillRows|]; }
      }
    }
    RenderPayloadLines(rows);
    RenderLinesAppend(skillRows, activityRows);
    SplitAtCatalog(cat, RenderLines(skillRows), RenderLines(activityRows));
    SectionRoundTrip(cat.skills, cat.skillCols, skillRows, SkillParser(cat));
    SectionRoundTrip(cat.activities, cat.activityCols, activityRows, ActivityParser(cat));
  }

  /** With distinct labels and column names, the parsed payload holds every
      label, each with every column, and the value written for it. */
  lemma SanitizeRoundTripLookup(cat: Catalog, skillRows: seq<seq<int>>, activityRows: seq<seq<int>>, i: int, j: int)
    requires |skillRows| == |cat.skills| && |activityRows| == |cat.activities|
    requires |cat.skills| + |cat.activities| >= 1
    requires |cat.skillCols| >= 1 && |cat.activityCols| >= 1
    requires forall k :: 0 <= k < |skillRows| ==> |skillRows[k]| == |cat.skillCols|
    requires forall k :: 0 <= k < |activityRows| ==> |activityRows[k]| == |cat.activityCols|
    requires forall a, b :: 0 <= a < b < |cat.skills| ==> cat.skills[a] != cat.skills[b]
    requires forall a, b :: 0 <= a < b < |cat.skillCols| ==> cat.skillCols[a] != cat.skillCols[b]
    requires 0 <= i < |cat.skills| && 0 <= j < |cat.skillCols|
    ensures var r := Sanitize(cat, RenderPayload(skillRows + activityRows));
      && r.Ok?
      && (forall l :: l in r.value.skills <==> l in cat.skills)
      && cat.skills[i] in r.value.skills && cat.skillCols[j] in r.value.skills[cat.skills[i]]
      && r.value.skills[cat.skills[i]][cat.skillCols[j]] == skillRows[i][j]
  {
    SanitizeRoundTrip(cat, skillRows, activityRows);
    SectionLookup(cat.skills, cat.skillCols, skillRows, i, j);
  }

  /** The same read-back for the activities: activity `i` column `j` of the
      parsed payload is the integer written there. */
  lemma SanitizeRoundTripActivityLookup(cat: Catalog, skillRows: seq<seq<int>>, activityRows: seq<seq<int>>,
                                        i: int, j: int)
    requires |skillRows| == |cat.skills| && |activityRows| == |cat.activities|
    requires |cat.skills| + |cat.activities| >= 1
    requires |cat.skillCols| >= 1 && |cat.activityCols| >= 1
    requires forall k :: 0 <= k < |skillRows| ==> |skillRows[k]| == |cat.skillCols|
    requires forall k :: 0 <= k < |activityRows| ==> |activityRows[k]| == |cat.activityCols|
    requires forall a, b :: 0 <= a < b < |cat.activities| ==> cat.activities[a] != cat.activities[b]
    requires forall a, b :: 0 <= a < b < |cat.activityCols| ==> cat.activityCols[a] != cat.activityCols[b]
    requires 0 <= i < |cat.activities| && 0 <= j < |cat.activityCols|
    ensures var r := Sanitize(cat, RenderPayload(skillRows + activityRows));
      && r.Ok?
      && (forall l :: l in r.value.activities <==> l in cat.activities)
      && cat.activities[i] in r.value.activities && cat.activityCols[j] in r.value.activities[cat.activities[i]]
      && r.value.activities[cat.activities[i]][cat.activityCols[j]] == activityRows[i][j]
  {
    SanitizeRoundTrip(cat, skillRows, activityRows);
    SectionLookup(cat.activities, cat.activityCols, activityRows, i, j);
  }

  /** In the section built from the rows, with distinct labels and columns,
      the keys are the labels and label `i` holds column `j` of row `i`. */
  lemma SectionLookup(labels: seq<String>, cols: seq<String>, rows: seq<seq<int>>, i: int, j: int)
    requires |rows| == |labels|
    requires forall k :: 0 <= k < |rows| ==> |rows[k]| == |cols|
    requires forall a, b :: 0 <= a < b < |labels| ==> labels[a] != labels[b]
    requires forall a, b :: 0 <= a < b < |cols| ==> cols[a] != cols[b]
    requires 0 <= i < |labels| && 0 <= j < |cols|
    ensures var section := DictZip(labels, RowEntries(cols, rows));
      && (forall l :: l in section <==> l in labels)
      && labels[i] in section && cols[j] in section[labels[i]]
      && section[labels[i]][cols[j]] == rows[i][j]
  {
    var entries := RowEntries(cols, rows);
    DictZipKeys(labels, entries);
    DictZipDistinct(labels, entries, i);
    RowEntryLookup(cols, rows, i, j);
  }

  /** Entry `i` holds column `j` of row `i`, when the columns are distinct. */
  lemma RowEntryLookup(cols: seq<String>, rows: seq<seq<int>>, i: int, j: int)
    requires 0 <= i < |rows| && |rows[i]| == |cols|
    requires forall a, b :: 0 <= a < b < |cols| ==> cols[a] != cols[b]
    requires 0 <= j < |cols|
    ensures cols[j] in RowEntries(cols, rows)[i] && RowEntries(cols, rows)[i][cols[j]] == rows[i][j]
  {
    assert RowEntries(cols, rows)[i] == DictZip(cols, rows[i]);
    DictZipDistinct(cols, rows[i], j);
  }

  // ---------------------------------------------------- response and query

  /** The response time, which only decides whether a warning is logged,
      never changes the outcome of the checks. */
  lemma ElapsedIrrelevant(resp: Response, elapsedMicros: nat)
    ensures var slow := resp.(elapsedMicros := elapsedMicros);
      && (ClassifyResponse(slow).Ok? <==> ClassifyResponse(resp).Ok?)
      && (ClassifyResponse(resp).Err? ==> ClassifyResponse(slow) == ClassifyResponse(resp))
  {
  }

  /** Whether the slow-response warning fires never changes the outcome: a slow
      response and the same response arriving in time are classified alike. */
  lemma SlowWarningOnlyLogs(slow: Response, fast: Response, warnSecs: int)
    requires SlowResponse(slow, warnSecs) && !SlowResponse(fast, warnSecs)
    requires fast == slow.(elapsedMicros := fast.elapsedMicros)
    ensures ClassifyResponse(slow).Ok? <==> ClassifyResponse(fast).Ok?
    ensures ClassifyResponse(slow).Err? ==> ClassifyResponse(slow) == ClassifyResponse(fast)
  {
    ElapsedIrrelevant(slow, fast.elapsedMicros);
  }

  /** Any value without `=` after `player=` is accepted, with `+` read as a space. */
  lemma QueryOfName(query: String, name: String)
    requires query == "player=" + name && '=' !in name
    ensures ExtractPlayer(query) == Ok(ReplaceChar(name, '+', ' '))
  {
    assert query[..7] == "player=" && query[7..] == name;
  }

  /** A one-pair query yields its value. */
  lemma QueryPlainName(query: String)
    requires query == "player=Zezima"
    ensures ExtractPlayer(query) == Ok("Zezima")
  {
    var name := "Zezima";
    assert query == "player=" + name;
    assert '=' !in name && '+' !in name;
    ReplaceAbsent(name, '+', ' ');
    QueryOfName(query, name);
  }

  /** A `+` in the value stands for a space. */
  lemma QueryPlusIsSpace(query: String)
    requires query == "player=Player+One"
    ensures ExtractPlayer(query) == Ok("Player One")
  {
    var first, last := "Player", "One";
    PlusName(query, first, last);
    ReplaceOne(first, last, '+', ' ');
    QueryOfName(query, first + ['+'] + last);
    SpacedName(first, last);
  }

  /** The example query is `player=` and the two words joined by `+`. */
  lemma PlusName(query: String, first: String, last: String)
    requires query == "player=Player+One" && first == "Player" && last == "One"
    ensures query == "player=" + (first + ['+'] + last)
    ensures '=' !in first + ['+'] + last && '+' !in first && '+' !in last
  {
  }

  /** The two words with a space between them. */
  lemma SpacedName(first: String, last: String)
    requires first == "Player" && last == "One"
    ensures first + [' '] + last == "Player One"
  {
  }

  /** An empty query, a second pair and another key are rejected with the query quoted. */
  lemma QueryRejected()
    ensures ExtractPlayer("") == Err(InvalidQuery(""))
    ensures ExtractPlayer("player=a&mode=b") == Err(InvalidQuery("player=a&mode=b"))
    ensures ExtractPlayer("name=Zezima") == Err(InvalidQuery("name=Zezima"))
  {
    var q := "player=a&mode=b";
    assert q[7..][6] == '=';
    assert "name=Zezima"[..7] != "player=" by {
      assert "name=Zezima"[0] != 'p';
    }
  }

  /** Ironman names are recognised in any case. */
  lemma EndpointExamples()
    ensures GetHiscoresApi("Iron Bob") == HISCORES_IRONMAN_API
    ensures GetHiscoresApi("xIRONx") == HISCORES_IRONMAN_API
    ensures GetHiscoresApi("Zezima") == HISCORES_API
  {
    assert IronAt("Iron Bob", 0);
    assert IronAt("xIRONx", 1);
    var z := "Zezima";
    forall i | 0 <= i && i + 4 <= |z| ensures !IronAt(z, i) {
    }
  }
}
