/**
 * The per-testset index of generated masterfiles: rows are collected per
 * testset in the order they are appended, and a testset's rows can be
 * downloaded as a CSV file with a fixed header. Fields that contain a
 * double quote, a comma or a line feed are quoted, with inner quotes
 * doubled, as section 2 of RFC 4180 describes.
 */
module CsvIndex {
  import opened Wrappers
  import opened Text

  /**
   * One index line. The two counts are integers; the two averages are
   * carried as the text `String()` renders for them.
   */
  datatype CsvRow = CsvRow(
    testsetId: string,
    pid: string,
    name: Option<string>,
    pubsInFilter: int,
    uniqueCoauthorsInFilter: int,
    avgCoauthorStrengthInSet: string,
    avgCoauthorStrengthGlobal: string,
    downloadName: string)

  // ------------------------------------------------------------------ the store

  /** `store.get(id) ?? []`. */
  function RowsOf(store: map<string, seq<CsvRow>>, id: string): seq<CsvRow> {
    if id in store then store[id] else []
  }

  /** The store after `appendRow(row)`. */
  function Appended(store: map<string, seq<CsvRow>>, row: CsvRow): map<string, seq<CsvRow>> {
    store[row.testsetId := RowsOf(store, row.testsetId) + [row]]
  }

  /** The store after `clear(id)`. */
  function Cleared(store: map<string, seq<CsvRow>>, id: string): map<string, seq<CsvRow>> {
    store - {id}
  }

  /** Every row is filed under its own testset. */
  ghost predicate Keyed(store: map<string, seq<CsvRow>>) {
    forall id | id in store :: forall r | r in store[id] :: r.testsetId == id
  }

  /** The store after appending `rows` one by one. */
  function AppendedAll(store: map<string, seq<CsvRow>>, rows: seq<CsvRow>): map<string, seq<CsvRow>>
    decreases |rows|
  {
    if rows == [] then store else Appended(AppendedAll(store, rows[..|rows| - 1]), rows[|rows| - 1])
  }

  /** The rows of testset `id`, in order. */
  function OfTestset(rows: seq<CsvRow>, id: string): seq<CsvRow>
    decreases |rows|
  {
    if rows == [] then []
    else OfTestset(rows[..|rows| - 1], id) + (if rows[|rows| - 1].testsetId == id then [rows[|rows| - 1]] else [])
  }

  /** Appending a row adds it at the end of its own testset and changes no other testset. */
  lemma RowsOfAppended(store: map<string, seq<CsvRow>>, row: CsvRow, id: string)
    ensures RowsOf(Appended(store, row), id)
         == if id == row.testsetId then RowsOf(store, id) + [row] else RowsOf(store, id)
  {
  }

  /** Clearing a testset empties it and changes no other testset. */
  lemma RowsOfCleared(store: map<string, seq<CsvRow>>, id: string, other: string)
    ensures RowsOf(Cleared(store, id), other) == if other == id then [] else RowsOf(store, other)
  {
  }

  /** Appending and clearing keep every row under its own testset. */
  lemma KeyedKept(store: map<string, seq<CsvRow>>, row: CsvRow, id: string)
    requires Keyed(store)
    ensures Keyed(Appended(store, row)) && Keyed(Cleared(store, id))
  {
    var s := Appended(store, row);
    forall k: string, r: CsvRow | k in s && r in s[k] ensures r.testsetId == k {
      if k == row.testsetId && r !in RowsOf(store, k) {
        assert r in RowsOf(store, k) + [row];
      }
    }
  }

  /**
   * Starting from an empty store, a testset's rows are exactly the appended
   * rows of that testset, in the order they were appended.
   */
  lemma {:induction false} RowsOfAppendedAll(rows: seq<CsvRow>, id: string)
    ensures RowsOf(AppendedAll(map[], rows), id) == OfTestset(rows, id)
    decreases |rows|
  {
    if rows != [] {
      RowsOfAppendedAll(rows[..|rows| - 1], id);
      RowsOfAppended(AppendedAll(map[], rows[..|rows| - 1]), rows[|rows| - 1], id);
    }
  }

  /** The index store. */
  class CsvIndexService {
    var store: map<string, seq<CsvRow>>

    constructor()
      ensures store == map[]
    {
      store := map[];
    }

    /** `appendRow(row)`: pushes the row at the end of its testset's list. */
    method AppendRow(row: CsvRow)
      modifies this
      ensures store == Appended(old(store), row)
      ensures Keyed(old(store)) ==> Keyed(store)
    {
      var rows := if row.testsetId in store then store[row.testsetId] else [];
      rows := rows + [row];
      store := store[row.testsetId := rows];
      if Keyed(old(store)) {
        KeyedKept(old(store), row, row.testsetId);
      }
    }

    /** `rows(id)`: the testset's rows, empty for an unknown testset. */
    method Rows(id: string) returns (rows: seq<CsvRow>)
      ensures rows == RowsOf(store, id)
      ensures Keyed(store) ==> forall r | r in rows :: r.testsetId == id
    {
      rows := if id in store then store[id] else [];
    }

    /** `clear(id)`: forgets the testset. */
    method Clear(id: string)
      modifies this
      ensures store == Cleared(old(store), id)
      ensures Keyed(old(store)) ==> Keyed(store)
    {
      store := store - {id};
      if Keyed(old(store)) {
        KeyedKept(old(store), CsvRow(id, "", None, 0, 0, "", "", ""), id);
      }
    }

    /** The file name and the text `download(id)` saves. */
    method Download(id: string) returns (fileName: string, text: string)
      ensures fileName == id + "_index.csv"
      ensures text == DownloadText(RowsOf(store, id))
    {
      var rows := Rows(id);
      fileName := id + "_index.csv";
      text := DownloadText(rows);
    }
  }

  // ------------------------------------------------------------------ escaping

  /** `/[",\n]/.test(s)`. */
  predicate NeedsQuotes(s: string) {
    '"' in s || ',' in s || '\n' in s
  }

  /** `s.replace(/"/g, '""')`. */
  function DoubleQuotes(s: string): string {
    ReplaceAll(s, "\"", "\"\"")
  }

  /**
   * `esc(v)`: nothing for a missing value; a value with a quote, comma or
   * line feed is quoted with its quotes doubled; any other value (a lone
   * carriage return included) is written as it is.
   */
  function Esc(v: Option<string>): (r: string)
    ensures v.None? ==> r == ""
    ensures v.Some? && !NeedsQuotes(v.value) ==> r == v.value
    ensures v.Some? && NeedsQuotes(v.value) ==> |r| >= 2 && r[0] == '"' && r[|r| - 1] == '"'
  {
    match v
    case None => ""
    case Some(s) => if NeedsQuotes(s) then "\"" + DoubleQuotes(s) + "\"" else s
  }

  /** The text a value stands for: a missing value reads back as the empty field. */
  function TextOf(v: Option<string>): string {
    if v.Some? then v.value else ""
  }

  function EscAll(vs: seq<Option<string>>): seq<string> {
    seq(|vs|, i requires 0 <= i < |vs| => Esc(vs[i]))
  }

  function TextsOf(vs: seq<Option<string>>): seq<string> {
    seq(|vs|, i requires 0 <= i < |vs| => TextOf(vs[i]))
  }

  /** Integers are written unquoted: their text has no quote, comma or line feed. */
  lemma EscInteger(n: int)
    ensures Esc(Some(IntToString(n))) == IntToString(n)
  {
    var s := IntToString(n);
    assert '"' !in s && ',' !in s && '\n' !in s;
  }

  // ------------------------------------------------------------------ the file

  const Headers: seq<string> := [
    "TestsetID", "PID", "Name",
    "pubsInFilter", "uniqueCoauthorsInFilter",
    "avgCoauthorStrengthInSet", "avgCoauthorStrengthGlobal",
    "downloadName"]

  /** `(r as any)[h]`, rendered with `String()`: the row's field named `h`. */
  function FieldOf(r: CsvRow, h: string): Option<string> {
    if h == "TestsetID" then Some(r.testsetId)
    else if h == "PID" then Some(r.pid)
    else if h == "Name" then r.name
    else if h == "pubsInFilter" then Some(IntToString(r.pubsInFilter))
    else if h == "uniqueCoauthorsInFilter" then Some(IntToString(r.uniqueCoauthorsInFilter))
    else if h == "avgCoauthorStrengthInSet" then Some(r.avgCoauthorStrengthInSet)
    else if h == "avgCoauthorStrengthGlobal" then Some(r.avgCoauthorStrengthGlobal)
    else if h == "downloadName" then Some(r.downloadName)
    else None
  }

  /** The row's values in header order. */
  function Cells(r: CsvRow): seq<Option<string>> {
    seq(|Headers|, i requires 0 <= i < |Headers| => FieldOf(r, Headers[i]))
  }

  /** `headers.map(h => esc(r[h])).join(',')`. */
  function RowLine(r: CsvRow): string {
    Join(EscAll(Cells(r)), ",")
  }

  /** `rows.map(r => ...)`: one line per row. */
  function RowLines(rows: seq<CsvRow>): seq<string> {
    seq(|rows|, k requires 0 <= k < |rows| => RowLine(rows[k]))
  }

  /** The header line followed by one line per row, joined by line feeds. */
  function DownloadText(rows: seq<CsvRow>): string {
    Join([Join(Headers, ",")] + RowLines(rows), "\n")
  }

  /** The header names, in order, are the row's fields, in declaration order. */
  lemma CellsInOrder(r: CsvRow)
    ensures Cells(r) == [Some(r.testsetId), Some(r.pid), r.name,
                         Some(IntToString(r.pubsInFilter)), Some(IntToString(r.uniqueCoauthorsInFilter)),
                         Some(r.avgCoauthorStrengthInSet), Some(r.avgCoauthorStrengthGlobal),
                         Some(r.downloadName)]
  {
    assert Headers[5] != Headers[3] && Headers[5] != Headers[4];
    assert Headers[6] != Headers[5];
  }

  // ------------------------------------------------------------------ reading it back

  /** The field ends at the end of the text, a comma or a line feed. */
  predicate AtBreak(s: string) {
    s == [] || s[0] == ',' || s[0] == '\n'
  }

  /**
   * The contents of a quoted field, read after its opening quote up to its
   * closing quote, a doubled quote standing for one; and the text after the
   * closing quote.
   */
  function ReadQuoted(s: string): (r: Option<(string, string)>)
    ensures r.Some? ==> |r.value.1| < |s|
    decreases |s|
  {
    if s == [] then None
    else if s[0] == '"' then
      if |s| >= 2 && s[1] == '"' then
        match ReadQuoted(s[2..])
        case None => None
        case Some(p) => Some(("\"" + p.0, p.1))
      else Some(("", s[1..]))
    else
      match ReadQuoted(s[1..])
      case None => None
      case Some(p) => Some(([s[0]] + p.0, p.1))
  }

  /** An unquoted field, which may hold no quote, up to the next comma or line feed. */
  function ReadPlain(s: string): (r: Option<(string, string)>)
    ensures r.Some? ==> |r.value.1| <= |s|
    decreases |s|
  {
    if AtBreak(s) then Some(("", s))
    else if s[0] == '"' then None
    else
      match ReadPlain(s[1..])
      case None => None
      case Some(p) => Some(([s[0]] + p.0, p.1))
  }

  /** One field, quoted or not, and the text after it, which starts at a break. */
  function ReadField(s: string): (r: Option<(string, string)>)
    ensures r.Some? ==> |r.value.1| <= |s| && AtBreak(r.value.1)
  {
    if s != [] && s[0] == '"' then
      match ReadQuoted(s[1..])
      case None => None
      case Some(p) => if AtBreak(p.1) then Some(p) else None
    else
      match ReadPlain(s)
      case None => None
      case Some(p) => if AtBreak(p.1) then Some(p) else None
  }

  /** The fields of one record, separated by commas, and the text after it. */
  function ReadRecord(s: string): (r: Option<(seq<string>, string)>)
    ensures r.Some? ==> |r.value.1| <= |s| && (r.value.1 == [] || r.value.1[0] == '\n')
    decreases |s|
  {
    match ReadField(s)
    case None => None
    case Some(p) =>
      if p.1 != [] && p.1[0] == ',' then
        match ReadRecord(p.1[1..])
        case None => None
        case Some(q) => Some(([p.0] + q.0, q.1))
      else Some(([p.0], p.1))
  }

  /** The records of a whole text, separated by line feeds. */
  function ReadDocument(s: string): Option<seq<seq<string>>>
    decreases |s|
  {
    match ReadRecord(s)
    case None => None
    case Some(p) =>
      if p.1 == [] then Some([p.0])
      else
        match ReadDocument(p.1[1..])
        case None => None
        case Some(rs) => Some([p.0] + rs)
  }

  // ------------------------------------------------------------------ round trip

  lemma DoubleQuotesCons(c: char, s: string)
    ensures DoubleQuotes([c] + s) == (if c == '"' then "\"\"" else [c]) + DoubleQuotes(s)
  {
    assert ([c] + s)[1..] == s;
  }

  /** A doubled text followed by a closing quote reads back as the text. */
  lemma {:induction false} ReadQuotedDoubled(s: string, rest: string)
    requires rest == [] || rest[0] != '"'
    ensures ReadQuoted(DoubleQuotes(s) + "\"" + rest) == Some((s, rest))
    decreases |s|
  {
    if s == [] {
      assert DoubleQuotes(s) + "\"" + rest == "\"" + rest;
      assert ("\"" + rest)[1..] == rest;
    } else {
      var c, t := s[0], s[1..];
      assert s == [c] + t;
      DoubleQuotesCons(c, t);
      ReadQuotedDoubled(t, rest);
      var u := DoubleQuotes(t) + "\"" + rest;
      if c == '"' {
        assert DoubleQuotes(s) + "\"" + rest == "\"\"" + u;
        ReadQuotedPairStep(u, t, rest);
      } else {
        assert DoubleQuotes(s) + "\"" + rest == [c] + u;
        ReadQuotedCharStep(c, u, t, rest);
      }
    }
  }

  lemma ReadQuotedPairStep(u: string, t: string, rest: string)
    requires ReadQuoted(u) == Some((t, rest))
    ensures ReadQuoted("\"\"" + u) == Some(("\"" + t, rest))
  {
    assert ("\"\"" + u)[2..] == u;
  }

  lemma ReadQuotedCharStep(c: char, u: string, t: string, rest: string)
    requires c != '"' && ReadQuoted(u) == Some((t, rest))
    ensures ReadQuoted([c] + u) == Some(([c] + t, rest))
  {
    assert ([c] + u)[1..] == u;
  }

  /** A text with no quote, comma or line feed reads back as itself up to the next break. */
  lemma {:induction false} ReadPlainText(s: string, rest: string)
    requires !NeedsQuotes(s) && AtBreak(rest)
    ensures ReadPlain(s + rest) == Some((s, rest))
    decreases |s|
  {
    if s == [] {
      assert s + rest == rest;
    } else {
      assert s[0] in s;
      assert !NeedsQuotes(s[1..]) by {
        forall c | c in s[1..] ensures c in s {
        }
      }
      ReadPlainText(s[1..], rest);
      assert (s + rest)[1..] == s[1..] + rest;
      assert [s[0]] + s[1..] == s;
    }
  }

  /** An escaped value, followed by a break, reads back as the value's text. */
  lemma ReadEscaped(v: Option<string>, rest: string)
    requires AtBreak(rest)
    ensures ReadField(Esc(v) + rest) == Some((TextOf(v), rest))
  {
    if v.Some? && NeedsQuotes(v.value) {
      var e := Esc(v) + rest;
      ReadQuotedDoubled(v.value, rest);
      assert e == "\"" + (DoubleQuotes(v.value) + "\"" + rest);
      assert e[1..] == DoubleQuotes(v.value) + "\"" + rest;
    } else {
      ReadPlainText(TextOf(v), rest);
    }
  }

  lemma EscAllCons(vs: seq<Option<string>>)
    requires |vs| >= 1
    ensures EscAll(vs) == [Esc(vs[0])] + EscAll(vs[1..])
    ensures TextsOf(vs) == [TextOf(vs[0])] + TextsOf(vs[1..])
  {
  }

  /** The text of a line: the first escaped value, a comma, and the rest of the line. */
  lemma LineCons(vs: seq<Option<string>>, rest: string)
    requires |vs| >= 2
    ensures Join(EscAll(vs), ",") + rest == Esc(vs[0]) + ("," + Join(EscAll(vs[1..]), ",") + rest)
  {
    EscAllCons(vs);
    JoinCons(Esc(vs[0]), EscAll(vs[1..]), ",");
  }

  /** A field followed by a comma starts a record that goes on with the rest. */
  lemma ReadRecordStep(s: string, x: string, after: string, xs: seq<string>, rest: string)
    requires ReadField(s) == Some((x, after))
    requires after != [] && after[0] == ','
    requires ReadRecord(after[1..]) == Some((xs, rest))
    ensures ReadRecord(s) == Some(([x] + xs, rest))
  {
  }

  /** A field followed by the end or a line feed is the last of its record. */
  lemma ReadRecordLast(s: string, x: string, rest: string)
    requires ReadField(s) == Some((x, rest))
    requires rest == [] || rest[0] == '\n'
    ensures ReadRecord(s) == Some(([x], rest))
  {
  }

  /** A line of escaped values, followed by the end or a line feed, reads back as their texts. */
  lemma {:induction false} ReadEscapedLine(vs: seq<Option<string>>, rest: string)
    requires |vs| >= 1
    requires rest == [] || rest[0] == '\n'
    ensures ReadRecord(Join(EscAll(vs), ",") + rest) == Some((TextsOf(vs), rest))
    decreases |vs|
  {
    EscAllCons(vs);
    if |vs| == 1 {
      assert Join(EscAll(vs), ",") == Esc(vs[0]);
      assert TextsOf(vs) == [TextOf(vs[0])];
      ReadEscaped(vs[0], rest);
      ReadRecordLast(Esc(vs[0]) + rest, TextOf(vs[0]), rest);
    } else {
      var line := Join(EscAll(vs[1..]), ",") + rest;
      var after := "," + line;
      LineCons(vs, rest);
      assert "," + Join(EscAll(vs[1..]), ",") + rest == after;
      ReadEscaped(vs[0], after);
      assert after[1..] == line;
      ReadEscapedLine(vs[1..], rest);
      ReadRecordStep(Esc(vs[0]) + after, TextOf(vs[0]), after, TextsOf(vs[1..]), rest);
    }
  }

  /** The lines of a table of values. */
  function TableLines(table: seq<seq<Option<string>>>): seq<string> {
    seq(|table|, k requires 0 <= k < |table| => Join(EscAll(table[k]), ","))
  }

  function TableTexts(table: seq<seq<Option<string>>>): seq<seq<string>> {
    seq(|table|, k requires 0 <= k < |table| => TextsOf(table[k]))
  }

  /** A table of escaped lines joined by line feeds reads back as the table of texts. */
  lemma {:induction false} ReadTable(table: seq<seq<Option<string>>>)
    requires |table| >= 1
    requires forall k | 0 <= k < |table| :: |table[k]| >= 1
    ensures ReadDocument(Join(TableLines(table), "\n")) == Some(TableTexts(table))
    decreases |table|
  {
    if |table| == 1 {
      assert TableLines(table) == [Join(EscAll(table[0]), ",")];
      ReadEscapedLine(table[0], "");
      assert Join(EscAll(table[0]), ",") + "" == Join(EscAll(table[0]), ",");
      assert TableTexts(table) == [TextsOf(table[0])];
    } else {
      var tail := table[1..];
      var first := Join(EscAll(table[0]), ",");
      assert TableLines(table) == [first] + TableLines(tail);
      assert TableTexts(table) == [TextsOf(table[0])] + TableTexts(tail);
      JoinCons(first, TableLines(tail), "\n");
      var after := "\n" + Join(TableLines(tail), "\n");
      assert Join(TableLines(table), "\n") == first + after;
      ReadEscapedLine(table[0], after);
      assert after[1..] == Join(TableLines(tail), "\n");
      ReadTable(tail);
    }
  }

  lemma PlainHeaders01()
    ensures !NeedsQuotes("TestsetID") && !NeedsQuotes("PID")
  {
  }

  lemma PlainHeaders23()
    ensures !NeedsQuotes("Name") && !NeedsQuotes("pubsInFilter")
  {
  }

  lemma PlainHeaders4()
    ensures !NeedsQuotes("uniqueCoauthorsInFilter")
  {
  }

  lemma PlainHeaders5()
    ensures !NeedsQuotes("avgCoauthorStrengthInSet")
  {
  }

  lemma PlainHeaders6()
    ensures !NeedsQuotes("avgCoauthorStrengthGlobal")
  {
  }

  lemma PlainHeaders7()
    ensures !NeedsQuotes("downloadName")
  {
  }

  /** No header name needs quoting. */
  lemma PlainHeaders()
    ensures forall i | 0 <= i < |Headers| :: !NeedsQuotes(Headers[i])
  {
    PlainHeaders01();
    PlainHeaders23();
    PlainHeaders4();
    PlainHeaders5();
    PlainHeaders6();
    PlainHeaders7();
  }

  /** Names as present values. */
  function Present(names: seq<string>): seq<Option<string>> {
    seq(|names|, i requires 0 <= i < |names| => Some(names[i]))
  }

  /** Names that need no quoting are written as they are. */
  lemma PresentPlain(names: seq<string>)
    requires forall i | 0 <= i < |names| :: !NeedsQuotes(names[i])
    ensures EscAll(Present(names)) == names && TextsOf(Present(names)) == names
  {
  }

  lemma TableLinesCons(first: seq<Option<string>>, cells: seq<seq<Option<string>>>, lines: seq<string>)
    requires |lines| == |cells|
    requires forall k | 0 <= k < |cells| :: lines[k] == Join(EscAll(cells[k]), ",")
    ensures TableLines([first] + cells) == [Join(EscAll(first), ",")] + lines
  {
  }

  lemma TableTextsCons(first: seq<Option<string>>, cells: seq<seq<Option<string>>>)
    ensures TableTexts([first] + cells) == [TextsOf(first)] + TableTexts(cells)
  {
  }

  /**
   * A header line of names that need no quoting, followed by escaped lines,
   * reads back as the names and then each line's texts.
   */
  lemma ReadWithHeader(names: seq<string>, lines: seq<string>, cells: seq<seq<Option<string>>>)
    requires |names| >= 1 && forall i | 0 <= i < |names| :: !NeedsQuotes(names[i])
    requires |lines| == |cells|
    requires forall k | 0 <= k < |cells| :: |cells[k]| >= 1 && lines[k] == Join(EscAll(cells[k]), ",")
    ensures var d := ReadDocument(Join([Join(names, ",")] + lines, "\n"));
      d.Some? && |d.value| == |cells| + 1 && d.value[0] == names
      && forall k | 0 <= k < |cells| :: d.value[k + 1] == TextsOf(cells[k])
  {
    PresentPlain(names);
    TableLinesCons(Present(names), cells, lines);
    TableTextsCons(Present(names), cells);
    ReadTable([Present(names)] + cells);
  }

  /**
   * The downloaded text, read back as RFC 4180 records separated by line
   * feeds, gives the header names and then, for each row in order, its
   * fields in header order (a missing name as the empty field).
   */
  lemma DownloadRoundTrip(rows: seq<CsvRow>)
    ensures var d := ReadDocument(DownloadText(rows));
      d.Some? && |d.value| == |rows| + 1 && d.value[0] == Headers
      && forall k | 0 <= k < |rows| :: d.value[k + 1] == TextsOf(Cells(rows[k]))
  {
    PlainHeaders();
    var cells := seq(|rows|, k requires 0 <= k < |rows| => Cells(rows[k]));
    ReadWithHeader(Headers, RowLines(rows), cells);
    var d := ReadDocument(DownloadText(rows));
    forall k | 0 <= k < |rows| ensures d.value[k + 1] == TextsOf(Cells(rows[k])) {
      assert cells[k] == Cells(rows[k]);
    }
  }
}
