/** `entriesToCSV` (src/utils/helpers.ts): one header record and one record per
    entry, fields separated by `,` and records by `\n`; a field is enclosed in
    double quotes, with its own double quotes doubled, exactly when it contains a
    comma, a double quote or a line feed. The module also defines a reader for
    that format, the inverse against which the export is proved lossless. */
module Csv {
  import opened Seqs
  import opened Text
  import opened Types

  /** The header record, in column order. */
  const Headers: seq<string> :=
    ["date", "dayNumber", "project", "categories", "title", "description", "technologies", "teamType", "createdAt"]

  // ---------------------------------------------------------------------------
  // Writing

  /** The field must be quoted: it contains `,`, `"` or a line feed. */
  predicate NeedsQuoting(s: string)
  {
    ',' in s || '"' in s || '\n' in s
  }

  /** `str.replace(/"/g, '""')`. */
  function DoubleQuotes(s: string): (r: string)
    ensures '"' !in s ==> r == s
    ensures |r| >= |s|
  {
    if |s| == 0 then []
    else (if s[0] == '"' then "\"\"" else [s[0]]) + DoubleQuotes(s[1..])
  }

  /** `escape`: a field as written into a record. */
  function Escape(s: string): (r: string)
    ensures !NeedsQuoting(s) ==> r == s
    ensures NeedsQuoting(s) ==> |r| >= 2 && r[0] == '"' && r[|r| - 1] == '"'
  {
    if NeedsQuoting(s) then "\"" + DoubleQuotes(s) + "\"" else s
  }

  /** Every field escaped (`r.map(escape)`). */
  function EscapeAll(fields: seq<string>): (r: seq<string>)
    ensures |r| == |fields|
  {
    if |fields| == 0 then [] else [Escape(fields[0])] + EscapeAll(fields[1..])
  }

  /** One record: the escaped fields joined with commas. */
  function FormatRecord(fields: seq<string>): string
  {
    Join(EscapeAll(fields), ",")
  }

  /** Every record formatted. */
  function FormatAll(rows: seq<seq<string>>): (r: seq<string>)
    ensures |r| == |rows|
  {
    if |rows| == 0 then [] else [FormatRecord(rows[0])] + FormatAll(rows[1..])
  }

  /** A document: the formatted records joined with line feeds. */
  function FormatDocument(rows: seq<seq<string>>): string
  {
    Join(FormatAll(rows), "\n")
  }

  /** How a chosen technology is written: `tech (s1, s2)`, or just `tech` without
      sub-technologies. */
  function TechLabel(t: TechSelection): string
  {
    t.tech + (if |t.subTechs| > 0 then " (" + Join(t.subTechs, ", ") + ")" else "")
  }

  /** The labels of several chosen technologies. */
  function TechLabels(ts: seq<TechSelection>): (r: seq<string>)
    ensures |r| == |ts|
    ensures forall i :: 0 <= i < |ts| ==> r[i] == TechLabel(ts[i])
  {
    if |ts| == 0 then [] else [TechLabel(ts[0])] + TechLabels(ts[1..])
  }

  /** The nine field values of one entry, in header order, before escaping. */
  function FieldsOf(e: Entry): (r: seq<string>)
    ensures |r| == |Headers|
  {
    [ e.date, NatToString(e.dayNumber), e.project,
      Join(e.categories, "; "),
      e.title, e.description,
      Join(TechLabels(e.technologies), " | "),
      TeamTypeName(e.teamType), e.createdAt ]
  }

  /** The field values of every entry. */
  function Rows(es: seq<Entry>): (r: seq<seq<string>>)
    ensures |r| == |es|
    ensures forall i :: 0 <= i < |es| ==> r[i] == FieldsOf(es[i])
  {
    if |es| == 0 then [] else [FieldsOf(es[0])] + Rows(es[1..])
  }

  /** `entriesToCSV`: the header line (joined without escaping) followed by one
      escaped record per entry, joined with line feeds. */
  function EntriesToCsv(es: seq<Entry>): string
  {
    Join([Join(Headers, ",")] + FormatAll(Rows(es)), "\n")
  }

  // ---------------------------------------------------------------------------
  // Reading

  /** Reads the inside of a quoted field, starting after its opening quote: `""`
      stands for one `"`, and a lone `"` closes the field. Answers the content and
      what follows the closing quote; none when the closing quote is missing. */
  function ReadQuoted(s: string): (r: Option<(string, string)>)
    ensures r.Some? ==> |r.value.1| < |s|
    decreases |s|
  {
    if |s| == 0 then None
    else if s[0] == '"' then
      if |s| >= 2 && s[1] == '"' then
        match ReadQuoted(s[2..])
        case None => None
        case Some(p) => Some(("\"" + p.0, p.1))
      else Some(([], s[1..]))
    else
      match ReadQuoted(s[1..])
      case None => None
      case Some(p) => Some(([s[0]] + p.0, p.1))
  }

  /** Reads an unquoted field: everything up to the next comma or line feed. */
  function ReadPlain(s: string): (r: (string, string))
    ensures r.0 + r.1 == s
    ensures |r.1| == 0 || r.1[0] == ',' || r.1[0] == '\n'
    ensures ',' !in r.0 && '\n' !in r.0
  {
    if |s| == 0 || s[0] == ',' || s[0] == '\n' then ([], s)
    else
      var p := ReadPlain(s[1..]);
      HeadTail(s);
      ([s[0]] + p.0, p.1)
  }

  /** Reads one field, quoted or not; answers its value and the rest of the input. */
  function ReadField(s: string): (r: Option<(string, string)>)
    ensures r.Some? ==> |r.value.1| <= |s|
  {
    if |s| > 0 && s[0] == '"' then ReadQuoted(s[1..]) else Some(ReadPlain(s))
  }

  /** Reads the comma-separated fields of one record, up to a line feed or the end. */
  function ReadRecord(s: string): (r: Option<(seq<string>, string)>)
    ensures r.Some? ==> |r.value.1| <= |s|
    decreases |s|
  {
    match ReadField(s)
    case None => None
    case Some(p) =>
      if |p.1| > 0 && p.1[0] == ',' then
        match ReadRecord(p.1[1..])
        case None => None
        case Some(q) => Some(([p.0] + q.0, q.1))
      else Some(([p.0], p.1))
  }

  /** Reads a whole document: records separated by line feeds. Answers none for
      an unterminated quoted field or text after a closing quote. */
  function ReadDocument(s: string): Option<seq<seq<string>>>
    decreases |s|
  {
    match ReadRecord(s)
    case None => None
    case Some(p) =>
      if |p.1| == 0 then Some([p.0])
      else if p.1[0] == '\n' then
        match ReadDocument(p.1[1..])
        case None => None
        case Some(rest) => Some([p.0] + rest)
      else None
  }

  // ---------------------------------------------------------------------------
  // The export loses nothing

  /** Reading a quoted field undoes the doubling of quotes. */
  lemma {:induction false} ReadQuotedDoubled(x: string, rest: string)
    requires |rest| == 0 || rest[0] != '"'
    ensures ReadQuoted(DoubleQuotes(x) + "\"" + rest) == Some((x, rest))
    decreases |x|
  {
    if |x| == 0 {
      assert DoubleQuotes(x) == [];
      Regroup([], [], "\"", rest);
      ReadQuotedClose(rest);
    } else {
      ReadQuotedDoubled(x[1..], rest);
      var d := DoubleQuotes(x[1..]);
      var tail := d + "\"" + rest;
      var head: string := if x[0] == '"' then "\"\"" else [x[0]];
      assert DoubleQuotes(x) == head + d;
      Regroup(head, d, "\"", rest);
      HeadTail(x);
      if x[0] == '"' {
        ReadQuotedPair(tail);
      } else {
        ReadQuotedOther(x[0], tail);
      }
    }
  }

  /** Regrouping a concatenation of four strings. */
  lemma Regroup(p: string, d: string, q: string, rest: string)
    ensures p + d + q + rest == p + (d + q + rest)
  {
  }

  /** A lone quote closes the field. */
  lemma ReadQuotedClose(rest: string)
    requires |rest| == 0 || rest[0] != '"'
    ensures ReadQuoted("\"" + rest) == Some(([], rest))
  {
    assert ("\"" + rest)[1..] == rest;
  }

  /** A doubled quote reads as one quote. */
  lemma ReadQuotedPair(tail: string)
    ensures ReadQuoted("\"\"" + tail) ==
      match ReadQuoted(tail)
      case None => None
      case Some(p) => Some(("\"" + p.0, p.1))
  {
    assert ("\"\"" + tail)[2..] == tail;
  }

  /** Any other character reads as itself. */
  lemma ReadQuotedOther(c: char, tail: string)
    requires c != '"'
    ensures ReadQuoted([c] + tail) ==
      match ReadQuoted(tail)
      case None => None
      case Some(p) => Some(([c] + p.0, p.1))
  {
    assert ([c] + tail)[1..] == tail;
  }

  /** Reading an unquoted field gives it back when it has no separator in it. */
  lemma {:induction false} ReadPlainUnquoted(x: string, rest: string)
    requires ',' !in x && '\n' !in x
    requires |rest| == 0 || rest[0] == ',' || rest[0] == '\n'
    ensures ReadPlain(x + rest) == (x, rest)
    decreases |x|
  {
    if |x| > 0 {
      ReadPlainUnquoted(x[1..], rest);
      assert (x + rest)[1..] == x[1..] + rest;
      assert x == [x[0]] + x[1..];
      assert x[0] in x;
    } else {
      assert x + rest == rest;
    }
  }

  /** A field that opens with a quote is read as a quoted field. */
  lemma ReadFieldOpening(t: string)
    ensures ReadField("\"" + t) == ReadQuoted(t)
  {
    assert ("\"" + t)[1..] == t;
  }

  /** Reading an escaped field, followed by a separator or the end, gives back the
      original value. */
  lemma ReadFieldEscape(x: string, rest: string)
    requires |rest| == 0 || rest[0] == ',' || rest[0] == '\n'
    ensures ReadField(Escape(x) + rest) == Some((x, rest))
  {
    if NeedsQuoting(x) {
      ReadFieldQuoted(x, rest);
    } else {
      ReadPlainUnquoted(x, rest);
      assert Escape(x) + rest == x + rest;
      assert |x + rest| > 0 ==> (x + rest)[0] != '"' by {
        if |x| > 0 { assert (x + rest)[0] == x[0] && x[0] in x; }
      }
    }
  }

  /** Reading a quoted field, followed by a separator or the end, gives back the
      original value. */
  lemma ReadFieldQuoted(x: string, rest: string)
    requires NeedsQuoting(x)
    requires |rest| == 0 || rest[0] == ',' || rest[0] == '\n'
    ensures ReadField(Escape(x) + rest) == Some((x, rest))
  {
    var t := DoubleQuotes(x) + "\"" + rest;
    assert Escape(x) == "\"" + DoubleQuotes(x) + "\"";
    Regroup("\"", DoubleQuotes(x), "\"", rest);
    ReadFieldOpening(t);
    ReadQuotedDoubled(x, rest);
  }

  /** Reading a formatted record, followed by a line feed or the end, gives back
      its fields. */
  lemma {:induction false} ReadRecordFormat(fields: seq<string>, rest: string)
    requires |fields| >= 1
    requires |rest| == 0 || rest[0] == '\n'
    ensures ReadRecord(FormatRecord(fields) + rest) == Some((fields, rest))
    decreases |fields|
  {
    var e := Escape(fields[0]);
    if |fields| == 1 {
      assert EscapeAll(fields) == [e];
      assert fields == [fields[0]];
      ReadFieldEscape(fields[0], rest);
    } else {
      var tail := FormatRecord(fields[1..]) + rest;
      assert EscapeAll(fields)[1..] == EscapeAll(fields[1..]);
      assert FormatRecord(fields) == e + "," + FormatRecord(fields[1..]);
      assert FormatRecord(fields) + rest == e + ("," + tail);
      ReadFieldEscape(fields[0], "," + tail);
      assert ("," + tail)[1..] == tail;
      ReadRecordFormat(fields[1..], rest);
      assert fields == [fields[0]] + fields[1..];
    }
  }

  /** Reading a formatted document gives back its records, provided there is at
      least one record and none is empty. */
  lemma {:induction false} ReadDocumentFormat(rows: seq<seq<string>>)
    requires |rows| >= 1
    requires forall i :: 0 <= i < |rows| ==> |rows[i]| >= 1
    ensures ReadDocument(FormatDocument(rows)) == Some(rows)
    decreases |rows|
  {
    var line := FormatRecord(rows[0]);
    if |rows| == 1 {
      assert FormatAll(rows) == [line];
      assert FormatDocument(rows) + [] == FormatDocument(rows);
      assert rows == [rows[0]];
      ReadRecordFormat(rows[0], []);
    } else {
      var tail := FormatDocument(rows[1..]);
      assert FormatAll(rows)[1..] == FormatAll(rows[1..]);
      assert FormatDocument(rows) == line + ("\n" + tail);
      ReadRecordFormat(rows[0], "\n" + tail);
      assert ("\n" + tail)[1..] == tail;
      ReadDocumentFormat(rows[1..]);
      assert rows == [rows[0]] + rows[1..];
    }
  }

  /** Fields that need no quoting are written as they are. */
  lemma {:induction false} EscapeAllPlain(fields: seq<string>)
    requires forall i :: 0 <= i < |fields| ==> !NeedsQuoting(fields[i])
    ensures EscapeAll(fields) == fields
    decreases |fields|
  {
    if |fields| > 0 {
      EscapeAllPlain(fields[1..]);
      assert fields == [fields[0]] + fields[1..];
    }
  }

  /** The header fields need no quoting. */
  lemma HeadersPlain()
    ensures forall i :: 0 <= i < |Headers| ==> !NeedsQuoting(Headers[i])
    ensures |Headers| == 9
  {
    forall i | 0 <= i < |Headers| ensures !NeedsQuoting(Headers[i]) {
      var h := Headers[i];
      assert forall j :: 0 <= j < |h| ==> 'a' <= h[j] <= 'z' || 'A' <= h[j] <= 'Z';
    }
  }

  /** A header line of plain fields, joined without escaping, followed by escaped
      records of fields, reads back as the header record and those records. */
  lemma PlainHeaderRoundTrip(header: seq<string>, rows: seq<seq<string>>)
    requires |header| >= 1
    requires forall i :: 0 <= i < |header| ==> !NeedsQuoting(header[i])
    requires forall i :: 0 <= i < |rows| ==> |rows[i]| >= 1
    ensures ReadDocument(Join([Join(header, ",")] + FormatAll(rows), "\n")) == Some([header] + rows)
  {
    EscapeAllPlain(header);
    var all := [header] + rows;
    FormatAllCons(header, rows);
    forall i | 0 <= i < |all| ensures |all[i]| >= 1 {
      if i > 0 {
        assert all[i] == rows[i - 1];
      }
    }
    ReadDocumentFormat(all);
  }

  /** The export is lossless: reading it back yields the header record followed by
      the nine field values of every entry, in order. */
  lemma EntriesToCsvRoundTrip(es: seq<Entry>)
    ensures ReadDocument(EntriesToCsv(es)) == Some([Headers] + Rows(es))
  {
    HeadersPlain();
    RowsNotEmpty(es);
    PlainHeaderRoundTrip(Headers, Rows(es));
  }

  /** Every entry's record has fields. */
  lemma RowsNotEmpty(es: seq<Entry>)
    ensures forall i :: 0 <= i < |Rows(es)| ==> |Rows(es)[i]| >= 1
  {
    assert |Headers| == 9;
  }

  /** Formatting a record in front of others puts its line in front of theirs. */
  lemma FormatAllCons(first: seq<string>, rows: seq<seq<string>>)
    ensures FormatAll([first] + rows) == [FormatRecord(first)] + FormatAll(rows)
  {
    assert ([first] + rows)[1..] == rows;
  }

  /** The export has one record per entry after the header. */
  lemma EntriesToCsvRecordCount(es: seq<Entry>)
    ensures exists rows :: ReadDocument(EntriesToCsv(es)) == Some(rows) && |rows| == |es| + 1
  {
    EntriesToCsvRoundTrip(es);
  }
}
