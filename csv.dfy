/** The CSV text both exporters write: every data field wrapped in double
    quotes with each embedded quote doubled (rules 5 to 7 of section 2 of
    RFC 4180), fields separated by commas, records separated by a single
    line feed. RFC 4180 section 2 rule 1 asks for CRLF between records; the
    tool writes LF only, and the reader below accepts LF. */
module Csv {
  import opened Types
  import opened Text

  /** `str.replace(/"/g, '""')`. */
  function DoubleQuotes(s: string): (r: string)
    ensures |r| >= |s|
  {
    if s == [] then []
    else (if s[0] == '"' then "\"\"" else [s[0]]) + DoubleQuotes(s[1..])
  }

  /** The `escape` helper of the exporters: `"` + doubled + `"`. */
  function Quote(s: string): (r: string)
    ensures |r| >= |s| + 2 && r[0] == '"' && r[|r| - 1] == '"'
  {
    "\"" + DoubleQuotes(s) + "\""
  }

  /** One record of quoted fields. */
  function QuotedRecord(fields: seq<string>): string {
    Join(QuoteAll(fields), ",")
  }

  function QuoteAll(fields: seq<string>): (r: seq<string>)
    ensures |r| == |fields|
  {
    if fields == [] then [] else [Quote(fields[0])] + QuoteAll(fields[1..])
  }

  function QuotedLines(rows: seq<seq<string>>): (r: seq<string>)
    ensures |r| == |rows|
  {
    if rows == [] then [] else [QuotedRecord(rows[0])] + QuotedLines(rows[1..])
  }

  /** A whole file: an unquoted header record followed by one quoted record
      per row, joined with line feeds. */
  function Document(header: seq<string>, rows: seq<seq<string>>): string {
    Join([Join(header, ",")] + QuotedLines(rows), "\n")
  }

  // ---------------------------------------------------------------------
  // A reader for such files, used to state that nothing is lost in writing.

  /** The rest of a quoted field after its opening quote: a doubled quote
      stands for one quote, a single quote closes the field. */
  function ParseQuotedBody(t: string): (r: Option<(string, string)>)
    ensures r.Some? ==> |r.value.1| < |t|
    decreases |t|
  {
    if t == [] then None
    else if t[0] == '"' then
      if |t| > 1 && t[1] == '"' then
        match ParseQuotedBody(t[2..])
        case None => None
        case Some((f, rest)) => Some((['"'] + f, rest))
      else Some(([], t[1..]))
    else
      match ParseQuotedBody(t[1..])
      case None => None
      case Some((f, rest)) => Some(([t[0]] + f, rest))
  }

  /** An unquoted field runs up to the next comma or line feed. */
  function ParsePlain(t: string): (r: (string, string))
    ensures |r.1| <= |t|
    decreases |t|
  {
    if t == [] || t[0] == ',' || t[0] == '\n' then ([], t)
    else
      var (f, rest) := ParsePlain(t[1..]);
      ([t[0]] + f, rest)
  }

  function ParseField(s: string): (r: Option<(string, string)>)
    ensures r.Some? ==> |r.value.1| <= |s|
  {
    if s != [] && s[0] == '"' then ParseQuotedBody(s[1..]) else Some(ParsePlain(s))
  }

  function ParseRecord(s: string): (r: Option<(seq<string>, string)>)
    ensures r.Some? ==> |r.value.1| <= |s| && |r.value.0| >= 1
    decreases |s|, 0
  {
    match ParseField(s)
    case None => None
    case Some((f, rest)) =>
      if rest != [] && rest[0] == ',' then
        match ParseRecord(rest[1..])
        case None => None
        case Some((fs, rest2)) => Some(([f] + fs, rest2))
      else Some(([f], rest))
  }

  function ParseRecords(s: string): (r: Option<seq<seq<string>>>)
    decreases |s|
  {
    match ParseRecord(s)
    case None => None
    case Some((fs, rest)) =>
      if rest == [] then Some([fs])
      else if rest[0] == '\n' then
        match ParseRecords(rest[1..])
        case None => None
        case Some(more) => Some([fs] + more)
      else None
  }

  // ---------------------------------------------------------------------
  // Round trips

  predicate EndsField(rest: string) {
    rest == [] || rest[0] == ',' || rest[0] == '\n'
  }

  lemma {:induction false} QuotedBodyRoundTrip(x: string, rest: string)
    requires rest == [] || rest[0] != '"'
    ensures ParseQuotedBody(DoubleQuotes(x) + "\"" + rest) == Some((x, rest))
    decreases |x|
  {
    var t := DoubleQuotes(x) + "\"" + rest;
    if x == [] {
      assert t == "\"" + rest;
      assert t[1..] == rest;
    } else if x[0] == '"' {
      assert t == "\"\"" + (DoubleQuotes(x[1..]) + "\"" + rest);
      assert t[2..] == DoubleQuotes(x[1..]) + "\"" + rest;
      QuotedBodyRoundTrip(x[1..], rest);
      assert ['"'] + x[1..] == x;
    } else {
      assert t == [x[0]] + (DoubleQuotes(x[1..]) + "\"" + rest);
      assert t[1..] == DoubleQuotes(x[1..]) + "\"" + rest;
      QuotedBodyRoundTrip(x[1..], rest);
      assert [x[0]] + x[1..] == x;
    }
  }

  /** A quoted field reads back as the original text, whatever it contains
      (quotes, commas, line feeds). */
  lemma QuoteRoundTrip(x: string, rest: string)
    requires EndsField(rest)
    ensures ParseField(Quote(x) + rest) == Some((x, rest))
  {
    var s := Quote(x) + rest;
    assert s[0] == '"';
    assert s[1..] == DoubleQuotes(x) + "\"" + rest;
    QuotedBodyRoundTrip(x, rest);
  }

  /** A field without quotes, commas or line feeds may be written bare. */
  predicate IsPlain(x: string) {
    forall i :: 0 <= i < |x| ==> x[i] != '"' && x[i] != ',' && x[i] != '\n'
  }

  lemma {:induction false} PlainRoundTrip(x: string, rest: string)
    requires IsPlain(x) && EndsField(rest)
    ensures ParseField(x + rest) == Some((x, rest))
    ensures ParsePlain(x + rest) == (x, rest)
    decreases |x|
  {
    if x == [] {
      assert x + rest == rest;
    } else {
      assert (x + rest)[1..] == x[1..] + rest;
      PlainRoundTrip(x[1..], rest);
      assert [x[0]] + x[1..] == x;
    }
  }

  lemma {:induction false} QuotedRecordRoundTrip(fields: seq<string>, rest: string)
    requires |fields| >= 1
    requires rest == [] || rest[0] == '\n'
    ensures ParseRecord(QuotedRecord(fields) + rest) == Some((fields, rest))
    decreases |fields|
  {
    var q := QuoteAll(fields);
    if |fields| == 1 {
      assert q == [Quote(fields[0])];
      assert QuotedRecord(fields) == Quote(fields[0]);
      QuoteRoundTrip(fields[0], rest);
      assert [fields[0]] == fields;
    } else {
      var tail := QuotedRecord(fields[1..]) + rest;
      assert q[1..] == QuoteAll(fields[1..]);
      assert QuotedRecord(fields) + rest == Quote(fields[0]) + ("," + tail);
      QuoteRoundTrip(fields[0], "," + tail);
      assert ("," + tail)[1..] == tail;
      QuotedRecordRoundTrip(fields[1..], rest);
      assert [fields[0]] + fields[1..] == fields;
    }
  }

  lemma {:induction false} PlainRecordRoundTrip(fields: seq<string>, rest: string)
    requires |fields| >= 1
    requires forall i :: 0 <= i < |fields| ==> IsPlain(fields[i])
    requires rest == [] || rest[0] == '\n'
    ensures ParseRecord(Join(fields, ",") + rest) == Some((fields, rest))
    decreases |fields|
  {
    if |fields| == 1 {
      PlainRoundTrip(fields[0], rest);
      assert [fields[0]] == fields;
    } else {
      var tail := Join(fields[1..], ",") + rest;
      assert Join(fields, ",") + rest == fields[0] + ("," + tail);
      PlainRoundTrip(fields[0], "," + tail);
      assert ("," + tail)[1..] == tail;
      PlainRecordRoundTrip(fields[1..], rest);
      assert [fields[0]] + fields[1..] == fields;
    }
  }

  lemma {:induction false} QuotedLinesRoundTrip(rows: seq<seq<string>>)
    requires |rows| >= 1
    requires forall i :: 0 <= i < |rows| ==> |rows[i]| >= 1
    ensures ParseRecords(Join(QuotedLines(rows), "\n")) == Some(rows)
    decreases |rows|
  {
    var lines := QuotedLines(rows);
    if |rows| == 1 {
      assert lines == [QuotedRecord(rows[0])];
      assert Join(lines, "\n") == QuotedRecord(rows[0]) + [];
      QuotedRecordRoundTrip(rows[0], []);
      assert [rows[0]] == rows;
    } else {
      var tail := Join(QuotedLines(rows[1..]), "\n");
      assert lines[1..] == QuotedLines(rows[1..]);
      assert Join(lines, "\n") == QuotedRecord(rows[0]) + ("\n" + tail);
      QuotedRecordRoundTrip(rows[0], "\n" + tail);
      assert ("\n" + tail)[1..] == tail;
      QuotedLinesRoundTrip(rows[1..]);
      assert [rows[0]] + rows[1..] == rows;
    }
  }

  /** Reading a written file gives back the header and every row, field for
      field. */
  lemma DocumentRoundTrip(header: seq<string>, rows: seq<seq<string>>)
    requires |header| >= 1
    requires forall i :: 0 <= i < |header| ==> IsPlain(header[i])
    requires forall i :: 0 <= i < |rows| ==> |rows[i]| >= 1
    ensures ParseRecords(Document(header, rows)) == Some([header] + rows)
  {
    var h := Join(header, ",");
    var lines := [h] + QuotedLines(rows);
    if rows == [] {
      assert lines == [h];
      assert Document(header, rows) == h + [];
      PlainRecordRoundTrip(header, []);
      assert ParseRecord(h) == Some((header, []));
      assert [header] + rows == [header];
    } else {
      var tail := Join(QuotedLines(rows), "\n");
      assert lines[1..] == QuotedLines(rows);
      assert Document(header, rows) == h + ("\n" + tail);
      PlainRecordRoundTrip(header, "\n" + tail);
      assert ("\n" + tail)[1..] == tail;
      QuotedLinesRoundTrip(rows);
    }
  }
}
