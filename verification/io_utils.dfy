/** Shared output helpers of the collectors: the author list format and the
    tab-separated file writer (cell cleaning, padding to the header, quoting). */
module IoUtils {
  import opened Strings
  import opened Wrappers

  // ----- normalize_authors -----

  /** The names kept by `normalize_authors`: blank entries dropped, the rest stripped, order kept. */
  function KeptAuthors(names: seq<string>): (r: seq<string>)
    ensures |r| <= |names|
    ensures forall i :: 0 <= i < |r| ==> r[i] != [] && IsStripped(r[i])
    ensures r == [] <==> forall i :: 0 <= i < |names| ==> AllSpace(names[i])
  {
    if names == [] then []
    else
      var rest := KeptAuthors(names[1..]);
      assert forall i :: 1 <= i < |names| ==> names[i] == names[1..][i - 1];
      if Strip(names[0]) == [] then rest else [Strip(names[0])] + rest
  }

  lemma {:induction false} KeptAuthorsConcat(a: seq<string>, b: seq<string>)
    ensures KeptAuthors(a + b) == KeptAuthors(a) + KeptAuthors(b)
  {
    if a == [] {
      assert a + b == b;
    } else {
      assert (a + b)[0] == a[0] && (a + b)[1..] == a[1..] + b;
      KeptAuthorsConcat(a[1..], b);
    }
  }

  /** One name is kept, stripped, exactly when it is not blank; with `KeptAuthorsConcat` this
      fixes the result for every list. */
  lemma KeptAuthorsOne(name: string)
    ensures KeptAuthors([name]) == if AllSpace(name) then [] else [Strip(name)]
  {
    assert [name][1..] == [];
  }

  /** `", ".join` of the kept names. */
  function NormalizeAuthors(names: seq<string>): (r: string)
    ensures r == [] <==> forall i :: 0 <= i < |names| ==> AllSpace(names[i])
  {
    var kept := KeptAuthors(names);
    if kept == [] then []
    else
      JoinStartsWithFirst(", ", kept);
      Join(", ", kept)
  }

  lemma JoinStartsWithFirst(sep: string, parts: seq<string>)
    requires parts != []
    ensures StartsWith(Join(sep, parts), parts[0])
  {
  }

  /** The pieces between the commas, each with one blank in front except the first. */
  function Padded(xs: seq<string>): (r: seq<string>)
    requires xs != []
    ensures |r| == |xs| && r[0] == xs[0]
    ensures forall i :: 1 <= i < |xs| ==> r[i] == " " + xs[i]
  {
    [xs[0]] + seq(|xs| - 1, i requires 0 <= i < |xs| - 1 => " " + xs[i + 1])
  }

  lemma {:induction false} JoinWithBlank(xs: seq<string>)
    requires xs != []
    ensures Join(", ", xs) == Join(",", Padded(xs))
    decreases |xs|
  {
    if |xs| > 1 {
      var tail := xs[1..];
      JoinWithBlank(tail);
      BlankBeforeJoin(tail);
      var p := Padded(xs);
      assert p[1..] == [" " + tail[0]] + Padded(tail)[1..];
      assert Join(",", p) == p[0] + "," + Join(",", p[1..]);
      assert Join(", ", xs) == xs[0] + ", " + Join(", ", tail);
      assert xs[0] + ", " + Join(", ", tail) == xs[0] + "," + (" " + Join(", ", tail));
    }
  }

  /** A blank in front of a `", "`-joined list is a blank in front of each piece, joined by `","`. */
  lemma {:induction false} BlankBeforeJoin(ys: seq<string>)
    requires ys != []
    ensures " " + Join(", ", ys) == Join(",", [" " + ys[0]] + Padded(ys)[1..])
    decreases |ys|
  {
    var q := [" " + ys[0]] + Padded(ys)[1..];
    if |ys| > 1 {
      var tail := ys[1..];
      BlankBeforeJoin(tail);
      assert q[1..] == [" " + tail[0]] + Padded(tail)[1..];
      assert Join(",", q) == q[0] + "," + Join(",", q[1..]);
      assert " " + Join(", ", ys) == (" " + ys[0]) + "," + (" " + Join(", ", tail));
    } else {
      assert q == [" " + ys[0]];
    }
  }

  /** `[p.strip() for p in pieces]`. */
  function StripAll(pieces: seq<string>): (r: seq<string>)
    ensures |r| == |pieces|
    ensures forall i :: 0 <= i < |r| ==> r[i] == Strip(pieces[i])
  {
    seq(|pieces|, i requires 0 <= i < |pieces| => Strip(pieces[i]))
  }

  predicate NoComma(xs: seq<string>)
  {
    forall i :: 0 <= i < |xs| ==> ',' !in xs[i]
  }

  /** The author string splits back into the kept names at its commas, when no name holds a comma. */
  lemma AuthorsSplitBack(names: seq<string>)
    requires KeptAuthors(names) != []
    requires NoComma(names)
    ensures StripAll(Split(NormalizeAuthors(names), ',')) == KeptAuthors(names)
  {
    var xs := KeptAuthors(names);
    NoCommaKept(names);
    assert NormalizeAuthors(names) == Join(", ", xs);
    SplitPadded(xs);
    StripPadded(xs);
  }

  lemma SplitPadded(xs: seq<string>)
    requires xs != [] && NoComma(xs)
    ensures Split(Join(", ", xs), ',') == Padded(xs)
  {
    var p := Padded(xs);
    JoinWithBlank(xs);
    forall i | 0 <= i < |p| ensures ',' !in p[i] {
      if i > 0 {
        assert p[i] == " " + xs[i];
      }
    }
    SplitJoin(p, ',');
  }

  lemma StripPadded(xs: seq<string>)
    requires xs != [] && forall i :: 0 <= i < |xs| ==> xs[i] != [] && IsStripped(xs[i])
    ensures StripAll(Padded(xs)) == xs
  {
    var p := Padded(xs);
    forall i | 0 <= i < |xs| ensures Strip(p[i]) == xs[i] {
      if i > 0 {
        StripLeadingBlank(xs[i]);
      }
    }
  }

  lemma {:induction false} NoCommaKept(names: seq<string>)
    requires NoComma(names)
    ensures NoComma(KeptAuthors(names))
  {
    if names != [] {
      var rest := KeptAuthors(names[1..]);
      assert NoComma(names[1..]) by {
        forall i | 0 <= i < |names[1..]| ensures ',' !in names[1..][i] {
          assert names[1..][i] == names[i + 1];
        }
      }
      NoCommaKept(names[1..]);
      if Strip(names[0]) != [] {
        StripKeepsChars(names[0]);
        assert ',' !in names[0];
        var k := [Strip(names[0])] + rest;
        assert KeptAuthors(names) == k;
        forall i | 0 <= i < |k| ensures ',' !in k[i] {
          if i > 0 { assert k[i] == rest[i - 1]; }
        }
      }
    }
  }

  // ----- write_tsv -----

  /** A corpus row as both collectors build it: DOI, title, authors, abstract, journal (PubMed)
      or section (arXiv), and date. */
  datatype Row = Row(doi: string, title: string, authors: string, summary: string, venue: string,
                     date: string)

  /** The cells of a row in the file's column order. */
  function Cells(row: Row): seq<Option<string>>
  {
    [Some(row.doi), Some(row.title), Some(row.authors), Some(row.summary), Some(row.venue), Some(row.date)]
  }

  /** The cells of each row. */
  function CellRows(rows: seq<Row>): (r: seq<seq<Option<string>>>)
    ensures |r| == |rows| && forall i :: 0 <= i < |rows| ==> r[i] == Cells(rows[i])
  {
    seq(|rows|, i requires 0 <= i < |rows| => Cells(rows[i]))
  }

  /** A cell as `write_tsv` writes it: a missing value is empty, line breaks become blanks, then strip. */
  function CleanCell(x: Option<string>): (r: string)
    ensures '\n' !in r && '\r' !in r
    ensures IsStripped(r)
    ensures x.None? ==> r == []
    ensures x.Some? ==> (r == [] <==> AllSpace(x.value))
    ensures x.Some? ==> forall c :: c in r ==> c in x.value || c == ' '
    ensures x.Some? && '\n' !in x.value && '\r' !in x.value ==> r == Strip(x.value)
  {
    match x
    case None => []
    case Some(s) =>
      var t := ReplaceChar(ReplaceChar(s, '\n', ' '), '\r', ' ');
      StripKeepsChars(t);
      BlanksStayBlank(s);
      NoBreaksUnchanged(s);
      Strip(t)
  }

  lemma NoBreaksUnchanged(s: string)
    ensures '\n' !in s && '\r' !in s ==> ReplaceChar(ReplaceChar(s, '\n', ' '), '\r', ' ') == s
  {
    if '\n' !in s && '\r' !in s {
      ReplaceCharAbsent(s, '\n', ' ');
      ReplaceCharAbsent(s, '\r', ' ');
    }
  }

  /** Turning line breaks into blanks keeps blank text blank and other text not blank. */
  lemma BlanksStayBlank(s: string)
    ensures AllSpace(ReplaceChar(ReplaceChar(s, '\n', ' '), '\r', ' ')) <==> AllSpace(s)
  {
    var t := ReplaceChar(ReplaceChar(s, '\n', ' '), '\r', ' ');
    assert forall i :: 0 <= i < |s| ==> (IsSpace(t[i]) <==> IsSpace(s[i]));
  }

  /** Cleaning a clean cell changes nothing. */
  lemma CleanCellIdempotent(x: Option<string>)
    ensures CleanCell(Some(CleanCell(x))) == CleanCell(x)
  {
    var c := CleanCell(x);
    ReplaceCharAbsent(c, '\n', ' ');
    ReplaceCharAbsent(c, '\r', ' ');
  }

  /** The cleaned cells, followed by empty cells up to the header's width; longer rows are kept whole. */
  function PadRow(cells: seq<Option<string>>, width: nat): (r: seq<string>)
    ensures |r| == if |cells| < width then width else |cells|
    ensures forall i :: 0 <= i < |cells| ==> r[i] == CleanCell(cells[i])
    ensures forall i :: |cells| <= i < |r| ==> r[i] == []
  {
    var cleaned := seq(|cells|, i requires 0 <= i < |cells| => CleanCell(cells[i]));
    var pad := if |cells| < width then width - |cells| else 0;
    cleaned + seq(pad, _ => [])
  }

  /** The records `write_tsv` hands to the CSV writer: the header, then each padded row. */
  function TsvRecords(rows: seq<seq<Option<string>>>, header: seq<string>): (r: seq<seq<string>>)
    ensures |r| == |rows| + 1 && r[0] == header
    ensures forall i :: 0 <= i < |rows| ==> r[i + 1] == PadRow(rows[i], |header|)
    ensures forall i :: 1 <= i < |r| ==> |r[i]| >= |header|
  {
    [header] + seq(|rows|, i requires 0 <= i < |rows| => PadRow(rows[i], |header|))
  }

  /** A field needs quotes when it holds the delimiter, the quote or a line break. */
  predicate NeedsQuotes(f: string)
  {
    '\t' in f || '"' in f || '\r' in f || '\n' in f
  }

  /** Every `"` doubled. */
  function DoubleQuotes(f: string): (r: string)
    ensures |r| >= |f|
  {
    if f == [] then []
    else if f[0] == '"' then "\"\"" + DoubleQuotes(f[1..])
    else [f[0]] + DoubleQuotes(f[1..])
  }

  /** One field under minimal quoting. */
  function FormatField(f: string): string
  {
    if NeedsQuotes(f) then "\"" + DoubleQuotes(f) + "\"" else f
  }

  /** The fields of a record, each formatted, joined by tabs. */
  function JoinFields(fields: seq<string>): string
  {
    if |fields| == 0 then []
    else if |fields| == 1 then FormatField(fields[0])
    else FormatField(fields[0]) + "\t" + JoinFields(fields[1..])
  }

  /** One line of the file: a record holding a single empty field is written as `""`. */
  function FormatRecord(fields: seq<string>): (r: string)
    ensures EndsWith(r, "\r\n")
  {
    (if fields == [[]] then "\"\"" else JoinFields(fields)) + "\r\n"
  }

  // ----- reading a record back -----

  /** The rest of a quoted field after its opening quote: `""` stands for `"`, a lone `"` closes it. */
  function ReadQuoted(s: string): (r: Option<(string, string)>)
    ensures r.Some? ==> |r.value.1| < |s|
  {
    if s == [] then None
    else if s[0] == '"' then
      if |s| > 1 && s[1] == '"' then
        match ReadQuoted(s[2..])
        case None => None
        case Some(p) => Some(("\"" + p.0, p.1))
      else Some(([], s[1..]))
    else
      match ReadQuoted(s[1..])
      case None => None
      case Some(p) => Some(([s[0]] + p.0, p.1))
  }

  /** An unquoted field runs up to the next tab. */
  function ReadPlain(s: string): (r: (string, string))
    ensures r.0 + r.1 == s
    ensures '\t' !in r.0
    ensures r.1 == [] || r.1[0] == '\t'
  {
    if s == [] || s[0] == '\t' then ([], s)
    else
      var p := ReadPlain(s[1..]);
      assert [s[0]] + s[1..] == s;
      ([s[0]] + p.0, p.1)
  }

  /** A field in front of the fields read after it. */
  function Cons(f: string, rest: Option<seq<string>>): Option<seq<string>>
  {
    match rest
    case None => None
    case Some(t) => Some([f] + t)
  }

  /** The fields of one line (without its line end), or `None` when a quoted field is malformed. */
  function ReadFields(s: string): Option<seq<string>>
    decreases |s|
  {
    if s != [] && s[0] == '"' then
      match ReadQuoted(s[1..])
      case None => None
      case Some(p) =>
        if p.1 == [] then Some([p.0])
        else if p.1[0] != '\t' then None
        else Cons(p.0, ReadFields(p.1[1..]))
    else
      var p := ReadPlain(s);
      if p.1 == [] then Some([p.0])
      else Cons(p.0, ReadFields(p.1[1..]))
  }

  lemma {:induction false} ReadQuotedDoubled(f: string, rest: string)
    requires rest == [] || rest[0] != '"'
    ensures ReadQuoted(DoubleQuotes(f) + "\"" + rest) == Some((f, rest))
    decreases |f|
  {
    var s := DoubleQuotes(f) + "\"" + rest;
    if f == [] {
      assert s == "\"" + rest;
      assert s[1..] == rest;
    } else if f[0] == '"' {
      ReadQuotedDoubled(f[1..], rest);
      assert s == "\"\"" + (DoubleQuotes(f[1..]) + "\"" + rest);
      assert s[2..] == DoubleQuotes(f[1..]) + "\"" + rest;
      assert "\"" + f[1..] == f;
    } else {
      ReadQuotedDoubled(f[1..], rest);
      assert s == [f[0]] + (DoubleQuotes(f[1..]) + "\"" + rest);
      assert s[1..] == DoubleQuotes(f[1..]) + "\"" + rest;
      assert [f[0]] + f[1..] == f;
    }
  }

  lemma {:induction false} ReadPlainField(f: string, rest: string)
    requires '\t' !in f
    requires rest == [] || rest[0] == '\t'
    ensures ReadPlain(f + rest) == (f, rest)
    decreases |f|
  {
    if f == [] {
      assert f + rest == rest;
    } else {
      ReadPlainField(f[1..], rest);
      assert (f + rest)[0] == f[0] && (f + rest)[1..] == f[1..] + rest;
      assert [f[0]] + f[1..] == f;
    }
  }

  /** Reading a formatted field followed by a tab or the end of the line gives the field back. */
  lemma ReadFieldThen(f: string, rest: string)
    requires rest == [] || rest[0] == '\t'
    ensures ReadFields(FormatField(f) + rest)
         == if rest == [] then Some([f]) else Cons(f, ReadFields(rest[1..]))
  {
    if NeedsQuotes(f) {
      ReadQuotedThen(f, rest);
    } else {
      ReadPlainThen(f, rest);
    }
  }

  lemma ReadQuotedThen(f: string, rest: string)
    requires rest == [] || rest[0] == '\t'
    ensures ReadFields("\"" + DoubleQuotes(f) + "\"" + rest)
         == if rest == [] then Some([f]) else Cons(f, ReadFields(rest[1..]))
  {
    var body := DoubleQuotes(f) + "\"" + rest;
    assert "\"" + DoubleQuotes(f) + "\"" + rest == "\"" + body;
    ReadQuotedDoubled(f, rest);
    ReadFieldsQuoted(body, f, rest);
  }

  /** A line opening with a quote is read as a quoted field, then the rest after a tab. */
  lemma ReadFieldsQuoted(body: string, f: string, rest: string)
    requires ReadQuoted(body) == Some((f, rest))
    requires rest == [] || rest[0] == '\t'
    ensures ReadFields("\"" + body)
         == if rest == [] then Some([f]) else Cons(f, ReadFields(rest[1..]))
  {
    var s := "\"" + body;
    assert s[0] == '"' && s[1..] == body;
  }

  lemma ReadPlainThen(f: string, rest: string)
    requires !NeedsQuotes(f)
    requires rest == [] || rest[0] == '\t'
    ensures ReadFields(f + rest)
         == if rest == [] then Some([f]) else Cons(f, ReadFields(rest[1..]))
  {
    var s := f + rest;
    ReadPlainField(f, rest);
    if f != [] {
      assert f[0] in f;
      assert s[0] == f[0];
    } else {
      assert s == rest;
    }
  }

  /** Reading a written record gives back its fields: the writer's quoting loses nothing. */
  lemma {:induction false} ReadWrittenFields(fields: seq<string>)
    requires fields != []
    ensures ReadFields(JoinFields(fields)) == Some(fields)
    decreases |fields|
  {
    var f := fields[0];
    if |fields| == 1 {
      ReadFieldThen(f, []);
      assert JoinFields(fields) == FormatField(f) + [];
      assert fields == [f];
    } else {
      ReadWrittenFields(fields[1..]);
      ReadFieldsCons(f, fields[1..]);
      assert [f] + fields[1..] == fields;
    }
  }

  /** One more field in front of a line that reads back reads back too. */
  lemma ReadFieldsCons(f: string, tail: seq<string>)
    requires tail != [] && ReadFields(JoinFields(tail)) == Some(tail)
    ensures ReadFields(JoinFields([f] + tail)) == Some([f] + tail)
  {
    var rest := "\t" + JoinFields(tail);
    assert ([f] + tail)[1..] == tail;
    assert JoinFields([f] + tail) == FormatField(f) + rest;
    ReadFieldThen(f, rest);
    assert rest[1..] == JoinFields(tail);
  }

  /** The line written for a record, without its `\r\n`, reads back as that record. */
  lemma ReadWrittenRecord(fields: seq<string>)
    requires fields != []
    ensures var line := FormatRecord(fields); ReadFields(line[..|line| - 2]) == Some(fields)
  {
    var line := FormatRecord(fields);
    if fields == [[]] {
      assert line[..|line| - 2] == "\"\"";
      assert "\"\""[1..] == "\"";
      assert ReadQuoted("\"") == Some(([], []));
    } else {
      assert line[..|line| - 2] == JoinFields(fields);
      ReadWrittenFields(fields);
    }
  }
}
