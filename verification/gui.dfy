/** The table logic of the desktop interface (`interface/gui_main.py`): the merged
    section/journal label of the collected-records table, the page state of the paginated
    tables, and the fallback reading of a similarity report that is not a TSV table (keyword
    classification of each line, the filter, and the ranked top ten). Widgets, dialogs and
    the subprocess that runs the command-line tools are not modelled. */
module Gui {
  import opened Wrappers
  import opened Strings
  import opened StableSort
  import opened Vectorize
  import opened Retrieve

  // ---------------------------------------------------------------------------------------
  // The merged section/journal label
  // ---------------------------------------------------------------------------------------

  /** A data frame column: its header and its cells as `astype(str)` renders them (a missing
      value renders as `"nan"`). */
  datatype Column = Column(name: string, cells: seq<string>)

  /** A data frame: its columns in order, each holding `height` cells. */
  datatype Frame = Frame(columns: seq<Column>, height: nat)

  function Names(columns: seq<Column>): (r: seq<string>)
    ensures |r| == |columns|
    ensures forall c :: 0 <= c < |columns| ==> r[c] == columns[c].name
  {
    if columns == [] then [] else [columns[0].name] + Names(columns[1..])
  }

  /** Headers are distinct (as `read_csv` makes them) and every column has `height` cells. */
  predicate WellFormed(f: Frame)
  {
    (forall c :: 0 <= c < |f.columns| ==> |f.columns[c].cells| == f.height)
    && Distinct(Names(f.columns))
  }

  predicate Distinct(xs: seq<string>)
  {
    forall c, d :: 0 <= c < d < |xs| ==> xs[c] != xs[d]
  }

  lemma DistinctAppend(xs: seq<string>, x: string)
    requires Distinct(xs) && x !in xs
    ensures Distinct(xs + [x])
  {
  }

  /** `df[name]`: the cells under exactly that header. */
  function Lookup(columns: seq<Column>, name: string): (r: Option<seq<string>>)
    ensures r.None? <==> name !in Names(columns)
    decreases |columns|
  {
    if columns == [] then None
    else if columns[0].name == name then Some(columns[0].cells)
    else
      Lookup(columns[1..], name)
  }

  /** The column whose lower-cased header is `want`; when several match, the loop over the
      headers keeps the last. */
  function LastColumn(columns: seq<Column>, want: string): (r: Option<nat>)
    ensures r.Some? ==> r.value < |columns| && Lower(columns[r.value].name) == want
    ensures r.Some? ==> forall c :: r.value < c < |columns| ==> Lower(columns[c].name) != want
    ensures r.None? <==> forall c :: 0 <= c < |columns| ==> Lower(columns[c].name) != want
    decreases |columns|
  {
    if columns == [] then None
    else if Lower(columns[|columns| - 1].name) == want then Some(|columns| - 1)
    else LastColumn(columns[..|columns| - 1], want)
  }

  /** A cell after `replace({"nan": ""})` and `strip()`: the replacement matches whole cells
      only, and it comes before the strip. */
  function CleanCell(cell: string): (r: string)
    ensures IsStripped(r)
    ensures cell == "nan" ==> r == ""
    ensures r == "" <==> cell == "nan" || AllSpace(cell)
    ensures cell != "nan" ==>
      exists i :: 0 <= i <= |cell| - |r| && r == cell[i..i + |r|] && AllSpace(cell[..i]) && AllSpace(cell[i + |r|..])
  {
    if cell == "nan" then ""
    else
      StripIsSlice(cell);
      Strip(cell)
  }

  /** The cleaned cells of the column labelled `want` in any letter case; all empty when the
      frame has no such column. */
  function LabelCells(f: Frame, want: string): (r: seq<string>)
    requires WellFormed(f)
    ensures |r| == f.height
    ensures LastColumn(f.columns, want).None? ==> forall i :: 0 <= i < |r| ==> r[i] == ""
    ensures LastColumn(f.columns, want).Some? ==>
      forall i :: 0 <= i < |r| ==> r[i] == CleanCell(f.columns[LastColumn(f.columns, want).value].cells[i])
  {
    match LastColumn(f.columns, want)
    case None => seq(f.height, _ => "")
    case Some(c) => seq(f.height, i requires 0 <= i < f.height => CleanCell(f.columns[c].cells[i]))
  }

  const Bullet: string := " \U{2022} "

  /** The label of one row: section and journal joined by a bullet when both are present,
      otherwise whichever is present, otherwise empty. */
  function Label(section: string, journal: string): string
  {
    if section != [] && journal != [] then section + Bullet + journal
    else if section != [] then section
    else if journal != [] then journal
    else ""
  }

  /** The parts that are not empty, in order. */
  function Present(parts: seq<string>): (r: seq<string>)
    ensures forall k :: 0 <= k < |r| ==> r[k] != [] && r[k] in parts
  {
    if parts == [] then []
    else (if parts[0] == [] then [] else [parts[0]]) + Present(parts[1..])
  }

  /** The label is the present parts joined by the bullet. */
  lemma LabelJoinsPresentParts(section: string, journal: string)
    ensures Label(section, journal) == Join(Bullet, Present([section, journal]))
  {
    assert [section, journal][1..] == [journal];
    assert Present([journal][1..]) == [];
  }

  /** A label is empty exactly when both parts are. */
  lemma LabelEmptyIff(section: string, journal: string)
    ensures Label(section, journal) == [] <==> section == [] && journal == []
  {
    if section != [] && journal != [] {
      assert |section + Bullet + journal| > 0;
    }
  }

  /** `df[name] = cells`: an existing column of that name is overwritten in place, otherwise
      the column is appended. */
  function SetColumn(columns: seq<Column>, name: string, cells: seq<string>): (r: seq<Column>)
    ensures forall c :: 0 <= c < |r| ==> r[c].cells == cells || r[c] in columns
    decreases |columns|
  {
    if columns == [] then [Column(name, cells)]
    else if columns[0].name == name then [Column(name, cells)] + columns[1..]
    else [columns[0]] + SetColumn(columns[1..], name, cells)
  }

  /** The headers stay as they were, with `name` appended when it was new. */
  lemma {:induction false} SetColumnNames(columns: seq<Column>, name: string, cells: seq<string>)
    ensures Names(SetColumn(columns, name, cells))
            == if name in Names(columns) then Names(columns) else Names(columns) + [name]
    decreases |columns|
  {
    if columns != [] {
      var head := columns[0].name;
      var tail := columns[1..];
      assert Names(columns) == [head] + Names(tail);
      assert name in Names(columns) <==> head == name || name in Names(tail);
      if head != name {
        SetColumnNames(tail, name, cells);
        assert Names(SetColumn(columns, name, cells)) == [head] + Names(SetColumn(tail, name, cells));
      }
    }
  }

  /** The column set holds the new cells, and every other column reads as before. */
  lemma {:induction false} SetColumnLookup(columns: seq<Column>, name: string, cells: seq<string>, other: string)
    ensures Lookup(SetColumn(columns, name, cells), name) == Some(cells)
    ensures other != name ==> Lookup(SetColumn(columns, name, cells), other) == Lookup(columns, other)
    decreases |columns|
  {
    if columns != [] {
      var r := SetColumn(columns, name, cells);
      if columns[0].name == name {
        assert r[1..] == columns[1..];
      } else {
        assert r[1..] == SetColumn(columns[1..], name, cells);
        SetColumnLookup(columns[1..], name, cells, other);
      }
    }
  }

  /** `merge_section_journal`: a `Section` column holding, per row, the label of the cleaned
      section and journal cells (headers matched in any letter case). */
  function MergeSectionJournal(f: Frame): (r: Frame)
    requires WellFormed(f)
    ensures r.height == f.height
    ensures Names(r.columns) == if "Section" in Names(f.columns) then Names(f.columns)
                                else Names(f.columns) + ["Section"]
    ensures forall other :: other != "Section" ==> Lookup(r.columns, other) == Lookup(f.columns, other)
    ensures Lookup(r.columns, "Section").Some?
    ensures var s := Lookup(r.columns, "Section").value;
      |s| == f.height
      && forall i :: 0 <= i < f.height ==> s[i] == Label(LabelCells(f, "section")[i], LabelCells(f, "journal")[i])
  {
    var sections := LabelCells(f, "section");
    var journals := LabelCells(f, "journal");
    var combined := seq(f.height, i requires 0 <= i < f.height => Label(sections[i], journals[i]));
    SetColumnNames(f.columns, "Section", combined);
    SetColumnLookup(f.columns, "Section", combined, "Section");
    forall other | other != "Section"
      ensures Lookup(SetColumn(f.columns, "Section", combined), other) == Lookup(f.columns, other)
    {
      SetColumnLookup(f.columns, "Section", combined, other);
    }
    Frame(SetColumn(f.columns, "Section", combined), f.height)
  }

  /** Merging keeps the frame well formed. */
  lemma MergeKeepsWellFormed(f: Frame)
    requires WellFormed(f)
    ensures WellFormed(MergeSectionJournal(f))
  {
    var r := MergeSectionJournal(f);
    var cells := Lookup(r.columns, "Section").value;
    if "Section" !in Names(f.columns) {
      DistinctAppend(Names(f.columns), "Section");
    }
    forall c | 0 <= c < |r.columns| ensures |r.columns[c].cells| == r.height {
      if r.columns[c].cells != cells {
        assert r.columns[c] in f.columns;
      }
    }
  }

  /** The text a row contributes for one label: empty when the column is missing or the
      cell is `nan`, the stripped cell otherwise. */
  function PartOf(f: Frame, want: string, i: nat): string
    requires WellFormed(f) && i < f.height
  {
    match LastColumn(f.columns, want)
    case None => ""
    case Some(c) => if f.columns[c].cells[i] == "nan" then "" else Strip(f.columns[c].cells[i])
  }

  /** Every merged label is the present parts of the row joined by the bullet, with a `nan`
      cell counting as missing. */
  lemma MergedLabel(f: Frame, i: nat)
    requires WellFormed(f) && i < f.height
    ensures Lookup(MergeSectionJournal(f).columns, "Section").value[i]
            == Join(Bullet, Present([PartOf(f, "section", i), PartOf(f, "journal", i)]))
  {
    var s := PartOf(f, "section", i);
    var j := PartOf(f, "journal", i);
    StripOfEmpty();
    assert LabelCells(f, "section")[i] == s;
    assert LabelCells(f, "journal")[i] == j;
    LabelJoinsPresentParts(s, j);
  }

  lemma StripOfEmpty()
    ensures Strip("") == ""
  {
  }

  // ---------------------------------------------------------------------------------------
  // Paging
  // ---------------------------------------------------------------------------------------

  /** A `PaginatedTable`: the page size, the loaded rows (none before the first load) and the
      current page. */
  datatype Pager<T> = Pager(size: nat, data: Option<seq<T>>, page: int)

  /** What `refresh` puts in the tree view. */
  datatype View<T> = Message(text: string) | Rows(rows: seq<T>)

  const NoData: string := "No data loaded yet \U{2014} please run this process first."

  /** A freshly built table: nothing loaded, first page. */
  function NewPager<T>(size: nat): (r: Pager<T>)
    ensures r.data.None? && r.page == 0 && r.size == size
  {
    Pager(size, None, 0)
  }

  function Len<T>(p: Pager<T>): nat
  {
    if p.data.None? then 0 else |p.data.value|
  }

  /** The page is never negative and, unless it is the first, starts inside the data. */
  predicate Valid<T>(p: Pager<T>)
  {
    p.size > 0 && 0 <= p.page && (p.page == 0 || p.page * p.size < Len(p))
  }

  /** `load_data`: new rows, back to the first page. */
  function LoadData<T>(p: Pager<T>, rows: seq<T>): (r: Pager<T>)
    ensures r.data == Some(rows) && r.page == 0 && r.size == p.size
    ensures p.size > 0 ==> Valid(r)
  {
    p.(data := Some(rows), page := 0)
  }

  /** `next_page`: forward only while the next page starts inside the data. */
  function NextPage<T>(p: Pager<T>): (r: Pager<T>)
    ensures Valid(p) ==> Valid(r)
    ensures r.data == p.data && r.size == p.size
    ensures r.page == p.page || r.page == p.page + 1
  {
    if p.data.Some? && (p.page + 1) * p.size < |p.data.value| then p.(page := p.page + 1) else p
  }

  /** `prev_page`: back only from a page after the first. */
  function PrevPage<T>(p: Pager<T>): (r: Pager<T>)
    ensures Valid(p) ==> Valid(r)
    ensures r.data == p.data && r.size == p.size
    ensures r.page == p.page || (r.page == p.page - 1 && r.page >= 0)
  {
    if p.data.Some? && p.page > 0 then p.(page := p.page - 1) else p
  }

  /** `first_page`: always the first page. */
  function FirstPage<T>(p: Pager<T>): (r: Pager<T>)
    ensures p.size > 0 ==> Valid(r)
    ensures r.page == 0 && r.data == p.data && r.size == p.size
  {
    p.(page := 0)
  }

  /** `last_page`: `max(0, (len - 1) // size)` once data is loaded. For a positive divisor
      Dafny's `/` rounds down as Python's `//` does, also for `len - 1 == -1`. */
  function LastPage<T>(p: Pager<T>): (r: Pager<T>)
    requires p.size > 0
    ensures Valid(p) ==> Valid(r)
    ensures r.data == p.data && r.size == p.size
    ensures p.data.Some? && |p.data.value| > 0 ==>
      r.page * p.size < |p.data.value| <= (r.page + 1) * p.size
    ensures p.data.Some? && |p.data.value| == 0 ==> r.page == 0
    ensures p.data.None? ==> r == p
  {
    if p.data.Some? then
      var n := |p.data.value|;
      var q := (n - 1) / p.size;
      assert n > 0 ==> q * p.size <= n - 1 < (q + 1) * p.size;
      p.(page := if 0 < q then q else 0)
    else p
  }

  /** `refresh`: the message when nothing (or nothing but headers) is loaded, else the rows
      `[page * size, page * size + size)` that exist. */
  function Refresh<T>(p: Pager<T>): (r: View<T>)
    requires 0 <= p.page
    ensures r.Message? <==> p.data.None? || |p.data.value| == 0
    ensures r.Message? ==> r.text == NoData
    ensures r.Rows? ==> |r.rows| <= p.size
    ensures r.Rows? && p.page * p.size < |p.data.value| ==>
      |r.rows| == if p.size < |p.data.value| - p.page * p.size then p.size else |p.data.value| - p.page * p.size
    ensures r.Rows? ==> forall k :: 0 <= k < |r.rows| ==>
      p.page * p.size + k < |p.data.value| && r.rows[k] == p.data.value[p.page * p.size + k]
  {
    if p.data.None? || |p.data.value| == 0 then Message(NoData)
    else
      var rows := p.data.value;
      var start := p.page * p.size;
      var end := start + p.size;
      if start >= |rows| then Rows([])
      else Rows(rows[start..if end < |rows| then end else |rows|])
  }

  /** A valid table with data never shows an empty page. */
  lemma NeverAnEmptyPage<T>(p: Pager<T>)
    requires Valid(p) && p.data.Some? && |p.data.value| > 0
    ensures Refresh(p).Rows? && |Refresh(p).rows| > 0
  {
  }

  /** `next_page` moves exactly when the current page is before the one `last_page` picks. */
  lemma NextMovesBeforeLastPage<T>(p: Pager<T>)
    requires Valid(p) && p.data.Some?
    ensures NextPage(p) != p <==> p.page < LastPage(p).page
  {
    var n := |p.data.value|;
    var last := LastPage(p).page;
    if n > 0 {
      if p.page < last {
        MulMonotone(p.page + 1, last, p.size);
      } else {
        MulMonotone(last + 1, p.page + 1, p.size);
      }
    }
  }

  lemma MulMonotone(a: int, b: int, m: nat)
    requires a <= b
    ensures a * m <= b * m
  {
  }

  /** `prev_page` undoes `next_page`. */
  lemma PrevUndoesNext<T>(p: Pager<T>)
    requires Valid(p) && NextPage(p) != p
    ensures PrevPage(NextPage(p)) == p
  {
  }

  /** `next_page` undoes `prev_page`. */
  lemma NextUndoesPrev<T>(p: Pager<T>)
    requires Valid(p) && PrevPage(p) != p
    ensures NextPage(PrevPage(p)) == p
  {
  }

  /** Row `i` is shown on page `i / size`, at position `i % size`, and that page is reachable:
      it is at most the last page. */
  lemma EveryRowHasAPage<T>(p: Pager<T>, i: nat)
    requires Valid(p) && p.data.Some? && i < |p.data.value|
    ensures var q := p.(page := i / p.size);
      Valid(q) && i / p.size <= LastPage(p).page
      && Refresh(q).Rows? && i % p.size < |Refresh(q).rows| && Refresh(q).rows[i % p.size] == p.data.value[i]
  {
    var pg := i / p.size;
    var q := p.(page := pg);
    var start := pg * p.size;
    DivSplit(i, p.size);
    assert Valid(q);
    var last := LastPage(p).page;
    if last < pg {
      MulMonotone(last + 1, pg, p.size);
    }
    var v := Refresh(q);
    assert |v.rows| == if p.size < |p.data.value| - start then p.size else |p.data.value| - start;
    assert v.rows[i - start] == p.data.value[start + (i - start)];
  }

  /** Euclidean division of a row index by the page size. */
  lemma DivSplit(i: nat, size: nat)
    requires size > 0
    ensures (i / size) * size <= i < (i / size) * size + size
    ensures i % size == i - (i / size) * size
  {
  }

  // ---------------------------------------------------------------------------------------
  // The fallback reading of a similarity report
  // ---------------------------------------------------------------------------------------

  /** The labels read off one line of a report. */
  datatype Tags = Tags(vector: string, features: string, comparison: string)

  /** The keyword classification of a line, case-insensitively: the first vector kind named
      (tfidf, then frequency, then binary), the n-gram kind (unigram or `n1-1`, then bigram
      or `n2-2`), and which fields were compared. */
  function Classify(line: string): Tags
  {
    var l := Lower(line);
    Tags(VectorKind(l), FeatureKind(l), Comparison(l))
  }

  /** The vector kind a lower-cased line names. */
  function VectorKind(l: string): string
  {
    if Contains(l, "tfidf") then "tfidf"
    else if Contains(l, "frequency") then "frequency"
    else if Contains(l, "binary") then "binary"
    else ""
  }

  /** The n-gram kind a lower-cased line names. */
  function FeatureKind(l: string): string
  {
    if Contains(l, "unigram") || Contains(l, "n1-1") then "unigram"
    else if Contains(l, "bigram") || Contains(l, "n2-2") then "bigram"
    else ""
  }

  /** The fields a lower-cased line says were compared. */
  function Comparison(l: string): string
  {
    if Contains(l, "title") && Contains(l, "abstract") then "Title vs Abstract"
    else if Contains(l, "title") then "Title"
    else if Contains(l, "abstract") then "Abstract"
    else ""
  }

  /** Each label names a keyword of the line: the vector kind is empty exactly when no kind
      is named, the n-gram kind exactly when neither kind nor code is named, and the
      comparison names both fields exactly when both words occur. When several keywords
      occur, tfidf wins over frequency, which wins over binary, and unigram (or `n1-1`)
      wins over bigram (or `n2-2`). */
  lemma ClassifyMentions(line: string)
    ensures var r := Classify(line); var l := Lower(line);
      && (Contains(l, "tfidf") ==> r.vector == "tfidf")
      && (!Contains(l, "tfidf") && Contains(l, "frequency") ==> r.vector == "frequency")
      && (!Contains(l, "tfidf") && !Contains(l, "frequency") && Contains(l, "binary") ==> r.vector == "binary")
      && ((Contains(l, "unigram") || Contains(l, "n1-1")) ==> r.features == "unigram")
      && ((!Contains(l, "unigram") && !Contains(l, "n1-1") && (Contains(l, "bigram") || Contains(l, "n2-2")))
          ==> r.features == "bigram")
      && (Contains(l, "title") && !Contains(l, "abstract") ==> r.comparison == "Title")
      && (!Contains(l, "title") && Contains(l, "abstract") ==> r.comparison == "Abstract")
      && (r.vector == "" <==> !Contains(l, "tfidf") && !Contains(l, "frequency") && !Contains(l, "binary"))
      && (r.vector != "" ==> Contains(l, r.vector))
      && (r.features == "" <==> !Contains(l, "unigram") && !Contains(l, "n1-1")
                                && !Contains(l, "bigram") && !Contains(l, "n2-2"))
      && (r.features == "unigram" ==> Contains(l, "unigram") || Contains(l, "n1-1"))
      && (r.features == "bigram" ==> Contains(l, "bigram") || Contains(l, "n2-2"))
      && (r.comparison == "Title vs Abstract" <==> Contains(l, "title") && Contains(l, "abstract"))
      && (r.comparison == "" <==> !Contains(l, "title") && !Contains(l, "abstract"))
  {
  }

  /** Lower-casing a line first changes nothing. */
  lemma ClassifyIgnoresCase(line: string)
    ensures Classify(Lower(line)) == Classify(line)
  {
    var l := Lower(line);
    assert Lower(l) == l by {
      forall i | 0 <= i < |l| ensures Lower(l)[i] == l[i] {
        assert !IsUpper(l[i]);
      }
    }
  }

  /** The names of the vector kinds vectorisation writes classify as themselves. */
  lemma RepNamesClassifyAsThemselves(rep: string)
    requires rep in RepNames
    ensures Classify(rep).vector == rep
  {
    if rep == "tfidf" {
      TfidfClassifies();
    } else if rep == "frequency" {
      FrequencyClassifies();
    } else {
      BinaryClassifies();
    }
  }

  lemma TfidfClassifies()
    ensures Classify("tfidf").vector == "tfidf"
  {
    LowerOfLowercase("tfidf");
    assert StartsWith("tfidf", "tfidf");
  }

  lemma FrequencyClassifies()
    ensures Classify("frequency").vector == "frequency"
  {
    LowerOfLowercase("frequency");
    NotContained("frequency", "tfidf");
    assert StartsWith("frequency", "frequency");
  }

  lemma BinaryClassifies()
    ensures Classify("binary").vector == "binary"
  {
    LowerOfLowercase("binary");
    NotContained("binary", "tfidf");
    NotContained("binary", "frequency");
    assert StartsWith("binary", "binary");
  }

  /** The codes retrieval looks for classify as their n-gram kinds, except the combined
      `n1-2`, which gets no feature label. */
  lemma NgramCodesClassify(kind: string)
    requires NgramCode(kind).Success?
    ensures Classify(NgramCode(kind).value).features == if kind == "both" then "" else kind
  {
    var code := NgramCode(kind).value;
    LowerOfLowercase(code);
    assert Classify(code).features == FeatureKind(code);
    NotContained(code, "unigram");
    NotContained(code, "bigram");
    if kind == "unigram" {
      assert StartsWith(code, "n1-1");
    } else if kind == "bigram" {
      NotContained(code, "n1-1");
      assert StartsWith(code, "n2-2");
    } else {
      NotContained(code, "n1-1");
      NotContained(code, "n2-2");
    }
  }

  /** Lower-casing text without capitals changes nothing. */
  lemma LowerOfLowercase(s: string)
    requires forall i :: 0 <= i < |s| ==> !IsUpper(s[i])
    ensures Lower(s) == s
  {
  }

  /** A word is not in a text that lacks its first letter, nor in a different text of the
      same length. */
  lemma NotContained(s: string, p: string)
    requires p != [] && (p[0] !in s || (|s| == |p| && s != p))
    ensures !Contains(s, p)
  {
    if Contains(s, p) {
      ContainsShape(s, p);
    }
  }

  /** A row of the parsed report. */
  datatype SimRow = SimRow(doc: string, vector: string, features: string, comparison: string, similarity: real)

  function Similarity(r: SimRow): real { r.similarity }

  /** Blank lines and lines starting with `#` or `//` (after stripping) are skipped. */
  predicate Skipped(line: string)
  {
    var s := Strip(line);
    s == [] || StartsWith(s, "#") || StartsWith(s, "//")
  }

  /** The row a line gives: none for a skipped line or one without a similarity. The
      similarity (`sim_pat` and `float`) and the document name (`doc_pat` and its fallback)
      read off the stripped line are the parameters `simOf` and `docOf`. */
  function LineRow(line: string, simOf: string -> Option<real>, docOf: string -> string): (r: Option<SimRow>)
    ensures r.Some? <==> !Skipped(line) && simOf(Strip(line)).Some?
    ensures r.Some? ==> r.value.similarity == simOf(Strip(line)).value && r.value.doc == docOf(Strip(line))
    ensures r.Some? ==> Tags(r.value.vector, r.value.features, r.value.comparison) == Classify(Strip(line))
  {
    var s := Strip(line);
    if s == [] || StartsWith(s, "#") || StartsWith(s, "//") then None
    else
      match simOf(s)
      case None => None
      case Some(v) =>
        var t := Classify(s);
        Some(SimRow(docOf(s), t.vector, t.features, t.comparison, v))
  }

  /** `x` is what `read` gives for one of the lines. */
  predicate ReadFrom<T(==)>(lines: seq<string>, read: string -> Option<T>, x: T)
  {
    exists i :: 0 <= i < |lines| && read(lines[i]) == Some(x)
  }

  /** What `read` gives for the lines, in order, skipping the lines it gives nothing for. */
  function Collect<T(==)>(lines: seq<string>, read: string -> Option<T>): (r: seq<T>)
    ensures |r| <= |lines|
    ensures forall k :: 0 <= k < |r| ==> ReadFrom(lines, read, r[k])
    decreases |lines|
  {
    if lines == [] then []
    else
      var tail := lines[1..];
      var rest := Collect(tail, read);
      var head := read(lines[0]);
      var r := (if head.Some? then [head.value] else []) + rest;
      forall k | 0 <= k < |r| ensures ReadFrom(lines, read, r[k]) {
        if head.Some? && k == 0 {
          assert read(lines[0]) == Some(r[k]);
        } else {
          var k' := if head.Some? then k - 1 else k;
          assert r[k] == rest[k'];
          ReadFromTail(lines, read, rest[k']);
        }
      }
      r
  }

  /** What a line after the first gives is given by one of the lines. */
  lemma ReadFromTail<T>(lines: seq<string>, read: string -> Option<T>, x: T)
    requires lines != [] && ReadFrom(lines[1..], read, x)
    ensures ReadFrom(lines, read, x)
  {
    var i :| 0 <= i < |lines[1..]| && read(lines[1..][i]) == Some(x);
    assert lines[1..][i] == lines[i + 1];
  }

  /** Every line `read` gives something for is represented. */
  lemma {:induction false} CollectComplete<T>(lines: seq<string>, read: string -> Option<T>, i: nat)
    requires i < |lines| && read(lines[i]).Some?
    ensures read(lines[i]).value in Collect(lines, read)
    decreases |lines|
  {
    var rest := Collect(lines[1..], read);
    var head := read(lines[0]);
    assert Collect(lines, read) == (if head.Some? then [head.value] else []) + rest;
    if i > 0 {
      assert lines[1..][i - 1] == lines[i];
      CollectComplete(lines[1..], read, i - 1);
    }
  }

  /** The row reader of the fallback. */
  function Reader(simOf: string -> Option<real>, docOf: string -> string): string -> Option<SimRow>
  {
    line => LineRow(line, simOf, docOf)
  }

  /** How many rows the fallback keeps. */
  const Shown: nat := 10

  /** The fallback of `parse_similarities_text`: the rows of the report's lines, best
      similarity first, at most ten. */
  function ParseFallback(text: string, simOf: string -> Option<real>, docOf: string -> string)
    : (r: seq<SimRow>)
    ensures |r| <= Shown && SortedDesc(r, Similarity)
    ensures |r| == if |Collect(SplitLines(text), Reader(simOf, docOf))| < Shown
                   then |Collect(SplitLines(text), Reader(simOf, docOf))| else Shown
    ensures multiset(r) <= multiset(Collect(SplitLines(text), Reader(simOf, docOf)))
  {
    TopN(Collect(SplitLines(text), Reader(simOf, docOf)), Similarity, Shown)
  }

  /** Every row shown comes from a line of the report that is not skipped and carries a
      similarity. */
  lemma FallbackRowsFromLines(text: string, simOf: string -> Option<real>, docOf: string -> string, y: SimRow)
    requires y in ParseFallback(text, simOf, docOf)
    ensures exists i ::
      0 <= i < |SplitLines(text)| && !Skipped(SplitLines(text)[i]) && simOf(Strip(SplitLines(text)[i])) == Some(y.similarity)
  {
    var lines := SplitLines(text);
    var read := Reader(simOf, docOf);
    var all := Collect(lines, read);
    TopNMember(all, Similarity, Shown, y);
    var k :| 0 <= k < |all| && all[k] == y;
    var i :| 0 <= i < |lines| && read(lines[i]) == Some(y);
    RowOfLine(lines[i], simOf, docOf, y);
  }

  /** A line the reader gives a row for is not skipped and carries the row's similarity. */
  lemma RowOfLine(line: string, simOf: string -> Option<real>, docOf: string -> string, y: SimRow)
    requires Reader(simOf, docOf)(line) == Some(y)
    ensures !Skipped(line) && simOf(Strip(line)) == Some(y.similarity)
  {
    assert LineRow(line, simOf, docOf) == Some(y);
  }

  /** Every line that is not skipped and carries a similarity gives a candidate row. */
  lemma FallbackSeesEveryLine(text: string, simOf: string -> Option<real>, docOf: string -> string, i: nat)
    requires i < |SplitLines(text)| && !Skipped(SplitLines(text)[i]) && simOf(Strip(SplitLines(text)[i])).Some?
    ensures LineRow(SplitLines(text)[i], simOf, docOf).value in Collect(SplitLines(text), Reader(simOf, docOf))
  {
    var lines := SplitLines(text);
    var read := Reader(simOf, docOf);
    assert read(lines[i]) == LineRow(lines[i], simOf, docOf);
    CollectComplete(lines, read, i);
  }

  /** No candidate row left out scores above a row that is shown. */
  lemma FallbackKeepsTheBest(text: string, simOf: string -> Option<real>, docOf: string -> string, x: SimRow)
    requires x in multiset(Collect(SplitLines(text), Reader(simOf, docOf))) - multiset(ParseFallback(text, simOf, docOf))
    ensures forall y :: y in ParseFallback(text, simOf, docOf) ==> y.similarity >= x.similarity
  {
    TopNKeepsTheBest(Collect(SplitLines(text), Reader(simOf, docOf)), Similarity, Shown, x);
  }
}
