/** Ranking the collected articles against a query (`similarities/retrieve_similar_articles.py`):
    reading the query, loading the artifacts `Vectorize` wrote, the per-corpus top ten, the
    merged top ten and the rows of the TSV report. Similarity is the parameter `sim` (the
    cosine of the transformed query against one row of the matrix), text normalisation is the
    parameter `normalize`, and reading a BibTeX file is the parameter `readBib`. */
module Retrieve {
  import opened Wrappers
  import opened Strings
  import opened Lists
  import opened StableSort
  import opened Vectorize

  // ---------------------------------------------------------------------------------------
  // The query
  // ---------------------------------------------------------------------------------------

  /** The text after a `TI  -` / `AB  -` marker: every copy of the marker removed, then
      stripped. */
  function MarkedText(line: string, marker: string): string
    requires marker != []
  {
    Strip(ReplaceAll(line, marker, ""))
  }

  /** `read_ris`: the title and summary of an RIS file, given as its lines; a later `TI  -`
      or `AB  -` line replaces an earlier one. */
  function ReadRis(lines: seq<string>): (r: (string, string))
    decreases |lines|
  {
    if lines == [] then ("", "")
    else
      var (title, summary) := ReadRis(lines[..|lines| - 1]);
      var line := lines[|lines| - 1];
      if StartsWith(line, "TI  -") then (MarkedText(line, "TI  -"), summary)
      else if StartsWith(line, "AB  -") then (title, MarkedText(line, "AB  -"))
      else (title, summary)
  }

  /** Line `i` is the last that starts with `marker`. */
  predicate LastMarked(lines: seq<string>, marker: string, i: int)
  {
    0 <= i < |lines| && StartsWith(lines[i], marker)
    && forall j :: i < j < |lines| ==> !StartsWith(lines[j], marker)
  }

  /** No line starts with `marker`. */
  predicate Unmarked(lines: seq<string>, marker: string)
  {
    forall j :: 0 <= j < |lines| ==> !StartsWith(lines[j], marker)
  }

  /** The text of the last line that starts with `marker`, or empty. */
  function LastMarkedText(lines: seq<string>, marker: string): string
    requires marker != []
    decreases |lines|
  {
    if lines == [] then ""
    else if StartsWith(lines[|lines| - 1], marker) then MarkedText(lines[|lines| - 1], marker)
    else LastMarkedText(lines[..|lines| - 1], marker)
  }

  /** The two markers never start the same line, so each field follows its own lines. */
  lemma {:induction false} ReadRisFields(lines: seq<string>)
    ensures ReadRis(lines) == (LastMarkedText(lines, "TI  -"), LastMarkedText(lines, "AB  -"))
    decreases |lines|
  {
    if lines != [] {
      var line := lines[|lines| - 1];
      ReadRisFields(lines[..|lines| - 1]);
      assert StartsWith(line, "TI  -") ==> !StartsWith(line, "AB  -") by {
        assert "TI  -"[0] != "AB  -"[0];
      }
    }
  }

  /** Dropping a last line that does not carry the marker changes nothing. */
  lemma DropUnmarkedLine(lines: seq<string>, marker: string)
    requires marker != [] && lines != [] && !StartsWith(lines[|lines| - 1], marker)
    ensures LastMarkedText(lines, marker) == LastMarkedText(lines[..|lines| - 1], marker)
  {
  }

  /** A last line carrying the marker gives the text. */
  lemma MarkedLastLine(lines: seq<string>, marker: string)
    requires marker != [] && lines != [] && StartsWith(lines[|lines| - 1], marker)
    ensures LastMarkedText(lines, marker) == MarkedText(lines[|lines| - 1], marker)
  {
  }

  /** The text a marker gives is that of its last line. */
  lemma {:induction false} LastMarkedWins(lines: seq<string>, marker: string, i: int)
    requires marker != [] && LastMarked(lines, marker, i)
    ensures LastMarkedText(lines, marker) == MarkedText(lines[i], marker)
    decreases |lines|
  {
    var n := |lines| - 1;
    var init := lines[..n];
    if i < n {
      DropUnmarkedLine(lines, marker);
      assert LastMarked(init, marker, i) by {
        assert init[i] == lines[i];
        forall j | i < j < n ensures !StartsWith(init[j], marker) {
          assert init[j] == lines[j];
        }
      }
      LastMarkedWins(init, marker, i);
    } else {
      MarkedLastLine(lines, marker);
    }
  }

  /** Without a line carrying the marker, its text is empty. */
  lemma {:induction false} UnmarkedIsEmpty(lines: seq<string>, marker: string)
    requires marker != [] && Unmarked(lines, marker)
    ensures LastMarkedText(lines, marker) == ""
    decreases |lines|
  {
    if lines != [] {
      var n := |lines| - 1;
      var init := lines[..n];
      assert !StartsWith(lines[n], marker);
      forall j | 0 <= j < n ensures !StartsWith(init[j], marker) {
        assert init[j] == lines[j];
      }
      UnmarkedIsEmpty(init, marker);
    }
  }

  /** `read_ris` keeps, for the title and for the abstract, the text of the last line carrying
      the marker, and the empty text when there is none. */
  lemma ReadRisLastWins(lines: seq<string>)
    ensures forall i :: LastMarked(lines, "TI  -", i) ==> ReadRis(lines).0 == MarkedText(lines[i], "TI  -")
    ensures forall i :: LastMarked(lines, "AB  -", i) ==> ReadRis(lines).1 == MarkedText(lines[i], "AB  -")
    ensures Unmarked(lines, "TI  -") ==> ReadRis(lines).0 == ""
    ensures Unmarked(lines, "AB  -") ==> ReadRis(lines).1 == ""
  {
    ReadRisFields(lines);
    forall i | LastMarked(lines, "TI  -", i) ensures ReadRis(lines).0 == MarkedText(lines[i], "TI  -") {
      LastMarkedWins(lines, "TI  -", i);
    }
    forall i | LastMarked(lines, "AB  -", i) ensures ReadRis(lines).1 == MarkedText(lines[i], "AB  -") {
      LastMarkedWins(lines, "AB  -", i);
    }
    if Unmarked(lines, "TI  -") {
      UnmarkedIsEmpty(lines, "TI  -");
    }
    if Unmarked(lines, "AB  -") {
      UnmarkedIsEmpty(lines, "AB  -");
    }
  }

  /** `field.lower() == "title"` picks the title; anything else picks the summary. */
  function SelectField(title: string, summary: string, field: string): string
  {
    if Lower(field) == "title" then title else summary
  }

  // ---------------------------------------------------------------------------------------
  // Loading artifacts
  // ---------------------------------------------------------------------------------------

  /** `ngram_code`: the tag retrieval looks for; an unknown choice is a ValueError. */
  function NgramCode(kind: string): (r: Result<string, Error>)
    ensures r.Success? <==> kind in ["unigram", "bigram", "both"]
    ensures r.Failure? ==> r.error == ValueError
  {
    if kind == "unigram" then Success("n1-1")
    else if kind == "bigram" then Success("n2-2")
    else if kind == "both" then Success("n1-2")
    else Failure(ValueError)
  }

  /** For `unigram` and `bigram` the code is the tag of the one range vectorizing writes. */
  lemma NgramCodeMatchesTag(kind: string)
    requires kind in ["unigram", "bigram"]
    ensures |NgramRanges(kind).value| == 1
    ensures NgramCode(kind) == Success(NgramTag(NgramRanges(kind).value[0]))
  {
    assert NatToString(1) == "1" && NatToString(2) == "2";
    if kind == "unigram" {
      assert NgramTag((1, 1)) == "n1-1";
    } else {
      assert NgramTag((2, 2)) == "n2-2";
    }
  }

  /** For `both` the code is the tag of no range vectorizing writes. */
  lemma BothCodeMatchesNoTag()
    ensures forall g :: 0 <= g < |NgramRanges("both").value| ==>
      NgramTag(NgramRanges("both").value[g]) != NgramCode("both").value
  {
    BothTags();
  }

  /** `load_pkl`: the vectorizer and matrix stored under the artifact's name. An unknown
      n-gram choice is a ValueError, a missing file is FileNotFound, and a payload that is not
      a dictionary with `vectorizer` and `X` is a ValueError. */
  function LoadPkl(dir: map<string, Pickled>, corpus: string, field: string, vectorType: string, ngramType: string)
    : (r: Result<(Value, Value), Error>)
    ensures NgramCode(ngramType).Failure? ==> r == Failure(ValueError)
    ensures NgramCode(ngramType).Success? ==>
      var name := ArtifactName(corpus, field, vectorType, NgramCode(ngramType).value);
      && (name !in dir ==> r == Failure(FileNotFound(name)))
      && (name in dir && !Loadable(dir[name]) ==> r == Failure(ValueError))
      && (name in dir && Loadable(dir[name]) ==>
            r == Success((dir[name].entries["vectorizer"], dir[name].entries["X"])))
  {
    match NgramCode(ngramType)
    case Failure(e) => Failure(e)
    case Success(tag) =>
      var name := ArtifactName(corpus, field, vectorType, tag);
      if name !in dir then Failure(FileNotFound(name))
      else if !Loadable(dir[name]) then Failure(ValueError)
      else Success((dir[name].entries["vectorizer"], dir[name].entries["X"]))
  }

  /** What vectorizing one corpus column with `unigram` or `bigram` writes, retrieval with the
      same corpus, field, representation and n-gram choice loads. */
  lemma LoadsWhatVectorizingWrote(tables: map<string, Table>, corpus: string, field: string, rep: string,
                                  kind: string, normalize: string -> string, dir: map<string, Pickled>)
    requires corpus != "both" && field != "Both" && rep in RepNames && kind in ["unigram", "bigram"]
    requires corpus in tables && field in tables[corpus].columns
    ensures LoadPkl(Store(dir, VectorizeCorpus(tables, corpus, field, rep, kind, normalize).written),
                    corpus, field, rep, kind).Success?
  {
    var written := VectorizeCorpus(tables, corpus, field, rep, kind, normalize).written;
    var pairs := Pairs(tables, Corpora(corpus), Fields(field));
    var ranges := NgramRanges(kind).value;
    SinglePair(tables, corpus, field);
    GoodConfiguration(tables, corpus, field, rep, kind, normalize);
    NgramCodeMatchesTag(kind);
    assert Reps(rep) == [rep];
    assert |written| == 1;
    assert Made(written[0], pairs, Reps(rep), ranges);
    var name := ArtifactName(corpus, field, rep, NgramTag(ranges[0]));
    assert written[0].name == name;
    forall i | 0 <= i < |written| ensures Loadable(written[i].payload) { }
    StoreHolds(dir, written, name);
  }

  /** One existing corpus and column make one pair. */
  lemma SinglePair(tables: map<string, Table>, corpus: string, field: string)
    requires corpus != "both" && field != "Both"
    requires corpus in tables && field in tables[corpus].columns
    ensures Pairs(tables, Corpora(corpus), Fields(field)) == [(corpus, field)]
  {
    assert ColumnsPresent(tables[corpus], [field]) == [field] + ColumnsPresent(tables[corpus], []);
    assert Pairs(tables, [corpus], [field]) == [(corpus, field)] + Pairs(tables, [], [field]);
  }

  /** Whatever vectorizing with `both` writes, retrieval with `both` does not see: it loads
      exactly what it would have loaded before. */
  lemma BothLoadsNothingNew(tables: map<string, Table>, corpus: string, field: string, rep: string,
                            normalize: string -> string, dir: map<string, Pickled>, c: string, f: string, r: string)
    ensures LoadPkl(Store(dir, VectorizeCorpus(tables, corpus, field, rep, "both", normalize).written), c, f, r, "both")
            == LoadPkl(dir, c, f, r, "both")
  {
    var written := VectorizeCorpus(tables, corpus, field, rep, "both", normalize).written;
    var name := ArtifactName(c, f, r, "n1-2");
    if WrittenUnder(written, name) {
      var k :| 0 <= k < |written| && written[k].name == name;
      BothNeverWritesCombined(tables, corpus, field, rep, normalize, k, c, f, r);
    }
    StoreHolds(dir, written, name);
  }

  // ---------------------------------------------------------------------------------------
  // Ranking
  // ---------------------------------------------------------------------------------------

  /** A corpus row as retrieval reads it; `date` is absent when the table has no Date column. */
  datatype Doc = Doc(title: string, doi: string, date: Option<string>)

  datatype Hit = Hit(corpus: string, title: string, doi: string, date: string, similarity: real)

  function Similarity(h: Hit): real
  {
    h.similarity
  }

  /** `row.get("Date", "N/A")`. */
  function DateOf(d: Doc): string
  {
    match d.date
    case Some(s) => s
    case None => "N/A"
  }

  /** Every row of a corpus with its similarity to the query. */
  function Scored(corpus: string, docs: seq<Doc>, score: nat -> real): (r: seq<Hit>)
    ensures |r| == |docs|
    ensures forall i :: 0 <= i < |r| ==>
      r[i] == Hit(corpus, docs[i].title, docs[i].doi, DateOf(docs[i]), score(i))
  {
    seq(|docs|, i requires 0 <= i < |docs| => Hit(corpus, docs[i].title, docs[i].doi, DateOf(docs[i]), score(i)))
  }

  /** The hits retrieval keeps per corpus and overall. */
  const Keep: nat := 10

  /** Every row of a corpus scored against the query with the loaded vectorizer and matrix. */
  function ScoredRows(loaded: (Value, Value), corpus: string, docs: seq<Doc>, query: string,
                      sim: (Value, Value, string, nat) -> real): (r: seq<Hit>)
    ensures |r| == |docs|
    ensures forall i :: 0 <= i < |r| ==> r[i].corpus == corpus && r[i].similarity == sim(loaded.0, loaded.1, query, i)
  {
    Scored(corpus, docs, (i: nat) => sim(loaded.0, loaded.1, query, i))
  }

  /** One turn of the corpus loop: nothing when the artifact does not load or the table is
      missing, otherwise the ten best rows, best first (all of them when there are fewer). */
  function CorpusHits(dir: map<string, Pickled>, tables: map<string, seq<Doc>>, corpus: string, field: string,
                      vectorType: string, ngramType: string, query: string,
                      sim: (Value, Value, string, nat) -> real): (r: seq<Hit>)
    ensures |r| <= Keep && SortedDesc(r, Similarity)
    ensures r != [] ==> LoadPkl(dir, corpus, field, vectorType, ngramType).Success? && corpus in tables
    ensures forall i :: 0 <= i < |r| ==> r[i].corpus == corpus
    ensures LoadPkl(dir, corpus, field, vectorType, ngramType).Success? && corpus in tables ==>
      var all := ScoredRows(LoadPkl(dir, corpus, field, vectorType, ngramType).value, corpus, tables[corpus], query, sim);
      && |r| == (if |tables[corpus]| < Keep then |tables[corpus]| else Keep)
      && multiset(r) <= multiset(all)
  {
    match LoadPkl(dir, corpus, field, vectorType, ngramType)
    case Failure(_) => []
    case Success(loaded) =>
      if corpus !in tables then []
      else
        var all := ScoredRows(loaded, corpus, tables[corpus], query, sim);
        var top := TopN(all, Similarity, Keep);
        KeptFromCorpus(all, top, corpus);
        top
  }

  /** No row of a searched corpus that is left out scores above a hit that is kept. */
  lemma CorpusHitsKeepTheBest(dir: map<string, Pickled>, tables: map<string, seq<Doc>>, corpus: string, field: string,
                              vectorType: string, ngramType: string, query: string,
                              sim: (Value, Value, string, nat) -> real, x: Hit)
    requires LoadPkl(dir, corpus, field, vectorType, ngramType).Success? && corpus in tables
    requires x in multiset(ScoredRows(LoadPkl(dir, corpus, field, vectorType, ngramType).value, corpus, tables[corpus], query, sim))
                  - multiset(CorpusHits(dir, tables, corpus, field, vectorType, ngramType, query, sim))
    ensures forall y :: y in CorpusHits(dir, tables, corpus, field, vectorType, ngramType, query, sim) ==>
      y.similarity >= x.similarity
  {
    var all := ScoredRows(LoadPkl(dir, corpus, field, vectorType, ngramType).value, corpus, tables[corpus], query, sim);
    TopNKeepsTheBest(all, Similarity, Keep, x);
  }

  /** Hits picked out of one corpus's hits belong to that corpus. */
  lemma KeptFromCorpus(all: seq<Hit>, top: seq<Hit>, corpus: string)
    requires multiset(top) <= multiset(all)
    requires forall i :: 0 <= i < |all| ==> all[i].corpus == corpus
    ensures forall i :: 0 <= i < |top| ==> top[i].corpus == corpus
  {
    forall i | 0 <= i < |top| ensures top[i].corpus == corpus {
      assert top[i] in multiset(top);
      assert top[i] in multiset(all);
      assert top[i] in all;
    }
  }

  /** A row of the TSV report (the similarity is written rounded; that is not modelled). */
  datatype TsvRow = TsvRow(corpusDocument: string, vectorRepresentation: string, extractedFeatures: string,
                           comparisonContent: string, similarityValue: real, corpus: string, doi: string, date: string)

  /** One report row per hit, in order. */
  function TsvRows(hits: seq<Hit>, vectorType: string, ngramType: string, field: string): (r: seq<TsvRow>)
    ensures |r| == |hits|
    ensures forall i :: 0 <= i < |r| ==>
      r[i] == TsvRow(hits[i].title, vectorType, ngramType, field, hits[i].similarity, hits[i].corpus, hits[i].doi, hits[i].date)
  {
    seq(|hits|, i requires 0 <= i < |hits| =>
      TsvRow(hits[i].title, vectorType, ngramType, field, hits[i].similarity, hits[i].corpus, hits[i].doi, hits[i].date))
  }

  /** How a run ends: an exception, nothing to compare, or the ranked hits and report rows. */
  datatype Outcome = Failed(error: Error) | NoQueryText | Ranked(hits: seq<Hit>, rows: seq<TsvRow>)

  /** The corpora retrieval searches, in order. */
  const Searched: seq<string> := ["arxiv", "pubmed"]

  /** The hits of both corpora, in loop order. */
  function Candidates(dir: map<string, Pickled>, tables: map<string, seq<Doc>>, field: string, vectorType: string,
                      ngramType: string, query: string, sim: (Value, Value, string, nat) -> real): seq<Hit>
  {
    CorpusHits(dir, tables, Searched[0], field, vectorType, ngramType, query, sim)
    + CorpusHits(dir, tables, Searched[1], field, vectorType, ngramType, query, sim)
  }

  /** The title and abstract of the query file, by its extension. */
  function ReadQuery(queryFile: string, readBib: string -> (string, string), risLines: string -> seq<string>)
    : (string, string)
  {
    if EndsWith(queryFile, ".bib") then readBib(queryFile) else ReadRis(risLines(queryFile))
  }

  /** The text compared: the title, the abstract, or both, of the query file. */
  function QueryText(queryFile: string, readBib: string -> (string, string), risLines: string -> seq<string>,
                     field: string): string
  {
    var query := ReadQuery(queryFile, readBib, risLines);
    SelectField(query.0, query.1, field)
  }

  /** `retrieve_similar_articles`. */
  function RetrieveSimilar(queryFile: string, readBib: string -> (string, string), risLines: string -> seq<string>,
                           field: string, vectorType: string, ngramType: string, dir: map<string, Pickled>,
                           tables: map<string, seq<Doc>>, normalize: string -> string,
                           sim: (Value, Value, string, nat) -> real): (r: Outcome)
    ensures r.Failed? <==> !EndsWith(queryFile, ".bib") && !EndsWith(queryFile, ".ris")
    ensures r.Failed? ==> r.error == ValueError
    ensures r.NoQueryText? <==> !r.Failed? && QueryText(queryFile, readBib, risLines, field) == []
    ensures r.Ranked? ==> |r.hits| <= Keep && SortedDesc(r.hits, Similarity)
    ensures r.Ranked? ==>
      var all := Candidates(dir, tables, field, vectorType, ngramType, normalize(QueryText(queryFile, readBib, risLines, field)), sim);
      && |r.hits| == (if |all| < Keep then |all| else Keep)
      && multiset(r.hits) <= multiset(all)
    ensures r.Ranked? ==> r.rows == TsvRows(r.hits, vectorType, ngramType, field)
  {
    if !EndsWith(queryFile, ".bib") && !EndsWith(queryFile, ".ris") then Failed(ValueError)
    else
      var text := QueryText(queryFile, readBib, risLines, field);
      if text == [] then NoQueryText
      else
        var hits := TopN(Candidates(dir, tables, field, vectorType, ngramType, normalize(text), sim), Similarity, Keep);
        Ranked(hits, TsvRows(hits, vectorType, ngramType, field))
  }

  /** The merge is `sorted(..., reverse=True)[:10]` over the hits of both corpora: stable, so
      equal similarities keep arXiv before PubMed and their order within a corpus, and nothing
      left out scores above anything kept. */
  lemma MergeIsStableTop(hits: seq<Hit>, x: Hit)
    ensures TopN(hits, Similarity, Keep) == Take(SortDesc(hits, Similarity), Keep)
    ensures SameTies(SortDesc(hits, Similarity), hits, Similarity)
    ensures x in multiset(hits) - multiset(TopN(hits, Similarity, Keep)) ==>
      forall y :: y in TopN(hits, Similarity, Keep) ==> Similarity(y) >= Similarity(x)
  {
    SortDescStable(hits, Similarity);
    if x in multiset(hits) - multiset(TopN(hits, Similarity, Keep)) {
      TopNKeepsTheBest(hits, Similarity, Keep, x);
    }
  }

  /** The ranked hits of a run are the stable merge of both corpora's hits cut to ten, and
      no candidate left out scores above a ranked hit. */
  lemma RankedIsStableTop(queryFile: string, readBib: string -> (string, string), risLines: string -> seq<string>,
                          field: string, vectorType: string, ngramType: string, dir: map<string, Pickled>,
                          tables: map<string, seq<Doc>>, normalize: string -> string,
                          sim: (Value, Value, string, nat) -> real, x: Hit)
    ensures var r := RetrieveSimilar(queryFile, readBib, risLines, field, vectorType, ngramType, dir, tables, normalize, sim);
      var all := Candidates(dir, tables, field, vectorType, ngramType, normalize(QueryText(queryFile, readBib, risLines, field)), sim);
      r.Ranked? ==>
        && r.hits == Take(SortDesc(all, Similarity), Keep)
        && (x in multiset(all) - multiset(r.hits) ==> forall y :: y in r.hits ==> y.similarity >= x.similarity)
  {
    var all := Candidates(dir, tables, field, vectorType, ngramType, normalize(QueryText(queryFile, readBib, risLines, field)), sim);
    MergeIsStableTop(all, x);
  }

  /** Hits already ranked, at most ten of them, pass the merge unchanged. */
  lemma TopOfRanked(hits: seq<Hit>)
    requires |hits| <= Keep && SortedDesc(hits, Similarity)
    ensures TopN(hits, Similarity, Keep) == hits
  {
    SortSortedIsIdentity(hits, Similarity);
  }

  /** A corpus whose artifact does not load, or whose table is missing, is skipped and the
      other corpus is still searched: the ranking is that corpus's own top ten. */
  lemma FailingCorpusSkipped(dir: map<string, Pickled>, tables: map<string, seq<Doc>>, field: string,
                             vectorType: string, ngramType: string, query: string,
                             sim: (Value, Value, string, nat) -> real, k: nat)
    requires k < |Searched|
    requires LoadPkl(dir, Searched[k], field, vectorType, ngramType).Failure? || Searched[k] !in tables
    ensures TopN(Candidates(dir, tables, field, vectorType, ngramType, query, sim), Similarity, Keep)
            == CorpusHits(dir, tables, Searched[1 - k], field, vectorType, ngramType, query, sim)
  {
    var a := CorpusHits(dir, tables, Searched[0], field, vectorType, ngramType, query, sim);
    var b := CorpusHits(dir, tables, Searched[1], field, vectorType, ngramType, query, sim);
    if k == 0 {
      assert a == [];
      assert a + b == b;
      TopOfRanked(b);
    } else {
      assert b == [];
      assert a + b == a;
      TopOfRanked(a);
    }
  }

  /** A hit of one corpus's ranking is tagged with that corpus, whose artifact loaded and
      whose table exists. */
  lemma CorpusHitLoaded(dir: map<string, Pickled>, tables: map<string, seq<Doc>>, corpus: string, field: string,
                        vectorType: string, ngramType: string, query: string,
                        sim: (Value, Value, string, nat) -> real, h: Hit)
    requires h in CorpusHits(dir, tables, corpus, field, vectorType, ngramType, query, sim)
    ensures h.corpus == corpus && corpus in tables
    ensures LoadPkl(dir, corpus, field, vectorType, ngramType).Success?
  {
    var r := CorpusHits(dir, tables, corpus, field, vectorType, ngramType, query, sim);
    var i :| 0 <= i < |r| && r[i] == h;
  }

  /** Every ranked hit comes from a searched corpus whose artifact loaded and whose table
      exists. */
  lemma RankedHitsLoaded(dir: map<string, Pickled>, tables: map<string, seq<Doc>>, field: string,
                         vectorType: string, ngramType: string, query: string,
                         sim: (Value, Value, string, nat) -> real, h: Hit)
    requires h in TopN(Candidates(dir, tables, field, vectorType, ngramType, query, sim), Similarity, Keep)
    ensures h.corpus in Searched && h.corpus in tables
    ensures LoadPkl(dir, h.corpus, field, vectorType, ngramType).Success?
  {
    var a := CorpusHits(dir, tables, Searched[0], field, vectorType, ngramType, query, sim);
    var b := CorpusHits(dir, tables, Searched[1], field, vectorType, ngramType, query, sim);
    TopNMember(a + b, Similarity, Keep, h);
    if h in a {
      CorpusHitLoaded(dir, tables, Searched[0], field, vectorType, ngramType, query, sim, h);
    } else {
      assert h in b;
      CorpusHitLoaded(dir, tables, Searched[1], field, vectorType, ngramType, query, sim, h);
    }
  }
}
