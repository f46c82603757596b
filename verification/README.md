# Article corpus pipeline: a Dafny model

This project models the core of a small pipeline for scientific articles. The pipeline has five stages:

- **Collection.** Two scrapers build TSV corpora.
  - The arXiv scraper pages through the Atom API for the sections cs.CL, cs.CV and cs.CR.
  - The PubMed scraper pages through the "trending" MEDLINE listing.
  - Both share an HTTP client that retries, a date normaliser (`ddmmyyyy`), an author joiner and a TSV writer.
- **Vectorisation.** Each corpus column is turned into tf-idf, frequency or binary bag-of-n-grams artifacts. Each artifact is stored under a name built from the corpus, column, representation and n-gram range.
- **Retrieval.** The title or abstract is read from a `.bib` or `.ris` query file. The matching artifact of each corpus is loaded, and the ten most similar articles are kept in a report.
- **The desktop interface.** It merges the section and journal columns into one label, pages through tables ten rows at a time, and parses similarity reports back into rows.

Every operation is a pure function or a method over immutable values:

- The network, the file system and the clock are parameters.
  - A page request is a function from offsets to pages.
  - An HTTP outcome is a function from the attempt number to a response or a failure.
  - The vectors directory is a map from file names to pickled payloads.
- The learning and language parts are parameters too: the fitted matrix, the cosine similarity and NLTK normalisation.

Modules follow the source files:

| module | models |
|---|---|
| `Strings`, `Lists`, `Wrappers` | Python string helpers (`strip`, `lower`, `split`, `splitlines`, `join`), sequence helpers, `Option`/`Result` |
| `StableSort` | `sorted(..., reverse=True)[:n]` as a stable merge sort |
| `Dates`, `DateProofs` | `ddmmyyyy`, with `strptime` templates read as token lists |
| `IoUtils` | `normalize_authors`, `write_tsv` and the CSV writer's quoting |
| `Arxiv` | `_strip_version`, the id extraction of `_parse_atom`, `collect_arxiv` |
| `PubMed` | `clean_pubmed_abstract`, `_split_records`, `_extract_year_from_text`, `_parse_medline_record`, `collect_pubmed_html`, `save_pubmed_corpus` |
| `Http` | `HttpClient.get` and the cookie set-up of `HttpClient.__init__` |
| `Vectorize` | `build_vectorizer`, `vectorize_column`, `vectorize_corpus` |
| `Retrieve` | `read_ris`, `ngram_code`, `load_pkl`, `retrieve_similar_articles` |
| `Gui` | `merge_section_journal`, `PaginatedTable`, the fallback of `parse_similarities_text` |

Some behaviour of the code is stated as the code has it, because the model follows the code.

- **The de-duplication key.** The arXiv collector de-duplicates on the identifier *with* its version (`arxiv.py:93-96`). The synthesised DOI uses the identifier *without* it (`arxiv.py:106-109`). So two versions of one paper both give rows, and both rows carry the same DOI (`Arxiv.VersionsAreNotDuplicates`).
- **A blank abstract.** An entry with a blank abstract is dropped. Its identifier is still marked as seen (`Arxiv.BlankAbstractShadows`).
- **`--ngrams both`.** Vectorising with `both` writes the ranges `n1-1` and `n2-2` (`vectorize.py:60-64`). Retrieval with `both` looks for `n1-2` (`retrieve_similar_articles.py:41-42`). So retrieval never finds what vectorising with `both` wrote (`Vectorize.BothNeverWritesCombined`, `Retrieve.BothLoadsNothingNew`).
- **`_strip_version`.** It drops a single trailing `v<digits>`, so it is not idempotent on arbitrary text (`Arxiv.StripVersionTwice`). It is idempotent on identifiers of the modern shape (`Arxiv.StripVersionIdempotentOnIds`).

## Model

| member | source | states |
|---|---|---|
| IoUtils.KeptAuthors | scraper/io_utils.py:60-61 | kept names are non-blank and stripped; none are kept exactly when every name is blank |
| IoUtils.KeptAuthorsConcat | scraper/io_utils.py:61 | filtering a concatenation filters each part and concatenates, so the input order is kept |
| IoUtils.KeptAuthorsOne | scraper/io_utils.py:61 | a single name is kept, stripped, exactly when it is not blank |
| IoUtils.NormalizeAuthors | scraper/io_utils.py:60-62 | the author string is empty exactly when every name is blank |
| IoUtils.AuthorsSplitBack | scraper/io_utils.py:60-62 | when no name holds a comma, splitting the joined string at commas and stripping gives back the kept names |
| IoUtils.CleanCell | scraper/io_utils.py:18-22 | a missing cell becomes empty; a cell has no line breaks and no surrounding blanks, and clean text is left as it is |
| IoUtils.NoBreaksUnchanged | scraper/io_utils.py:22 | text without `\n` or `\r` is unchanged by the replacements |
| IoUtils.BlanksStayBlank | scraper/io_utils.py:22 | replacing line breaks by blanks keeps blank text blank and other text non-blank |
| IoUtils.CleanCellIdempotent | scraper/io_utils.py:22 | cleaning a cleaned cell changes nothing |
| IoUtils.PadRow | scraper/io_utils.py:23 | a short row is padded with empty cells up to the header's width, and a longer row is kept whole |
| IoUtils.TsvRecords | scraper/io_utils.py:15-24 | the header comes first, then record i+1 is row i cleaned and padded to the header width |
| IoUtils.FormatRecord | scraper/io_utils.py:14 | every record is written as one line that ends in `\r\n` |
| IoUtils.ReadWrittenFields | scraper/io_utils.py:14-24 | reading back a line the writer formatted gives the exact fields |
| IoUtils.ReadWrittenRecord | scraper/io_utils.py:14-24 | a written record, without its line end, reads back as that record |
| IoUtils.CellRows | scraper/arxiv.py:111 | each row's cells are in the file's column order |
| Dates.Parse | scraper/io_utils.py:46 | a template that parses gives a date `datetime` accepts |
| Dates.FirstParse | scraper/io_utils.py:44-51 | the templates are tried in order: none parses exactly when the result is none, and otherwise the first one that parses decides |
| Dates.DateText | scraper/io_utils.py:49 | a valid date is written as `DD/MM/YYYY` |
| Dates.Preprocess | scraper/io_utils.py:30 | no comma, `T` or `Z` is left after the preprocessing |
| Dates.BareYear | scraper/io_utils.py:56-58 | the four-digit fallback gives `DD/MM/YYYY` or empty |
| Dates.Normalise | scraper/io_utils.py:31-58 | the output is empty or `DD/MM/YYYY` |
| Dates.DdMmYyyy | scraper/io_utils.py:26-58 | empty input gives empty output; any output is empty or `DD/MM/YYYY` |
| DateProofs.CanonicalIsFixedPoint | scraper/io_utils.py:26-58 | a date already in `DD/MM/YYYY` comes back unchanged |
| DateProofs.UnpaddedComesBackPadded | scraper/io_utils.py:52-54 | un-padded `D/M/YYYY` comes back as the zero-padded `DD/MM/YYYY` of the same date |
| DateProofs.UnpaddedParses | scraper/io_utils.py:53 | `%d/%m/%Y` reads the un-padded text as the date it names |
| DateProofs.TemplatesRejectDateText | scraper/io_utils.py:31-43 | no template of the list reads a `DD/MM/YYYY` text, so the slash template decides |
| DateProofs.TemplatesRejectUnpadded | scraper/io_utils.py:31-43 | no template of the list reads a `D/M/YYYY` text either |
| DateProofs.SlashTextParses | scraper/io_utils.py:53-54 | the slash template reads back the text the output format writes |
| DateProofs.TimestampNormalises | scraper/io_utils.py:30-49 | an ISO timestamp `YYYY-MM-DDTHH:MM:SSZ` becomes its `DD/MM/YYYY` date, dropping the time of day |
| DateProofs.DateOnlyRejectsTimestamp | scraper/io_utils.py:32 | `%Y-%m-%d` fails on a timestamp, because unconverted text remains |
| DateProofs.SecondsReadTimestamp | scraper/io_utils.py:33 | `%Y-%m-%d %H:%M:%S` reads the preprocessed timestamp to its date |
| DateProofs.PreprocessTimestamp | scraper/io_utils.py:30 | the `T` separator becomes a blank and the trailing `Z` goes |
| DateProofs.OthersRejectFourDigits | scraper/io_utils.py:31-42 | on four digits, every template before `%Y` fails |
| DateProofs.FourDigitsNormalise | scraper/io_utils.py:42-57 | any four digits `YYYY` become `01/01/YYYY`, through `%Y` or, for year 0000, through the isdigit fallback |
| DateProofs.NormaliseYearZero | scraper/io_utils.py:56-57 | `0000` fails every template and reaches the isdigit fallback |
| DateProofs.BareYearNormalises | scraper/io_utils.py:26-57 | `ddmmyyyy` of four digits is `01/01/` followed by those digits |
| DateProofs.ListFailsWhenEachFails | scraper/io_utils.py:44-51 | when every template fails, the loop falls through |
| DateProofs.SecondTemplateWins | scraper/io_utils.py:44-49 | the first template that parses decides, and the ones after it are not tried |
| DateProofs.NormaliseAfterPreprocess | scraper/io_utils.py:27-30 | non-empty input is normalised after the preprocessing |
| Arxiv.StripVersion | scraper/arxiv.py:20-21 | the result is a prefix of the stripped id, and what is removed is one `v<digits>` suffix |
| Arxiv.StripVersionOfVersioned | scraper/arxiv.py:21 | `base + "v" + digits` loses exactly its version, whatever the base |
| Arxiv.StripVersionTwice | scraper/arxiv.py:21 | only the last of two version suffixes goes, so a second call changes the result |
| Arxiv.StripVersionIdempotentOnIds | scraper/arxiv.py:20-34 | on an id of the shape `dddd.dddd(d)(vN)` a second removal changes nothing |
| Arxiv.UnversionedIsFixed | scraper/arxiv.py:21 | an unversioned modern id is left alone |
| Arxiv.LastSegment | scraper/arxiv.py:34 | the text after the last `/`: it holds no `/` and is a suffix that starts right after a `/` or at the start |
| Arxiv.ExtractId | scraper/arxiv.py:32-34 | the id is the leftmost suffix of the `dddd.dddd(d)(vN)` shape, or else the last path segment |
| Arxiv.IdFromUrl | scraper/arxiv.py:32-34 | an id at the end of an abs URL is found whatever comes before it |
| Arxiv.LongName | scraper/arxiv.py:14-18 | known sections get their long name and other sections keep their code |
| Arxiv.DoiOf | scraper/arxiv.py:106-109 | the entry's stripped DOI if it has one, else `10.48550/arXiv.` plus the de-versioned id; never empty |
| Arxiv.PageAdvances | scraper/arxiv.py:84-113 | a page with entries lies below the source's bound, and the next request starts further on |
| Arxiv.AcceptEntry | scraper/arxiv.py:89-111 | one entry: a seen id is skipped, the id is recorded, and the row is kept when the abstract is not blank |
| Arxiv.AcceptPage | scraper/arxiv.py:89-111 | the entry loop of one page keeps the accepted rows of the listing so far, capped at the quota |
| Arxiv.CollectSection | scraper/arxiv.py:80-118 | one section's rows are the first `quota` accepted rows of its listing, or the request error that ended it |
| Arxiv.CollectArxiv | scraper/arxiv.py:75-120 | cs.CL, cs.CV and cs.CR in order, each at most `quota` rows; a failed request fails the whole collection |
| Arxiv.SectionWhenQuotaMet | scraper/arxiv.py:84-91 | once the quota is met, the rows so far are the section's rows |
| Arxiv.SectionWhenExhausted | scraper/arxiv.py:86-118 | when the listing runs out below the quota, every accepted row is kept, or the failure is reported |
| Arxiv.SectionRowsShape | scraper/arxiv.py:98-111 | every row is the row of a listed entry with a non-blank abstract; it has a DOI, and the section's long name as its venue |
| Arxiv.ConcatenatedFailure | scraper/arxiv.py:78-118 | a failed section fails every longer run of sections |
| Arxiv.ThreeSections | scraper/arxiv.py:78-118 | the collection is the three sections' rows, one after the other |
| Arxiv.BlankAbstractShadows | scraper/arxiv.py:93-100 | an entry with a blank abstract still shadows a later entry with the same id |
| Arxiv.AcceptedPair | scraper/arxiv.py:93-111 | two entries with different ids and abstracts both give rows, in order |
| Arxiv.VersionedDoi | scraper/arxiv.py:106-109 | the DOI made for `base + "v" + d` is made from `base` |
| Arxiv.VersionsAreNotDuplicates | scraper/arxiv.py:93-109 | two versions of one paper both give rows, with the same synthesised DOI |
| PubMed.CleanAbstract | scraper/pubmed.py:13-22 | the cleaned abstract is stripped and no longer than the text |
| PubMed.CleanWithoutColon | scraper/pubmed.py:13-22 | without a colon no label is removed, and cleaning is just stripping |
| PubMed.LeadingLabelRemoved | scraper/pubmed.py:13-22 | a leading `WORD: ` label goes and the rest of a colon-free abstract stays |
| PubMed.LabelRemovedAnywhere | scraper/pubmed.py:13-22 | a label of one to six words, after colon-free text ending in blanks or a non-word character, is removed with its colon and blank wherever it stands, and the scan resumes after it |
| PubMed.CleanRemovesLabelAnywhere | scraper/pubmed.py:13-22 | cleaning colon-free text with one such label anywhere in it gives the stripped text without the label |
| PubMed.CleanRemovesTwoLabels | scraper/pubmed.py:13-22 | two such labels in one text are both removed |
| PubMed.GroupLines | scraper/pubmed.py:24-35 | the groups flatten back to the lines; every group is non-empty and only a group's first line may be a `PMID- ` line |
| PubMed.GroupingIsUnique | scraper/pubmed.py:24-35 | any grouping with those properties is the one computed, so the grouping is determined by the lines |
| PubMed.SplitRecords | scraper/pubmed.py:24-36 | one record per group of lines |
| PubMed.FirstYear | scraper/pubmed.py:39 | the leftmost `(19\|20)\d{2}` at or after a position |
| PubMed.ExtractYear | scraper/pubmed.py:38-42 | empty exactly when no year occurs; otherwise `01/01/` and the leftmost year |
| PubMed.LeadingYear | scraper/pubmed.py:39-41 | a text that opens with a year yields that year, whatever follows |
| PubMed.YearAfterPrefix | scraper/pubmed.py:39 | text before the first year is skipped |
| PubMed.ScanLineGathers | scraper/pubmed.py:47-56 | one line adds to a field exactly what the line-by-line definition says |
| PubMed.ScanGathers | scraper/pubmed.py:45-56 | the scan gathers for each field the values of its tagged lines, plus the untagged lines after a TI or AB line |
| PubMed.CurrentIsLastTag | scraper/pubmed.py:50-51 | the current field is the field of the last tagged line, if that tag is a field |
| PubMed.ContinuationLine | scraper/pubmed.py:55-56 | an untagged line after a title line continues the title with the line, right-stripped |
| PubMed.PickDoi | scraper/pubmed.py:65-70 | empty exactly when no value holds a DOI; otherwise it starts `10.` and has a `/` |
| PubMed.PickDoiFirstHolder | scraper/pubmed.py:66-69 | the DOI is that of the first value holding one: its leftmost match, with trailing `).;]` removed |
| PubMed.FirstMatchIsLeftmost | scraper/pubmed.py:67 | the match taken is the leftmost one in the value |
| PubMed.PickDoiSkips | scraper/pubmed.py:66-68 | a value without a DOI is passed over |
| PubMed.PickDoiFirstWins | scraper/pubmed.py:68-69 | once a value holds a DOI, later values do not matter |
| PubMed.FirstFound | scraper/pubmed.py:74-80 | the first non-empty candidate, or empty when all are empty |
| PubMed.ChooseDate | scraper/pubmed.py:74-80 | the date is empty or `DD/MM/YYYY`; it is empty exactly when no source gives a date |
| PubMed.ChooseDateTriesInOrder | scraper/pubmed.py:74-80 | the sources are tried in the order DP, DOI year, journal year, title year, abstract year |
| PubMed.ParseMedline | scraper/pubmed.py:44-89 | title, abstract and journal are stripped; authors are non-blank; the date is empty or `DD/MM/YYYY`; a DOI starts with `10.` and has a `/` |
| PubMed.ParsedFromScan | scraper/pubmed.py:58-89 | each field of the record is read off the values the scan gathered |
| PubMed.LidBeforeAid | scraper/pubmed.py:72 | the DOI is picked from the LID lines' values, falling back to the AID lines' values only when those give none |
| PubMed.FieldsFromLines | scraper/pubmed.py:58-63 | title, abstract, authors, journal and date come from the lines that tag them |
| PubMed.UsableRows | scraper/pubmed.py:108-124 | a record gives a row only with an abstract, a date and a DOI |
| PubMed.UsableRowsComplete | scraper/pubmed.py:110-124 | every row has a DOI, an abstract and a `DD/MM/YYYY` date in the layout DOI, title, authors, abstract, journal, date |
| PubMed.ParsedDatesWellFormed | scraper/pubmed.py:74-80 | the parser's dates are empty or `DD/MM/YYYY` |
| PubMed.PageRowsComplete | scraper/pubmed.py:107-124 | every row a page's blocks give is complete |
| PubMed.ExpectedComplete | scraper/pubmed.py:94-132 | the collected rows are complete whenever each page's rows are |
| PubMed.ResultPages | scraper/pubmed.py:94-105 | pages are read until the first one without results |
| PubMed.CollectPubMed | scraper/pubmed.py:91-132 | the rows are the first `required` usable rows of the pages before the first empty or failed one; each is complete |
| PubMed.CollectPages | scraper/pubmed.py:94-132 | the paging loop gives the same answer for any reader of a page's rows |
| PubMed.ExpectedWhenQuotaMet | scraper/pubmed.py:125-132 | once the quota is met, the answer is the first `required` rows gathered |
| PubMed.ExpectedWhenExhausted | scraper/pubmed.py:104-132 | when the pages run out below the quota, the answer is every row, or the failure that stopped it |
| PubMed.FetchStops | scraper/pubmed.py:94-105 | a page is read exactly while the pages before it all had results |
| PubMed.RowsPrefix | scraper/pubmed.py:124 | rows only accumulate: the rows of fewer pages are a prefix of the rows of more |
| PubMed.SavedRow | scraper/pubmed.py:134-136 | a saved complete row has one cell per header column, the DOI first and the date unchanged |
| PubMed.SavedCells | scraper/pubmed.py:134-136 | the TSV cells of a complete row in header order |
| PubMed.DateCellIsClean | scraper/io_utils.py:22 | a `DD/MM/YYYY` date passes the TSV cleaning unchanged |
| Http.Settle | scraper/http.py:37-40 | the last request raises exactly on a transport failure, or an error status with the check on |
| Http.Attempts | scraper/http.py:28-36 | every guarded try before the deciding one raised, and the wait after try i is `sleep * (i + 1)` |
| Http.GetCall | scraper/http.py:26-40 | at most four requests; every request before the last raised; an exception escapes only from the fourth |
| Http.Get | scraper/http.py:26-40 | the loop form satisfies the same policy |
| Http.FirstSuccessDecides | scraper/http.py:28-33 | the first request that does not raise is returned, and nothing after it is sent |
| Http.StatusWithoutCheckIsReturned | scraper/http.py:31-33 | without `raise_for_status` an error status is returned on the first try |
| Http.AllFailing | scraper/http.py:26-40 | when every request raises, four are sent after waits `sleep`, `2*sleep` and `3*sleep`, and the fourth exception escapes |
| Http.CookieOf | scraper/http.py:20-22 | a part sets a cookie exactly when it holds `=`; it is split at the first `=` after stripping |
| Http.SetPartAt | scraper/http.py:20-23 | one part sets only its own name |
| Http.JarHasNamed | scraper/http.py:17-24 | a name is in the jar exactly when some part sets it |
| Http.LastPartWins | scraper/http.py:20-23 | the value in the jar is the one of the last part that sets the name |
| Http.Cookies | scraper/http.py:17-18 | no cookies when the variable is unset or empty |
| Http.CookieOfRender | scraper/http.py:22 | a well-formed `name=value` reads back as itself |
| Http.JarOfRendered | scraper/http.py:20-23 | reading the parts of rendered cookies sets them in order |
| Http.CookiesRoundTrip | scraper/http.py:17-24 | the variable written from well-formed cookies gives them back, a later duplicate winning |
| Http.RenderedSplits | scraper/http.py:20 | the rendered variable splits at `;` back into its parts |
| Vectorize.BuildVectorizer | representation/vectorize.py:11-21 | only `tfidf`, `frequency` and `binary` are accepted, with the given n-gram range; any other name is a ValueError |
| Vectorize.BuildVectorizerKinds | representation/vectorize.py:14-19 | each accepted name builds a vectorizer of its own kind |
| Vectorize.BuildVectorizerRoundTrip | representation/vectorize.py:14-19 | building from a vectorizer's kind name gives that vectorizer back |
| Vectorize.NgramTag | representation/vectorize.py:27 | the tag starts with `n` |
| Vectorize.NgramTagInjective | representation/vectorize.py:27 | different n-gram ranges get different tags |
| Vectorize.ArtifactName | representation/vectorize.py:33 | the file name ends with the tag and `.pkl` |
| Vectorize.NamesDifferByTag | representation/vectorize.py:33 | names whose tags differ, at equal length, differ |
| Vectorize.Payload | representation/vectorize.py:36-48 | the payload has exactly the keys vectorizer, X, feature_names, doc_ids and meta, and it can be loaded |
| Vectorize.VectorizeColumn | representation/vectorize.py:26-51 | an artifact named after corpus, column, representation and range, holding its metadata; an unknown representation is a ValueError |
| Vectorize.NgramRanges | representation/vectorize.py:60-89 | only `unigram`, `bigram` and `both` have ranges; any other key is a KeyError |
| Vectorize.BothIsTwoRanges | representation/vectorize.py:60-64 | `both` is the unigram and bigram ranges, and never the combined (1, 2) |
| Vectorize.FanOut | representation/vectorize.py:66-68 | the value alone, or the expansion when the value is the catch-all |
| Vectorize.FanOutSettles | representation/vectorize.py:66-68 | fanning out an expanded value again changes nothing |
| Vectorize.Pairs | representation/vectorize.py:70-83 | every pair reached is a requested corpus whose table exists and a requested column that the table has |
| Vectorize.PairsComplete | representation/vectorize.py:70-83 | every existing requested column of every existing requested corpus is reached |
| Vectorize.ColumnsPresent | representation/vectorize.py:80-83 | exactly the requested columns the table has |
| Vectorize.RunSteps | representation/vectorize.py:70-91 | the steps run in order until the first exception, which stops the run |
| Vectorize.PairStepsShape | representation/vectorize.py:88-91 | with known representations a pair takes reps × ranges steps, none failing |
| Vectorize.PlanLength | representation/vectorize.py:70-91 | a plan has reps × ranges steps per pair |
| Vectorize.PlanMade | representation/vectorize.py:70-91 | every planned step writes an artifact the configuration asks for |
| Vectorize.GoodConfiguration | representation/vectorize.py:59-91 | known choices raise no KeyError or ValueError from the configuration, and the run writes pairs × reps × ranges artifacts, each one asked for |
| Vectorize.RunOfAllMade | representation/vectorize.py:88-91 | a run whose every step succeeds writes every artifact |
| Vectorize.BadConfigurationWritesNothing | representation/vectorize.py:21-89 | an unknown n-gram choice (KeyError) or representation (ValueError) stops the run at its first pair, before anything is written |
| Vectorize.BothNeverWritesCombined | representation/vectorize.py:27-64 | `--ngrams both` never writes a file tagged `n1-2` |
| Vectorize.WritingMeansKnownRep | representation/vectorize.py:11-66 | a run that writes anything had a known representation |
| Vectorize.StoreHolds | representation/vectorize.py:50-51 | a file exists after the run exactly when it existed before or was written; untouched files keep their payload; written files can be loaded |
| Retrieve.ReadRisFields | similarities/retrieve_similar_articles.py:22-30 | the two markers never start the same line, so each field follows its own lines |
| Retrieve.LastMarkedWins | similarities/retrieve_similar_articles.py:25-29 | a marker's text is that of the last line carrying it |
| Retrieve.UnmarkedIsEmpty | similarities/retrieve_similar_articles.py:23 | without a line carrying the marker, its text is empty |
| Retrieve.ReadRisLastWins | similarities/retrieve_similar_articles.py:22-30 | title and abstract are each taken from the last `TI  -` or `AB  -` line, or are empty when there is none |
| Retrieve.NgramCode | similarities/retrieve_similar_articles.py:36-44 | only `unigram`, `bigram` and `both` have a code; any other choice is a ValueError |
| Retrieve.NgramCodeMatchesTag | similarities/retrieve_similar_articles.py:36-40 | for `unigram` and `bigram` the code is the tag of the one range that vectorising writes |
| Retrieve.BothCodeMatchesNoTag | similarities/retrieve_similar_articles.py:41-42 | the code for `both` is the tag of no range that vectorising writes |
| Retrieve.LoadPkl | similarities/retrieve_similar_articles.py:47-63 | a bad n-gram choice is a ValueError; a missing file is FileNotFound; a payload without vectorizer and X is a ValueError; otherwise the stored pair is returned |
| Retrieve.LoadsWhatVectorizingWrote | similarities/retrieve_similar_articles.py:47-63 | after vectorising a corpus column with `unigram` or `bigram`, retrieval with the same choices loads it |
| Retrieve.SinglePair | representation/vectorize.py:66-83 | one existing corpus and column make one pair |
| Retrieve.BothLoadsNothingNew | similarities/retrieve_similar_articles.py:41-63 | whatever vectorising with `both` writes, loading with `both` is unaffected by it |
| Retrieve.Scored | similarities/retrieve_similar_articles.py:101-111 | one hit per corpus row, with its title, DOI, date and similarity |
| Retrieve.ScoredRows | similarities/retrieve_similar_articles.py:100-111 | one hit per table row, carrying the corpus and that row's similarity to the query |
| Retrieve.CorpusHits | similarities/retrieve_similar_articles.py:85-112 | none unless the artifact loads and the table exists; otherwise exactly min(rows, ten) hits, best first, taken from the scored rows (a sub-multiset of them) |
| Retrieve.CorpusHitsKeepTheBest | similarities/retrieve_similar_articles.py:103-111 | no scored row that is left out scores above a hit that is kept |
| Retrieve.KeptFromCorpus | similarities/retrieve_similar_articles.py:103-107 | hits taken from one corpus's hits belong to that corpus |
| Retrieve.CorpusHitLoaded | similarities/retrieve_similar_articles.py:86-96 | a hit of one corpus means its artifact loaded and its table exists |
| Retrieve.TsvRows | similarities/retrieve_similar_articles.py:134-145 | one report row per hit in order, holding the title, the choices, the similarity, the corpus, the DOI and the date |
| Retrieve.RetrieveSimilar | similarities/retrieve_similar_articles.py:69-148 | a ValueError when the query file is neither `.bib` nor `.ris`; nothing when the chosen field is empty; otherwise exactly min(candidates, ten) hits best first, taken from the candidates of both corpora, and the report rows |
| Retrieve.MergeIsStableTop | similarities/retrieve_similar_articles.py:114 | the merge is the stable descending sort cut to ten; equal similarities keep their order; nothing left out scores above anything kept |
| Retrieve.RankedIsStableTop | similarities/retrieve_similar_articles.py:85-114 | the ranked hits are the stable descending sort of all candidates cut to ten, and no candidate left out scores above a kept hit |
| Retrieve.TopOfRanked | similarities/retrieve_similar_articles.py:114 | hits already ranked, at most ten of them, pass the merge unchanged |
| Retrieve.FailingCorpusSkipped | similarities/retrieve_similar_articles.py:86-96 | a corpus whose artifact fails to load or whose table is missing is skipped, and the other corpus's hits are the result |
| Retrieve.RankedHitsLoaded | similarities/retrieve_similar_articles.py:85-114 | every ranked hit comes from a searched corpus whose artifact loaded and whose table exists |
| StableSort.SortDesc | similarities/retrieve_similar_articles.py:114 | a permutation with non-increasing scores |
| StableSort.SortDescStable | similarities/retrieve_similar_articles.py:114 | among equal scores the input order survives |
| StableSort.TopN | similarities/retrieve_similar_articles.py:114 | at most n elements, taken from the input, best first |
| StableSort.TopNKeepsTheBest | similarities/retrieve_similar_articles.py:114 | nothing left out scores above anything kept |
| StableSort.SortSortedIsIdentity | similarities/retrieve_similar_articles.py:114 | sorting a list that is already ordered changes nothing |
| Gui.Names | interface/gui_main.py:19 | the headers of the columns, in order |
| Gui.Lookup | interface/gui_main.py:25-26 | a column is found exactly when its header is present |
| Gui.LastColumn | interface/gui_main.py:17-23 | the last column whose lower-cased header is the wanted one; none exactly when no header matches |
| Gui.CleanCell | interface/gui_main.py:28-35 | a cell that is exactly `nan` becomes empty; any other cell becomes the slice of itself left when the blanks around it are dropped, which is empty exactly when the cell is blank |
| Gui.LabelCells | interface/gui_main.py:25-35 | the cleaned cells of the matching column, or all empty when there is none |
| Gui.LabelJoinsPresentParts | interface/gui_main.py:36-43 | the label is the non-empty parts joined by ` • ` |
| Gui.LabelEmptyIff | interface/gui_main.py:36-43 | a label is empty exactly when section and journal both are |
| Gui.SetColumnNames | interface/gui_main.py:44 | assigning a column keeps the headers, appending the name when it is new |
| Gui.SetColumnLookup | interface/gui_main.py:44 | the assigned column holds the new cells and every other column reads as before |
| Gui.MergeSectionJournal | interface/gui_main.py:16-45 | a `Section` column of labels, one per row; other columns unchanged; the height is kept |
| Gui.MergeKeepsWellFormed | interface/gui_main.py:44-45 | the merged frame still has distinct headers and equal column heights |
| Gui.MergedLabel | interface/gui_main.py:16-45 | each label joins the row's present parts, with `nan` and a missing column counting as absent |
| Gui.NewPager | interface/gui_main.py:167-172 | a new table has no data and starts on the first page |
| Gui.LoadData | interface/gui_main.py:192-195 | loading replaces the data and returns to the first page, a valid state |
| Gui.NextPage | interface/gui_main.py:208-211 | moves forward by at most one page and keeps the table valid |
| Gui.PrevPage | interface/gui_main.py:213-216 | moves back by at most one page, never below 0 |
| Gui.FirstPage | interface/gui_main.py:218-220 | always the first page |
| Gui.LastPage | interface/gui_main.py:222-225 | with data, the page holding the last row; page 0 for empty data; no change before a load |
| Gui.Refresh | interface/gui_main.py:197-206 | the message exactly when no data or empty data is loaded; otherwise the rows of the page that exist, min(size, rows after the page start) of them, row k being data[page*size+k] |
| Gui.NeverAnEmptyPage | interface/gui_main.py:197-211 | a valid table with data never shows an empty page |
| Gui.NextMovesBeforeLastPage | interface/gui_main.py:208-225 | `next_page` moves exactly when the page is before the one `last_page` picks |
| Gui.PrevUndoesNext | interface/gui_main.py:208-216 | `prev_page` undoes a `next_page` that moved |
| Gui.NextUndoesPrev | interface/gui_main.py:208-216 | `next_page` undoes a `prev_page` that moved |
| Gui.EveryRowHasAPage | interface/gui_main.py:197-225 | row i is shown on page i / size at position i % size, and that page is not past the last |
| Gui.ClassifyMentions | interface/gui_main.py:138-154 | tfidf wins over frequency over binary, unigram or `n1-1` over bigram or `n2-2`; title and abstract together give `Title vs Abstract`, one alone gives its own name; each label names a keyword of the line and is empty exactly when none of its keywords occurs |
| Gui.ClassifyIgnoresCase | interface/gui_main.py:138 | classification is case-insensitive |
| Gui.RepNamesClassifyAsThemselves | interface/gui_main.py:139-144 | the representation names that vectorising writes classify as themselves |
| Gui.NgramCodesClassify | interface/gui_main.py:145-148 | the codes that retrieval looks for classify as their n-gram kinds, except `n1-2` for `both`, which classifies as no kind |
| Gui.LineRow | interface/gui_main.py:109-156 | a line gives a row exactly when it is not skipped and carries a similarity; the row has that similarity, its document and its labels |
| Gui.Collect | interface/gui_main.py:109-156 | every collected row is read from one of the lines |
| Gui.CollectComplete | interface/gui_main.py:109-156 | every line that gives a row is represented |
| Gui.ParseFallback | interface/gui_main.py:158-161 | exactly min(candidate rows, ten) rows, best first, drawn from the rows of the lines |
| Gui.FallbackRowsFromLines | interface/gui_main.py:109-161 | every row shown comes from a non-skipped line carrying its similarity |
| Gui.FallbackSeesEveryLine | interface/gui_main.py:109-156 | every non-skipped line with a similarity gives a candidate row |
| Gui.FallbackKeepsTheBest | interface/gui_main.py:160-161 | no candidate left out scores above a row that is shown |

## Left out

- PubMed.CleanAbstract: Python's `\b` is Unicode-aware and the model's word characters are ASCII. Text with a non-ASCII letter right before a capital label differs: `éAB: x` loses its label in the model, but Python keeps it.
- PubMed.PickDoi: `\d` and `\S` are read as ASCII digits and the Python whitespace set; non-ASCII digits in a DOI are not matched.
- PubMed.ExtractYear: the year digits are ASCII only; Python's `\d` also matches other Unicode digits.
- Arxiv.ExtractId: the `\d` of the identifier regex is ASCII only.
- Arxiv.StripVersion: the `\d+` of the version suffix is ASCII only.
- Dates.DdMmYyyy: `strptime` directives read ASCII digits. Month names are the English names compared with ASCII case folding, so locale month names are not modelled. The two gaps below (years under 1000, non-ASCII digits) are not modelled either, so the promise that any output is empty or `DD/MM/YYYY` does not hold for those inputs in the source.
- Dates.DateText: years are always written with four digits. glibc's `strftime("%Y")` writes a year below 1000 without padding, so `0999` gives `01/01/999` in the source (CPython issue bpo-13305). The model does not promise that output.
- Dates.BareYear: the model accepts only four ASCII digits. `str.isdigit()` (`io_utils.py:56`) is also true for other Unicode digits, so `²⁰²⁴` gives `01/01/²⁰²⁴` in the source while `BareYear` gives the empty string.
- Gui.Classify: `lower()` is ASCII case folding.
- Arxiv.CollectArxiv: the page source is a finite function. Requests beyond a bound, and requests for zero entries, return no entries. With `page_size` 0 the source would re-request offset 0 forever (`arxiv.py:113`), which is not modelled. The Atom XML parsing of `_parse_atom` is a parameter: the model receives entries, not XML.
- Arxiv.CollectArxiv: quotas are natural numbers. A negative quota collects nothing in the source, as 0 does.
- PubMed.CollectPubMed: the HTML page and its `pre.search-results-chunk` blocks are given as texts. BeautifulSoup is not modelled. Quotas are natural numbers.
- Http.Get: real sleeping, logging and timeouts are left out. The waits are returned as a list of durations.
- Http.Cookies: the cookie jar is a map from name to value. Domains and paths are not modelled.
- Retrieve.RetrieveSimilar: `read_bibtex` is the parameter `readBib`, the file reading of `read_ris` is the parameter `risLines`, and NLTK normalisation is `normalize`. The transform and cosine similarity are the parameter `sim`.
- Retrieve.RetrieveSimilar: the printed messages and the `.txt` report are left out.
- Retrieve.RetrieveSimilar: `os.path.join` paths are left out. The vectors directory is a map from file names. Vectorising writes to `vectors` while loading reads `data\vectors`, and this is not modelled.
- Retrieve.RetrieveSimilar: an `IndexError` when the corpus table is shorter than the matrix is not modelled. One hit is scored per table row.
- Retrieve.CorpusHits: numpy's `argsort()` is not stable, and the source reverses its result. The model keeps the ten best with a stable sort. So which rows tied at the tenth place are kept, and their order, may differ.
- Retrieve.TsvRows: the similarity is written unrounded. The source rounds it to three decimals.
- Vectorize.VectorizeColumn: the fitted matrix and the feature names are opaque values. Tokenisation, `fillna` and sklearn are not modelled, and neither is the printed summary. The `ValueError` ("empty vocabulary") that `fit_transform` (`vectorize.py:29`) raises when no token is found is not modelled: a fit always succeeds.
- Vectorize.GoodConfiguration: the empty-vocabulary `ValueError` of `fit_transform` (`vectorize.py:29`) is left out, and `vectorize_corpus` (`vectorize.py:70-91`) does not catch it. It occurs for a table with no rows, a column that is blank in every row, or bigrams over documents of one word each. For such data the source run stops at that step, while the model promises every artifact.
- Vectorize.VectorizeCorpus: reading the corpus CSV is modelled as a map of tables. `normalize_text_nltk` is the parameter `normalize`.
- Gui.ParseFallback: the TSV fast path of `parse_similarities_text` (`gui_main.py:83-105`) uses pandas and is not modelled. The regexes `sim_pat` and `doc_pat`, together with `float`, are the parameters `simOf` and `docOf`.
- Gui.ParseFallback: pandas `sort_values` is not stable, while the model's sort is. So which rows tied at the tenth place are kept, and their order, may differ.
- Gui.LastPage: a page size of 0 is not modelled (`//` by zero raises in the source). Every table uses 10.
- Gui.WellFormed: data frames are assumed to have distinct headers, as `read_csv` makes them.
- `read_any_csv`, `run_command`, `ensure_parent_dir`, `MainApp` and the tkinter widgets (`gui_main.py:47-80`, `228-639`) are interface plumbing with no logic of their own to model.
- `save_arxiv_corpus` (`arxiv.py:122-124`) is `write_tsv` with the arXiv header, which `IoUtils.TsvRecords` covers.
- `ensure_parent` (`io_utils.py:6-9`) creates directories and is not modelled.
