/** Turning the collected corpora into vector artifacts (`representation/vectorize.py`): the
    choice of vectorizer, the n-gram tag and file name of each artifact, the payload it
    stores, and the fan-out of one command-line configuration into artifacts. Fitting is not
    computed: an artifact's matrix is the symbolic `Fitted(vectorizer, documents)`, and text
    normalisation is the parameter `normalize`. A run's output is the list of artifacts it
    writes, in order; `Store` replays them onto a directory modelled as a map from file name
    to contents. */
module Vectorize {
  import opened Wrappers
  import opened Strings
  import opened Lists

  /** The exceptions of vectorizing and of loading artifacts back. */
  datatype Error = ValueError | KeyError | FileNotFound(name: string)

  datatype Weighting = TfIdf | Counts

  /** A vectorizer as `build_vectorizer` configures it (the token pattern is the same for all). */
  datatype Vectorizer = Vectorizer(weighting: Weighting, binary: bool, ngramMin: nat, ngramMax: nat)

  /** The representations `build_vectorizer` knows. */
  const RepNames: seq<string> := ["tfidf", "frequency", "binary"]

  /** `build_vectorizer`: tf-idf weights, raw counts, or presence counts; any other name is a
      ValueError. */
  function BuildVectorizer(rep: string, ngrams: (nat, nat)): (r: Result<Vectorizer, Error>)
    ensures r.Success? <==> rep in RepNames
    ensures r.Failure? ==> r.error == ValueError
    ensures r.Success? ==> r.value.ngramMin == ngrams.0 && r.value.ngramMax == ngrams.1
  {
    if rep == "tfidf" then Success(Vectorizer(TfIdf, false, ngrams.0, ngrams.1))
    else if rep == "frequency" then Success(Vectorizer(Counts, false, ngrams.0, ngrams.1))
    else if rep == "binary" then Success(Vectorizer(Counts, true, ngrams.0, ngrams.1))
    else Failure(ValueError)
  }

  /** The representation a vectorizer stands for (tf-idf is never binary here). */
  function RepOf(v: Vectorizer): string
  {
    match v.weighting
    case TfIdf => "tfidf"
    case Counts => if v.binary then "binary" else "frequency"
  }

  /** Each accepted name builds a vectorizer of its own kind, so the three are told apart. */
  lemma BuildVectorizerKinds(rep: string, ngrams: (nat, nat))
    requires rep in RepNames
    ensures BuildVectorizer(rep, ngrams).Success?
    ensures RepOf(BuildVectorizer(rep, ngrams).value) == rep
  {
  }

  /** Building from the name of a vectorizer's kind gives that vectorizer back. */
  lemma BuildVectorizerRoundTrip(v: Vectorizer)
    requires !(v.weighting == TfIdf && v.binary)
    ensures BuildVectorizer(RepOf(v), (v.ngramMin, v.ngramMax)) == Success(v)
  {
  }

  /** `f"n{min}-{max}"`. */
  function NgramTag(ngrams: (nat, nat)): (t: string)
    ensures t != [] && t[0] == 'n'
  {
    "n" + NatToString(ngrams.0) + "-" + NatToString(ngrams.1)
  }

  /** Decimal writing loses nothing. */
  lemma NatToStringInjective(a: nat, b: nat)
    requires NatToString(a) == NatToString(b)
    ensures a == b
  {
    DecimalOfNatToString(a);
    DecimalOfNatToString(b);
  }

  /** Different n-gram ranges get different tags. */
  lemma NgramTagInjective(a: (nat, nat), b: (nat, nat))
    requires NgramTag(a) == NgramTag(b)
    ensures a == b
  {
    var ta := NgramTag(a);
    var tb := NgramTag(b);
    assert ta[1..] == NatToString(a.0) + "-" + NatToString(a.1);
    assert tb[1..] == NatToString(b.0) + "-" + NatToString(b.1);
    SplitFirstUnique(NatToString(a.0), NatToString(a.1), NatToString(b.0), NatToString(b.1), '-');
    NatToStringInjective(a.0, b.0);
    NatToStringInjective(a.1, b.1);
  }

  /** `f"{corpus}_{field.lower()}_{rep}_{ntag}.pkl"`, the name under which an artifact is
      written and looked for. */
  function ArtifactName(corpus: string, field: string, rep: string, tag: string): (name: string)
    ensures EndsWith(name, tag + ".pkl")
  {
    var name := corpus + "_" + Lower(field) + "_" + rep + "_" + tag + ".pkl";
    assert name[|name| - |tag + ".pkl"|..] == tag + ".pkl";
    name
  }

  /** Names with tags of the same length differ when the tags do. */
  lemma NamesDifferByTag(c1: string, f1: string, r1: string, t1: string,
                         c2: string, f2: string, r2: string, t2: string)
    requires |t1| == |t2| && t1 != t2
    ensures ArtifactName(c1, f1, r1, t1) != ArtifactName(c2, f2, r2, t2)
  {
    var n1 := ArtifactName(c1, f1, r1, t1);
    var n2 := ArtifactName(c2, f2, r2, t2);
    var k := |t1| + 4;
    assert n1[|n1| - k..][..|t1|] == (t1 + ".pkl")[..|t1|] == t1;
    assert n2[|n2| - k..][..|t2|] == (t2 + ".pkl")[..|t2|] == t2;
  }

  /** `df[column]` after fitting: not computed, only recorded. */
  datatype Matrix = Fitted(vectorizer: Vectorizer, documents: seq<string>)

  datatype Meta = Meta(corpus: string, column: string, rep: string, ngramMin: nat, ngramMax: nat)

  /** The values a pickled payload holds. */
  datatype Value =
    | VectorizerValue(vectorizer: Vectorizer)
    | MatrixValue(matrix: Matrix)
    | FeatureNames(of: Matrix)
    | DocIds(ids: seq<nat>)
    | MetaValue(meta: Meta)

  /** What a `.pkl` file unpickles to: a dictionary, or anything else. */
  datatype Pickled = Dict(entries: map<string, Value>) | NotDict

  /** The keys `load_pkl` needs before it hands back the vectorizer and the matrix. */
  predicate Loadable(p: Pickled)
  {
    p.Dict? && "vectorizer" in p.entries && "X" in p.entries
  }

  /** The payload records where it came from. */
  predicate HasMeta(p: Pickled, meta: Meta)
  {
    p.Dict? && "meta" in p.entries && p.entries["meta"] == MetaValue(meta)
  }

  /** The dictionary `vectorize_column` pickles. */
  function Payload(vec: Vectorizer, documents: seq<string>, meta: Meta): (p: Pickled)
    ensures Loadable(p)
    ensures p.entries.Keys == {"vectorizer", "X", "feature_names", "doc_ids", "meta"}
    ensures p.entries["vectorizer"] == VectorizerValue(vec)
    ensures p.entries["X"] == MatrixValue(Fitted(vec, documents))
    ensures p.entries["meta"] == MetaValue(meta)
    ensures p.entries["doc_ids"] == DocIds(seq(|documents|, i => i))
  {
    var x := Fitted(vec, documents);
    Dict(map[
      "vectorizer" := VectorizerValue(vec),
      "X" := MatrixValue(x),
      "feature_names" := FeatureNames(x),
      "doc_ids" := DocIds(seq(|documents|, i => i)),
      "meta" := MetaValue(meta)])
  }

  /** One written file. */
  datatype Artifact = Artifact(name: string, payload: Pickled)

  /** `vectorize_column`: fit one column with one representation and one n-gram range. */
  function VectorizeColumn(documents: seq<string>, corpus: string, column: string, rep: string, ngrams: (nat, nat))
    : (r: Result<Artifact, Error>)
    ensures r.Success? <==> rep in RepNames
    ensures r.Failure? ==> r.error == ValueError
    ensures r.Success? ==> r.value.name == ArtifactName(corpus, column, rep, NgramTag(ngrams))
    ensures r.Success? ==> Loadable(r.value.payload)
    ensures r.Success? ==> HasMeta(r.value.payload, Meta(corpus, column, rep, ngrams.0, ngrams.1))
  {
    match BuildVectorizer(rep, ngrams)
    case Failure(e) => Failure(e)
    case Success(vec) =>
      var meta := Meta(corpus, column, rep, ngrams.0, ngrams.1);
      Success(Artifact(ArtifactName(corpus, column, rep, NgramTag(ngrams)), Payload(vec, documents, meta)))
  }

  /** The n-gram ranges of each `--ngrams` choice; any other key is a KeyError. */
  function NgramRanges(kind: string): (r: Option<seq<(nat, nat)>>)
    ensures r.Some? <==> kind in ["unigram", "bigram", "both"]
    ensures r.Some? ==> r.value != []
  {
    if kind == "unigram" then Some([(1, 1)])
    else if kind == "bigram" then Some([(2, 2)])
    else if kind == "both" then Some([(1, 1), (2, 2)])
    else None
  }

  /** `both` vectorizes unigrams and bigrams separately; the combined range (1, 2) is never
      produced. */
  lemma BothIsTwoRanges()
    ensures NgramRanges("both") == Some(NgramRanges("unigram").value + NgramRanges("bigram").value)
    ensures (1, 2) !in NgramRanges("both").value
  {
    assert [(1, 1)] + [(2, 2)] == [(1, 1), (2, 2)];
  }

  /** `[value] if value != all else expansion`. */
  function FanOut(value: string, all: string, expansion: seq<string>): (r: seq<string>)
    ensures r == [value] || (value == all && r == expansion)
  {
    if value == all then expansion else [value]
  }

  function Reps(rep: string): seq<string> { FanOut(rep, "all", RepNames) }
  function Fields(field: string): seq<string> { FanOut(field, "Both", ["Title", "Abstract"]) }
  function Corpora(corpus: string): seq<string> { FanOut(corpus, "both", ["arxiv", "pubmed"]) }

  /** The expansions name only single values: fanning out any of them again changes nothing. */
  lemma FanOutSettles(rep: string, field: string, corpus: string)
    ensures forall x :: x in Reps(rep) ==> Reps(x) == [x]
    ensures forall x :: x in Fields(field) ==> Fields(x) == [x]
    ensures forall x :: x in Corpora(corpus) ==> Corpora(x) == [x]
  {
  }

  /** A corpus table as read from its TSV file: its columns by name. */
  datatype Table = Table(columns: map<string, seq<string>>)

  /** The (corpus, column) pairs the loops reach: corpora whose table exists, and within each
      the requested columns it has, in the requested order. */
  function Pairs(tables: map<string, Table>, corpora: seq<string>, fields: seq<string>): (r: seq<(string, string)>)
    ensures forall i :: 0 <= i < |r| ==> r[i].0 in tables && r[i].1 in tables[r[i].0].columns
    ensures forall i :: 0 <= i < |r| ==> r[i].0 in corpora && r[i].1 in fields
  {
    if corpora == [] then []
    else
      var c := corpora[0];
      var here := if c in tables then ColumnsPresent(tables[c], fields) else [];
      seq(|here|, i requires 0 <= i < |here| => (c, here[i])) + Pairs(tables, corpora[1..], fields)
  }

  /** The requested columns a table has, in order. */
  function ColumnsPresent(t: Table, fields: seq<string>): (r: seq<string>)
    ensures forall i :: 0 <= i < |r| ==> r[i] in t.columns && r[i] in fields
    ensures forall f :: f in fields && f in t.columns ==> f in r
  {
    if fields == [] then []
    else (if fields[0] in t.columns then [fields[0]] else []) + ColumnsPresent(t, fields[1..])
  }

  /** The steps of one (corpus, column) pair: for each representation, for each range, one
      artifact; the range lookup fails first when the n-gram choice is unknown. */
  function PairSteps(documents: seq<string>, corpus: string, column: string, reps: seq<string>,
                     ranges: Option<seq<(nat, nat)>>): seq<Result<Artifact, Error>>
  {
    match ranges
    case None => [Failure(KeyError)]
    case Some(rs) =>
      Flatten(seq(|reps|, i requires 0 <= i < |reps| =>
        seq(|rs|, j requires 0 <= j < |rs| => VectorizeColumn(documents, corpus, column, reps[i], rs[j]))))
  }

  /** Every step a configuration will take, in loop order. */
  function Plan(tables: map<string, Table>, pairs: seq<(string, string)>, reps: seq<string>,
                ranges: Option<seq<(nat, nat)>>, normalize: string -> string): seq<Result<Artifact, Error>>
    requires forall i :: 0 <= i < |pairs| ==> pairs[i].0 in tables && pairs[i].1 in tables[pairs[i].0].columns
  {
    if pairs == [] then []
    else
      var documents := Documents(tables, pairs[0], normalize);
      PairSteps(documents, pairs[0].0, pairs[0].1, reps, ranges) + Plan(tables, pairs[1..], reps, ranges, normalize)
  }

  /** What a run leaves behind: the artifacts written, and the exception that stopped it. */
  datatype Run = Run(written: seq<Artifact>, error: Option<Error>)

  /** Taking the steps in order until the first exception. */
  function RunSteps(steps: seq<Result<Artifact, Error>>): (r: Run)
    ensures |r.written| <= |steps|
    ensures forall i :: 0 <= i < |r.written| ==> steps[i] == Success(r.written[i])
    ensures r.error.None? ==> |r.written| == |steps|
    ensures r.error.Some? ==> |r.written| < |steps| && steps[|r.written|] == Failure(r.error.value)
  {
    if steps == [] then Run([], None)
    else if steps[0].Failure? then Run([], Some(steps[0].error))
    else
      var rest := RunSteps(steps[1..]);
      Run([steps[0].value] + rest.written, rest.error)
  }

  /** `vectorize_corpus`. */
  function VectorizeCorpus(tables: map<string, Table>, corpus: string, field: string, rep: string,
                           ngrams: string, normalize: string -> string): Run
  {
    var pairs := Pairs(tables, Corpora(corpus), Fields(field));
    RunSteps(Plan(tables, pairs, Reps(rep), NgramRanges(ngrams), normalize))
  }

  /** The directory after the artifacts are written, later files replacing earlier ones. */
  function Store(dir: map<string, Pickled>, written: seq<Artifact>): map<string, Pickled>
    decreases |written|
  {
    if written == [] then dir
    else Store(dir[written[0].name := written[0].payload], written[1..])
  }

  /** Artifact `a` is one the configuration asks for: from one of the pairs, one of the
      representations and one of the ranges, and loadable. */
  predicate Made(a: Artifact, pairs: seq<(string, string)>, reps: seq<string>, ranges: seq<(nat, nat)>)
  {
    Loadable(a.payload)
    && exists p, r, g :: 0 <= p < |pairs| && 0 <= r < |reps| && 0 <= g < |ranges|
         && a.name == ArtifactName(pairs[p].0, pairs[p].1, reps[r], NgramTag(ranges[g]))
  }

  /** With known representations, a pair takes |reps| * |ranges| steps, none failing. */
  lemma PairStepsShape(documents: seq<string>, corpus: string, column: string, reps: seq<string>,
                       ranges: seq<(nat, nat)>, pairs: seq<(string, string)>, p: nat)
    requires forall r :: r in reps ==> r in RepNames
    requires p < |pairs| && pairs[p] == (corpus, column)
    ensures |PairSteps(documents, corpus, column, reps, Some(ranges))| == |reps| * |ranges|
    ensures forall k :: 0 <= k < |PairSteps(documents, corpus, column, reps, Some(ranges))| ==>
      PairSteps(documents, corpus, column, reps, Some(ranges))[k].Success?
      && Made(PairSteps(documents, corpus, column, reps, Some(ranges))[k].value, pairs, reps, ranges)
  {
    var rows := seq(|reps|, i requires 0 <= i < |reps| =>
      seq(|ranges|, j requires 0 <= j < |ranges| => VectorizeColumn(documents, corpus, column, reps[i], ranges[j])));
    var steps := PairSteps(documents, corpus, column, reps, Some(ranges));
    assert steps == Flatten(rows);
    FlattenUniform(rows, |ranges|);
    forall k | 0 <= k < |steps|
      ensures steps[k].Success? && Made(steps[k].value, pairs, reps, ranges)
    {
      var i, j := FlattenMember(rows, k);
      assert reps[i] in RepNames;
      assert steps[k] == VectorizeColumn(documents, corpus, column, reps[i], ranges[j]);
    }
  }

  /** Every step succeeds with an artifact the configuration asks for. */
  predicate AllMade(steps: seq<Result<Artifact, Error>>, pairs: seq<(string, string)>, reps: seq<string>, ranges: seq<(nat, nat)>)
  {
    forall k :: 0 <= k < |steps| ==> steps[k].Success? && Made(steps[k].value, pairs, reps, ranges)
  }

  /** The documents of one pair: its column, normalised cell by cell. */
  function Documents(tables: map<string, Table>, pair: (string, string), normalize: string -> string): seq<string>
    requires pair.0 in tables && pair.1 in tables[pair.0].columns
  {
    var cells := tables[pair.0].columns[pair.1];
    seq(|cells|, i requires 0 <= i < |cells| => normalize(cells[i]))
  }

  /** With known representations and ranges, a plan has |reps| * |ranges| steps per pair. */
  lemma {:induction false} PlanLength(tables: map<string, Table>, pairs: seq<(string, string)>, reps: seq<string>,
                                      ranges: seq<(nat, nat)>, normalize: string -> string, m: nat)
    requires forall i :: 0 <= i < |pairs| ==> pairs[i].0 in tables && pairs[i].1 in tables[pairs[i].0].columns
    requires forall r :: r in reps ==> r in RepNames
    requires m == |reps| * |ranges|
    ensures |Plan(tables, pairs, reps, Some(ranges), normalize)| == |pairs| * m
    decreases |pairs|
  {
    if pairs != [] {
      var documents := Documents(tables, pairs[0], normalize);
      var head := PairSteps(documents, pairs[0].0, pairs[0].1, reps, Some(ranges));
      var tail := Plan(tables, pairs[1..], reps, Some(ranges), normalize);
      PairStepsShape(documents, pairs[0].0, pairs[0].1, reps, ranges, pairs, 0);
      PlanLength(tables, pairs[1..], reps, ranges, normalize, m);
      assert Plan(tables, pairs, reps, Some(ranges), normalize) == head + tail;
      MulStep(|pairs|, m);
    }
  }

  lemma MulStep(n: nat, m: nat)
    requires n >= 1
    ensures n * m == m + (n - 1) * m
  {
  }

  /** With known representations and ranges, every planned step succeeds with an artifact the
      configuration asks for. */
  lemma {:induction false} PlanMade(tables: map<string, Table>, pairs: seq<(string, string)>, reps: seq<string>,
                                    ranges: seq<(nat, nat)>, normalize: string -> string, done: seq<(string, string)>)
    requires forall i :: 0 <= i < |pairs| ==> pairs[i].0 in tables && pairs[i].1 in tables[pairs[i].0].columns
    requires forall r :: r in reps ==> r in RepNames
    ensures AllMade(Plan(tables, pairs, reps, Some(ranges), normalize), done + pairs, reps, ranges)
    decreases |pairs|
  {
    if pairs != [] {
      var documents := Documents(tables, pairs[0], normalize);
      var head := PairSteps(documents, pairs[0].0, pairs[0].1, reps, Some(ranges));
      var tail := Plan(tables, pairs[1..], reps, Some(ranges), normalize);
      var all := done + pairs;
      var done' := done + [pairs[0]];
      assert all[|done|] == pairs[0];
      PairStepsShape(documents, pairs[0].0, pairs[0].1, reps, ranges, all, |done|);
      assert all == done' + pairs[1..];
      PlanMade(tables, pairs[1..], reps, ranges, normalize, done');
      assert Plan(tables, pairs, reps, Some(ranges), normalize) == head + tail;
      AllMadeConcat(head, tail, all, reps, ranges);
    }
  }

  lemma AllMadeConcat(a: seq<Result<Artifact, Error>>, b: seq<Result<Artifact, Error>>, pairs: seq<(string, string)>,
                      reps: seq<string>, ranges: seq<(nat, nat)>)
    requires AllMade(a, pairs, reps, ranges) && AllMade(b, pairs, reps, ranges)
    ensures AllMade(a + b, pairs, reps, ranges)
  {
    forall k | 0 <= k < |a + b|
      ensures (a + b)[k].Success? && Made((a + b)[k].value, pairs, reps, ranges)
    {
      if k < |a| {
        assert (a + b)[k] == a[k];
      } else {
        assert (a + b)[k] == b[k - |a|];
      }
    }
  }

  /** Every existing requested column of every existing requested corpus is reached. */
  lemma {:induction false} PairsComplete(tables: map<string, Table>, corpora: seq<string>, fields: seq<string>,
                                         c: string, f: string)
    requires c in corpora && c in tables && f in fields && f in tables[c].columns
    ensures (c, f) in Pairs(tables, corpora, fields)
    decreases |corpora|
  {
    var here := if corpora[0] in tables then ColumnsPresent(tables[corpora[0]], fields) else [];
    var mine := seq(|here|, i requires 0 <= i < |here| => (corpora[0], here[i]));
    assert Pairs(tables, corpora, fields) == mine + Pairs(tables, corpora[1..], fields);
    if corpora[0] == c {
      var i :| 0 <= i < |here| && here[i] == f;
      assert mine[i] == (c, f);
    } else {
      PairsComplete(tables, corpora[1..], fields, c, f);
    }
  }

  /** A configuration of known choices runs without error and writes |reps| * |ranges|
      artifacts for every (corpus, column) pair that exists, each one asked for and loadable. */
  lemma GoodConfiguration(tables: map<string, Table>, corpus: string, field: string, rep: string,
                          ngrams: string, normalize: string -> string)
    requires rep == "all" || rep in RepNames
    requires ngrams in ["unigram", "bigram", "both"]
    ensures var run := VectorizeCorpus(tables, corpus, field, rep, ngrams, normalize);
            var pairs := Pairs(tables, Corpora(corpus), Fields(field));
            var ranges := NgramRanges(ngrams).value;
            run.error.None?
            && |run.written| == |pairs| * (|Reps(rep)| * |ranges|)
            && forall i :: 0 <= i < |run.written| ==> Made(run.written[i], pairs, Reps(rep), ranges)
  {
    var pairs := Pairs(tables, Corpora(corpus), Fields(field));
    var reps := Reps(rep);
    var ranges := NgramRanges(ngrams).value;
    var steps := Plan(tables, pairs, reps, Some(ranges), normalize);
    PlanLength(tables, pairs, reps, ranges, normalize, |reps| * |ranges|);
    PlanMade(tables, pairs, reps, ranges, normalize, []);
    assert [] + pairs == pairs;
    RunOfAllMade(steps, pairs, reps, ranges);
  }

  /** A run whose every step succeeds writes every artifact. */
  lemma RunOfAllMade(steps: seq<Result<Artifact, Error>>, pairs: seq<(string, string)>, reps: seq<string>,
                     ranges: seq<(nat, nat)>)
    requires AllMade(steps, pairs, reps, ranges)
    ensures RunSteps(steps).error.None? && |RunSteps(steps).written| == |steps|
    ensures forall i :: 0 <= i < |steps| ==> Made(RunSteps(steps).written[i], pairs, reps, ranges)
  {
    var r := RunSteps(steps);
    forall i | 0 <= i < |steps| ensures Made(r.written[i], pairs, reps, ranges) {
      assert steps[i] == Success(r.written[i]);
    }
  }

  /** An unknown n-gram choice or representation stops the run at its first (corpus, column)
      pair, before anything is written: a KeyError for the n-grams, else a ValueError. */
  lemma BadConfigurationWritesNothing(tables: map<string, Table>, corpus: string, field: string, rep: string,
                                      ngrams: string, normalize: string -> string)
    requires Pairs(tables, Corpora(corpus), Fields(field)) != []
    requires NgramRanges(ngrams).None? || (rep != "all" && rep !in RepNames)
    ensures VectorizeCorpus(tables, corpus, field, rep, ngrams, normalize).written == []
    ensures VectorizeCorpus(tables, corpus, field, rep, ngrams, normalize).error
            == Some(if NgramRanges(ngrams).None? then KeyError else ValueError)
  {
    var pairs := Pairs(tables, Corpora(corpus), Fields(field));
    var reps := Reps(rep);
    var ranges := NgramRanges(ngrams);
    var documents := Documents(tables, pairs[0], normalize);
    var head := PairSteps(documents, pairs[0].0, pairs[0].1, reps, ranges);
    var steps := Plan(tables, pairs, reps, ranges, normalize);
    assert steps == head + Plan(tables, pairs[1..], reps, ranges, normalize);
    if ranges.Some? {
      var rs := ranges.value;
      assert reps == [rep];
      var row := seq(|rs|, j requires 0 <= j < |rs| => VectorizeColumn(documents, pairs[0].0, pairs[0].1, rep, rs[j]));
      var rows := seq(|reps|, i requires 0 <= i < |reps| =>
        seq(|rs|, j requires 0 <= j < |rs| => VectorizeColumn(documents, pairs[0].0, pairs[0].1, reps[i], rs[j])));
      assert rows == [row];
      assert head == Flatten([row]);
      assert Flatten([row]) == row + Flatten([row][1..]);
      assert head[0] == row[0] == Failure(ValueError);
    }
    assert steps[0] == head[0];
  }

  /** An artifact asked for with ranges whose tags all differ from `tag` (and have its length)
      is not named with `tag`. */
  lemma MadeNotTagged(a: Artifact, pairs: seq<(string, string)>, reps: seq<string>, ranges: seq<(nat, nat)>,
                      c: string, f: string, r: string, tag: string)
    requires Made(a, pairs, reps, ranges)
    requires forall g :: 0 <= g < |ranges| ==> |NgramTag(ranges[g])| == |tag| && NgramTag(ranges[g]) != tag
    ensures a.name != ArtifactName(c, f, r, tag)
  {
    var p, q, g :| 0 <= p < |pairs| && 0 <= q < |reps| && 0 <= g < |ranges|
      && a.name == ArtifactName(pairs[p].0, pairs[p].1, reps[q], NgramTag(ranges[g]));
    NamesDifferByTag(pairs[p].0, pairs[p].1, reps[q], NgramTag(ranges[g]), c, f, r, tag);
  }

  /** The tags of `both` are `n1-1` and `n2-2`. */
  lemma BothTags()
    ensures forall g :: 0 <= g < |NgramRanges("both").value| ==>
      NgramTag(NgramRanges("both").value[g]) in ["n1-1", "n2-2"]
  {
    assert NatToString(1) == "1" && NatToString(2) == "2";
    assert NgramTag((1, 1)) == "n1-1" && NgramTag((2, 2)) == "n2-2";
  }

  /** `--ngrams both` writes `n1-1` and `n2-2` artifacts only: none under any name tagged
      `n1-2`. */
  lemma BothNeverWritesCombined(tables: map<string, Table>, corpus: string, field: string, rep: string,
                                normalize: string -> string, k: nat, c: string, f: string, r: string)
    requires k < |VectorizeCorpus(tables, corpus, field, rep, "both", normalize).written|
    ensures VectorizeCorpus(tables, corpus, field, rep, "both", normalize).written[k].name != ArtifactName(c, f, r, "n1-2")
  {
    var written := VectorizeCorpus(tables, corpus, field, rep, "both", normalize).written;
    var pairs := Pairs(tables, Corpora(corpus), Fields(field));
    WritingMeansKnownRep(tables, corpus, field, rep, "both", normalize);
    GoodConfiguration(tables, corpus, field, rep, "both", normalize);
    BothTags();
    MadeNotTagged(written[k], pairs, Reps(rep), NgramRanges("both").value, c, f, r, "n1-2");
  }

  /** A run that writes anything had a known representation. */
  lemma WritingMeansKnownRep(tables: map<string, Table>, corpus: string, field: string, rep: string,
                             ngrams: string, normalize: string -> string)
    requires NgramRanges(ngrams).Some?
    requires VectorizeCorpus(tables, corpus, field, rep, ngrams, normalize).written != []
    ensures rep == "all" || rep in RepNames
  {
    var pairs := Pairs(tables, Corpora(corpus), Fields(field));
    if pairs != [] && rep != "all" && rep !in RepNames {
      BadConfigurationWritesNothing(tables, corpus, field, rep, ngrams, normalize);
    }
  }

  /** Some artifact was written under `name`. */
  predicate WrittenUnder(written: seq<Artifact>, name: string)
  {
    exists i :: 0 <= i < |written| && written[i].name == name
  }

  /** A file exists after the run exactly when it existed before or was written; a written
      file holds a payload that loads when every written payload does. */
  lemma {:induction false} StoreHolds(dir: map<string, Pickled>, written: seq<Artifact>, name: string)
    ensures name in Store(dir, written) <==> name in dir || WrittenUnder(written, name)
    ensures !WrittenUnder(written, name) && name in dir ==> Store(dir, written)[name] == dir[name]
    ensures (forall i :: 0 <= i < |written| ==> Loadable(written[i].payload)) && WrittenUnder(written, name)
            ==> Loadable(Store(dir, written)[name])
    decreases |written|
  {
    if written != [] {
      var dir' := dir[written[0].name := written[0].payload];
      var rest := written[1..];
      StoreHolds(dir', rest, name);
      assert Store(dir, written) == Store(dir', rest);
      if WrittenUnder(rest, name) {
        var i :| 0 <= i < |rest| && rest[i].name == name;
        assert written[i + 1].name == name;
      }
      if written[0].name != name && WrittenUnder(written, name) {
        var i :| 0 <= i < |written| && written[i].name == name;
        assert rest[i - 1].name == name;
      }
    }
  }
}
