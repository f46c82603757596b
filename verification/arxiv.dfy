/** The arXiv collector: identifiers taken from the Atom `id` text, version
    suffixes removed for DOI synthesis, and per-section paging through the API
    listing with de-duplication on the versioned identifier and a quota. */
module Arxiv {
  import opened Strings
  import opened Wrappers
  import opened Dates
  import opened IoUtils
  import opened Lists

  // ----- _strip_version -----

  /** Start of the maximal run of ASCII digits at the end of `t`. */
  function TrailingDigits(t: string): (k: nat)
    ensures k <= |t|
    ensures IsAllDigits(t[k..])
    ensures k == 0 || !IsDigit(t[k - 1])
  {
    if t == [] || !IsDigit(t[|t| - 1]) then |t|
    else
      var k := TrailingDigits(t[..|t| - 1]);
      assert t[k..] == t[..|t| - 1][k..] + [t[|t| - 1]];
      k
  }

  /** Drop one trailing `v<digits>`, if there is one. */
  function DropVersion(t: string): (r: string)
    ensures r <= t
    ensures r != t ==> VersionSuffix(t[|r|..]) && t[|r|..] != []
  {
    var k := TrailingDigits(t);
    if 0 < k < |t| && t[k - 1] == 'v' then t[..k - 1] else t
  }

  /** `_strip_version`: strip, then drop one trailing `v<digits>`. */
  function StripVersion(id: string): (r: string)
    ensures r <= Strip(id)
    ensures r != Strip(id) ==> VersionSuffix(Strip(id)[|r|..]) && Strip(id)[|r|..] != []
  {
    DropVersion(Strip(id))
  }

  /** The digits after a non-digit are the trailing run; they go with a `v` before them. */
  lemma DropVersionOf(a: string, digits: string)
    requires a != [] && !IsDigit(a[|a| - 1])
    requires digits != [] && IsAllDigits(digits)
    ensures DropVersion(a + digits) == if a[|a| - 1] == 'v' then a[..|a| - 1] else a + digits
  {
    TrailingDigitsOf(a, digits);
    assert (a + digits)[|a| - 1] == a[|a| - 1];
    assert (a + digits)[..|a| - 1] == a[..|a| - 1];
  }

  /** The version suffix goes, whatever the base. */
  lemma StripVersionOfVersioned(base: string, digits: string)
    requires base == [] || !IsSpace(base[0])
    requires digits != [] && IsAllDigits(digits)
    ensures StripVersion(base + "v" + digits) == base
  {
    var a := base + "v";
    var t := a + digits;
    assert t[|t| - 1] == digits[|digits| - 1];
    assert IsStripped(t) by { if base == [] { assert t[0] == 'v'; } else { assert t[0] == base[0]; } }
    DropVersionOf(a, digits);
    assert a[..|a| - 1] == base;
  }

  lemma TrailingDigitsOf(a: string, digits: string)
    requires a != [] && !IsDigit(a[|a| - 1])
    requires digits != [] && IsAllDigits(digits)
    ensures TrailingDigits(a + digits) == |a|
  {
    var t := a + digits;
    var k := TrailingDigits(t);
    assert t[|a| - 1] == a[|a| - 1];
  }

  /** Removing a version from an identifier that carries two removes only the last one, so the
      function is not idempotent in general: `1v1v2` becomes `1v1`, and that becomes `1`. */
  lemma StripVersionTwice(base: string, d1: string, d2: string)
    requires base == [] || !IsSpace(base[0])
    requires d1 != [] && IsAllDigits(d1) && d2 != [] && IsAllDigits(d2)
    ensures StripVersion(base + "v" + d1 + "v" + d2) == base + "v" + d1
    ensures StripVersion(base + "v" + d1) == base
  {
    var once := base + "v" + d1;
    assert once[0] == if base == [] then 'v' else base[0];
    StripVersionOfVersioned(once, d2);
    StripVersionOfVersioned(base, d1);
  }

  // ----- id extraction in _parse_atom -----

  /** `v\d+` or nothing. */
  predicate VersionSuffix(r: string)
  {
    r == [] || (|r| >= 2 && r[0] == 'v' && IsAllDigits(r[1..]))
  }

  /** The whole of `s` matches `\d{4}\.\d{4,5}(?:v\d+)?`. */
  predicate IdShape(s: string)
  {
    |s| >= 9 && IsAllDigits(s[..4]) && s[4] == '.'
    && var e := DigitRunEnd(s, 5); (e == 9 || e == 10) && VersionSuffix(s[e..])
  }

  /** The leftmost `i` at or after `from` where `t[i..]` has the identifier shape. */
  function ShapedSuffix(t: string, from: nat): (r: Option<nat>)
    requires from <= |t|
    ensures r.Some? ==> from <= r.value <= |t| && IdShape(t[r.value..])
    ensures forall i :: from <= i <= |t| && (r.None? || i < r.value) ==> !IdShape(t[i..])
    decreases |t| - from
  {
    if IdShape(t[from..]) then Some(from)
    else if from == |t| then None
    else ShapedSuffix(t, from + 1)
  }

  /** What follows the last `/` (all of `t` without one): `t.rsplit("/", 1)[-1]`. */
  function LastSegment(t: string): (r: string)
    ensures '/' !in r
    ensures |r| <= |t| && r == t[|t| - |r|..]
    ensures |r| == |t| || t[|t| - |r| - 1] == '/'
  {
    if t == [] then []
    else if t[|t| - 1] == '/' then []
    else
      var r := LastSegment(t[..|t| - 1]);
      assert t[..|t| - 1][|t| - 1 - |r|..] + [t[|t| - 1]] == t[|t| - 1 - |r|..];
      r + [t[|t| - 1]]
  }

  /** The identifier of an entry, from the text of its `id` element. */
  function ExtractId(idText: string): (r: string)
    ensures var t := Strip(idText);
            match ShapedSuffix(t, 0)
            case Some(i) => r == t[i..] && IdShape(r)
            case None => '/' !in r && |r| <= |t| && r == t[|t| - |r|..] && (|r| == |t| || t[|t| - |r| - 1] == '/')
  {
    var t := Strip(idText);
    match ShapedSuffix(t, 0)
    case Some(i) => t[i..]
    case None => LastSegment(t)
  }

  /** An identifier of the modern shape has its `.` at index 4 and nowhere else. */
  lemma ShapeHasOneDot(s: string, k: nat)
    requires IdShape(s) && k < |s| && s[k] == '.'
    ensures k == 4
  {
    var e := DigitRunEnd(s, 5);
  }

  /** An identifier of the modern shape without a version is left alone. */
  lemma UnversionedIsFixed(b: string)
    requires |b| >= 6 && IsDigit(b[0]) && b[4] == '.' && IsAllDigits(b[5..])
    ensures StripVersion(b) == b
  {
    assert IsStripped(b) by { assert b[5..][|b| - 6] == b[|b| - 1]; }
    assert b[..5] + b[5..] == b;
    DropVersionOf(b[..5], b[5..]);
  }

  /** On an identifier of the modern shape the version goes at the end of the number. */
  lemma StripVersionOfShape(s: string)
    requires IdShape(s)
    ensures StripVersion(s) == s[..DigitRunEnd(s, 5)]
  {
    var e := DigitRunEnd(s, 5);
    assert IsDigit(s[0]) by { assert s[..4][0] == s[0]; }
    if e == |s| {
      assert s[..e] == s;
      UnversionedIsFixed(s);
    } else {
      var digits := s[e + 1..];
      assert s[e] == 'v' && IsAllDigits(digits) by { assert s[e..][0] == s[e] && s[e..][1..] == digits; }
      assert s == s[..e] + "v" + digits;
      StripVersionOfVersioned(s[..e], digits);
    }
  }

  /** On an identifier of the modern shape a second removal of the version changes nothing. */
  lemma StripVersionIdempotentOnIds(s: string)
    requires IdShape(s)
    ensures StripVersion(StripVersion(s)) == StripVersion(s)
  {
    var e := DigitRunEnd(s, 5);
    var b := s[..e];
    StripVersionOfShape(s);
    assert |b| >= 6 && b[4] == '.';
    assert IsDigit(b[0]) by { assert s[..4][0] == s[0]; }
    assert IsAllDigits(b[5..]) by {
      forall j | 0 <= j < |b[5..]| ensures IsDigit(b[5..][j]) { assert b[5..][j] == s[5 + j]; }
    }
    UnversionedIsFixed(b);
  }

  /** An identifier at the end of the URL is found whatever comes before it. */
  lemma IdFromUrl(prefix: string, id: string)
    requires IdShape(id)
    requires prefix == [] || !IsSpace(prefix[0])
    ensures ExtractId(prefix + id) == id
  {
    var t := prefix + id;
    IdShapeEndsInDigit(id);
    assert IsStripped(t) by {
      assert t[|t| - 1] == id[|id| - 1];
      if prefix == [] { assert t[0] == id[0]; assert IsDigit(id[0]) by { assert id[..4][0] == id[0]; } }
    }
    assert t[|prefix|..] == id;
    forall i | 0 <= i < |prefix| ensures !IdShape(t[i..]) {
      if IdShape(t[i..]) {
        var u := t[i..];
        assert u[|prefix| - i + 4] == id[4];
        ShapeHasOneDot(u, |prefix| - i + 4);
      }
    }
    assert ShapedSuffix(t, 0) == Some(|prefix|);
  }

  lemma IdShapeEndsInDigit(s: string)
    requires IdShape(s)
    ensures IsDigit(s[|s| - 1])
  {
    var e := DigitRunEnd(s, 5);
    if e < |s| {
      assert s[e..][1..][|s| - e - 2] == s[|s| - 1];
    }
  }

  // ----- collect_arxiv -----

  /** One entry of a parsed feed page. */
  datatype Entry = Entry(id: string, title: string, authors: seq<string>, summary: string,
                         published: string, doi: string)

  /** What one API request gives: the parsed entries, or the error `raise_for_status` raised. */
  datatype FeedPage = Entries(entries: seq<Entry>) | FeedFailed

  const Sections: seq<string> := ["cs.CL", "cs.CV", "cs.CR"]

  /** `SECTION_LONG.get(sec, sec)`. */
  function LongName(sec: string): (r: string)
    ensures sec in Sections ==> r != sec
    ensures sec !in Sections ==> r == sec
  {
    if sec == "cs.CL" then "Computation and Language"
    else if sec == "cs.CV" then "Computer Vision and Pattern Recognition"
    else if sec == "cs.CR" then "Cryptography and Security"
    else sec
  }

  /** The DOI of a row: the entry's own, else one made from its identifier without the version. */
  function DoiOf(e: Entry): (r: string)
    ensures r != []
    ensures Strip(e.doi) != [] ==> r == Strip(e.doi)
    ensures Strip(e.doi) == [] ==> r == "10.48550/arXiv." + StripVersion(e.id)
    ensures AllSpace(e.doi) ==> r == "10.48550/arXiv." + StripVersion(e.id)
  {
    var d := Strip(e.doi);
    if d != [] then d else "10.48550/arXiv." + StripVersion(e.id)
  }

  /** The row of an accepted entry: DOI, title, authors, abstract, section, date. */
  function RowOf(e: Entry, longName: string): Row
  {
    Row(DoiOf(e), Strip(e.title), NormalizeAuthors(e.authors), Strip(e.summary), longName,
        DdMmYyyy(Strip(e.published)))
  }

  /** The row builder of one section. */
  function SectionRowOf(sec: string): Entry -> Row
  {
    e => RowOf(e, LongName(sec))
  }

  /** The feed, as `fetch(section, start, max_results)`. It is finite: requests from offset
      `bound` on, and requests for no entries, come back empty. */
  ghost predicate FiniteSource(fetch: (string, nat, nat) -> FeedPage, bound: nat)
  {
    forall sec: string, start: nat, n: nat :: start >= bound || n == 0 ==> fetch(sec, start, n) == Entries([])
  }

  /** A page with entries lies before `bound`, and the next offset is further on. */
  lemma PageAdvances(fetch: (string, nat, nat) -> FeedPage, bound: nat, sec: string, pageSize: nat, start: nat)
    requires FiniteSource(fetch, bound)
    requires fetch(sec, start, pageSize).Entries? && fetch(sec, start, pageSize).entries != []
    ensures start < bound && pageSize > 0
  {
  }

  /** The entries of the pages at `start`, `start + pageSize`, … up to the first empty or failed page. */
  ghost function Listing(fetch: (string, nat, nat) -> FeedPage, bound: nat, sec: string, pageSize: nat,
                         start: nat): seq<Entry>
    requires FiniteSource(fetch, bound)
    decreases if start < bound then bound - start else 0
  {
    var page := fetch(sec, start, pageSize);
    if page.FeedFailed? || page.entries == [] then []
    else
      PageAdvances(fetch, bound, sec, pageSize, start);
      page.entries + Listing(fetch, bound, sec, pageSize, start + pageSize)
  }

  /** Whether the page that ends the listing from `start` is a failed request. */
  ghost predicate ListingFails(fetch: (string, nat, nat) -> FeedPage, bound: nat, sec: string, pageSize: nat,
                               start: nat)
    requires FiniteSource(fetch, bound)
    decreases if start < bound then bound - start else 0
  {
    var page := fetch(sec, start, pageSize);
    if page.FeedFailed? then true
    else if page.entries == [] then false
    else
      PageAdvances(fetch, bound, sec, pageSize, start);
      ListingFails(fetch, bound, sec, pageSize, start + pageSize)
  }

  /** The identifiers of a list of entries. */
  function Ids(s: seq<Entry>): set<string>
  {
    if s == [] then {} else Ids(s[..|s| - 1]) + {s[|s| - 1].id}
  }

  /** The rows of a listing: an entry gives a row when no earlier entry has its identifier and
      its abstract is not blank. An entry with a blank abstract still shadows later duplicates. */
  function Accepted(s: seq<Entry>, rowOf: Entry -> Row): seq<Row>
  {
    if s == [] then []
    else
      var init, e := s[..|s| - 1], s[|s| - 1];
      Accepted(init, rowOf) + (if e.id !in Ids(init) && !AllSpace(e.summary) then [rowOf(e)] else [])
  }

  lemma AcceptedSnoc(s: seq<Entry>, e: Entry, rowOf: Entry -> Row)
    ensures Ids(s + [e]) == Ids(s) + {e.id}
    ensures Accepted(s + [e], rowOf)
         == Accepted(s, rowOf) + (if e.id !in Ids(s) && !AllSpace(e.summary) then [rowOf(e)] else [])
  {
    assert (s + [e])[..|s|] == s;
  }

  /** More entries only add rows at the end. */
  lemma {:induction false} AcceptedPrefix(s: seq<Entry>, t: seq<Entry>, rowOf: Entry -> Row)
    requires s <= t
    ensures Accepted(s, rowOf) <= Accepted(t, rowOf)
    decreases |t|
  {
    if |s| < |t| {
      var init := t[..|t| - 1];
      assert s <= init;
      AcceptedPrefix(s, init, rowOf);
    } else {
      assert s == t;
    }
  }

  /** What one section of `collect_arxiv` gives: the first `quota` accepted rows of the listing; it
      fails only when a request fails before the quota is met. */
  ghost function SectionResult(fetch: (string, nat, nat) -> FeedPage, bound: nat, sec: string, quota: nat,
                               pageSize: nat, rowOf: Entry -> Row): (r: Result<seq<Row>, string>)
    requires FiniteSource(fetch, bound)
    ensures r.Success? ==> |r.value| <= quota && r.value <= Accepted(Listing(fetch, bound, sec, pageSize, 0), rowOf)
  {
    var rows := Accepted(Listing(fetch, bound, sec, pageSize, 0), rowOf);
    if |rows| >= quota then Success(rows[..quota])
    else if ListingFails(fetch, bound, sec, pageSize, 0) then Failure("request failed")
    else Success(rows)
  }

  /** One entry of the inner loop: skip a seen identifier, record it, keep the entry when its
      abstract is not blank. */
  method AcceptEntry(e: Entry, ghost cur: seq<Entry>, rows: seq<Row>, seen: set<string>, rowOf: Entry -> Row)
    returns (rows': seq<Row>, seen': set<string>)
    requires rows == Accepted(cur, rowOf) && seen == Ids(cur)
    ensures rows' == Accepted(cur + [e], rowOf) && seen' == Ids(cur + [e])
  {
    AcceptedSnoc(cur, e, rowOf);
    rows', seen' := rows, seen;
    if e.id !in seen {
      seen' := seen + {e.id};
      if Strip(e.summary) != [] {
        rows' := rows + [rowOf(e)];
      }
    }
  }

  /** The inner loop over the entries of one page, `rest` being those still to read after `cur`:
      it stops at the quota. */
  method AcceptPage(rest: seq<Entry>, ghost cur: seq<Entry>, rows: seq<Row>, seen: set<string>,
                    quota: nat, rowOf: Entry -> Row)
    returns (rows': seq<Row>, seen': set<string>)
    requires |rows| <= quota && rows == Accepted(cur, rowOf) && seen == Ids(cur)
    ensures rows' == Take(Accepted(cur + rest, rowOf), quota)
    ensures |rows'| < quota ==> seen' == Ids(cur + rest)
    decreases |rest|
  {
    if rest == [] {
      assert cur + rest == cur;
      return rows, seen;
    }
    if |rows| >= quota {
      QuotaReached(cur, rest, quota, rowOf);
      return rows, seen;
    }
    var r1, s1 := AcceptEntry(rest[0], cur, rows, seen, rowOf);
    MoveFirst(cur, rest);
    rows', seen' := AcceptPage(rest[1..], cur + [rest[0]], r1, s1, quota, rowOf);
  }

  /** Once `quota` rows are in, later entries change nothing. */
  lemma QuotaReached(cur: seq<Entry>, rest: seq<Entry>, quota: nat, rowOf: Entry -> Row)
    requires |Accepted(cur, rowOf)| == quota
    ensures Take(Accepted(cur + rest, rowOf), quota) == Accepted(cur, rowOf)
  {
    assert cur <= cur + rest;
    AcceptedPrefix(cur, cur + rest, rowOf);
    TakeOfExtension(Accepted(cur, rowOf), Accepted(cur + rest, rowOf), quota);
  }

  /** The paging loop of one section of `collect_arxiv`, for any row builder. */
  method CollectSection(fetch: (string, nat, nat) -> FeedPage, ghost bound: nat, sec: string,
                        quota: nat, pageSize: nat, rowOf: Entry -> Row)
    returns (r: Result<seq<Row>, string>)
    requires FiniteSource(fetch, bound)
    ensures r == SectionResult(fetch, bound, sec, quota, pageSize, rowOf)
    ensures r.Success? ==> |r.value| <= quota
  {
    assert [] + Listing(fetch, bound, sec, pageSize, 0) == Listing(fetch, bound, sec, pageSize, 0);
    assert Remaining(fetch, bound, sec, pageSize, 0, []);
    r := CollectFrom(fetch, bound, sec, quota, pageSize, rowOf, 0, [], [], {});
  }

  /** The pages before offset `start` gave the entries `done`, and the listing goes on from `start`. */
  ghost predicate Remaining(fetch: (string, nat, nat) -> FeedPage, bound: nat, sec: string, pageSize: nat,
                            start: nat, done: seq<Entry>)
    requires FiniteSource(fetch, bound)
  {
    done + Listing(fetch, bound, sec, pageSize, start) == Listing(fetch, bound, sec, pageSize, 0)
    && ListingFails(fetch, bound, sec, pageSize, start) == ListingFails(fetch, bound, sec, pageSize, 0)
  }

  /** The paging loop from offset `start` on, after the entries `done` of the earlier pages have
      given `rows` and the identifiers `seen`. */
  method CollectFrom(fetch: (string, nat, nat) -> FeedPage, ghost bound: nat, sec: string,
                     quota: nat, pageSize: nat, rowOf: Entry -> Row,
                     start: nat, ghost done: seq<Entry>, rows: seq<Row>, seen: set<string>)
    returns (r: Result<seq<Row>, string>)
    requires FiniteSource(fetch, bound)
    requires Remaining(fetch, bound, sec, pageSize, start, done)
    requires rows == Take(Accepted(done, rowOf), quota)
    requires |rows| < quota ==> seen == Ids(done)
    ensures r == SectionResult(fetch, bound, sec, quota, pageSize, rowOf)
    ensures r.Success? ==> |r.value| <= quota
    decreases if start < bound then bound - start else 0, 1
  {
    if |rows| >= quota {
      SectionWhenQuotaMet(fetch, bound, sec, quota, pageSize, rowOf, done);
      return Success(rows);
    }
    var page := fetch(sec, start, pageSize);
    if page.FeedFailed? || page.entries == [] {
      ListingAt(fetch, bound, sec, pageSize, start);
      assert done + [] == done;
      SectionWhenExhausted(fetch, bound, sec, quota, pageSize, rowOf, rows);
      if page.FeedFailed? {
        return Failure("request failed");
      }
      return Success(rows);
    }
    r := CollectPage(fetch, bound, sec, quota, pageSize, rowOf, start, done, rows, seen, page.entries);
  }

  /** One page with entries in the paging loop: accept its entries, then go on at the next offset. */
  method CollectPage(fetch: (string, nat, nat) -> FeedPage, ghost bound: nat, sec: string,
                     quota: nat, pageSize: nat, rowOf: Entry -> Row,
                     start: nat, ghost done: seq<Entry>, rows: seq<Row>, seen: set<string>, entries: seq<Entry>)
    returns (r: Result<seq<Row>, string>)
    requires FiniteSource(fetch, bound)
    requires fetch(sec, start, pageSize) == Entries(entries) && entries != []
    requires Remaining(fetch, bound, sec, pageSize, start, done)
    requires rows == Take(Accepted(done, rowOf), quota) && |rows| < quota && seen == Ids(done)
    ensures r == SectionResult(fetch, bound, sec, quota, pageSize, rowOf)
    ensures r.Success? ==> |r.value| <= quota
    decreases if start < bound then bound - start else 0, 0
  {
    var start' := start + pageSize;
    ghost var done' := done + entries;
    NextPage(fetch, bound, sec, pageSize, start, done, entries, start', done');
    var rows', seen' := AcceptPage(entries, done, rows, seen, quota, rowOf);
    r := CollectFrom(fetch, bound, sec, quota, pageSize, rowOf, start', done', rows', seen');
  }

  /** One page of the listing: a failed or empty page ends it, a page with entries is followed
      by the listing from the next offset. */
  lemma ListingAt(fetch: (string, nat, nat) -> FeedPage, bound: nat, sec: string, pageSize: nat, start: nat)
    requires FiniteSource(fetch, bound)
    ensures var page := fetch(sec, start, pageSize);
            if page.FeedFailed? || page.entries == [] then
              Listing(fetch, bound, sec, pageSize, start) == []
              && ListingFails(fetch, bound, sec, pageSize, start) == page.FeedFailed?
            else
              start < bound && pageSize > 0
              && Listing(fetch, bound, sec, pageSize, start)
                 == page.entries + Listing(fetch, bound, sec, pageSize, start + pageSize)
              && ListingFails(fetch, bound, sec, pageSize, start)
                 == ListingFails(fetch, bound, sec, pageSize, start + pageSize)
  {
    var page := fetch(sec, start, pageSize);
    if page.Entries? && page.entries != [] {
      PageAdvances(fetch, bound, sec, pageSize, start);
    }
  }

  /** The listing still to come after a page with entries. */
  lemma NextPage(fetch: (string, nat, nat) -> FeedPage, bound: nat, sec: string, pageSize: nat, start: nat,
                 done: seq<Entry>, entries: seq<Entry>, start': nat, done': seq<Entry>)
    requires FiniteSource(fetch, bound)
    requires fetch(sec, start, pageSize) == Entries(entries) && entries != []
    requires Remaining(fetch, bound, sec, pageSize, start, done)
    requires start' == start + pageSize && done' == done + entries
    ensures start < start' && start < bound
    ensures Remaining(fetch, bound, sec, pageSize, start', done')
  {
    var later := Listing(fetch, bound, sec, pageSize, start');
    ListingAt(fetch, bound, sec, pageSize, start);
    assert done + entries + later == done + (entries + later);
  }

  /** Once the quota is met, the rows gathered so far are the section's rows. */
  lemma SectionWhenQuotaMet(fetch: (string, nat, nat) -> FeedPage, bound: nat, sec: string, quota: nat,
                            pageSize: nat, rowOf: Entry -> Row, done: seq<Entry>)
    requires FiniteSource(fetch, bound)
    requires done <= Listing(fetch, bound, sec, pageSize, 0) && |Accepted(done, rowOf)| >= quota
    ensures SectionResult(fetch, bound, sec, quota, pageSize, rowOf) == Success(Take(Accepted(done, rowOf), quota))
  {
    var whole := Listing(fetch, bound, sec, pageSize, 0);
    AcceptedPrefix(done, whole, rowOf);
    var a, b := Accepted(done, rowOf), Accepted(whole, rowOf);
    assert a[..quota] == b[..quota];
  }

  /** When the listing runs out below the quota, the section gives every row, or fails when the
      listing ended with a failed request. */
  lemma SectionWhenExhausted(fetch: (string, nat, nat) -> FeedPage, bound: nat, sec: string, quota: nat,
                             pageSize: nat, rowOf: Entry -> Row, rows: seq<Row>)
    requires FiniteSource(fetch, bound)
    requires rows == Take(Accepted(Listing(fetch, bound, sec, pageSize, 0), rowOf), quota) && |rows| < quota
    ensures SectionResult(fetch, bound, sec, quota, pageSize, rowOf)
         == if ListingFails(fetch, bound, sec, pageSize, 0) then Failure("request failed") else Success(rows)
  {
  }

  /** The rows of several sections in order; a failure anywhere fails the whole. */
  function Concatenated(rs: seq<Result<seq<Row>, string>>): Result<seq<Row>, string>
  {
    if rs == [] then Success([])
    else
      var before := Concatenated(rs[..|rs| - 1]);
      var here := rs[|rs| - 1];
      if before.Success? && here.Success? then Success(before.value + here.value) else Failure("request failed")
  }

  /** What each section gives, in the order of `Sections`, with the row builder `builder(sec)`
      for section `sec`. */
  ghost function SectionResults(fetch: (string, nat, nat) -> FeedPage, bound: nat, quota: nat, pageSize: nat,
                                builder: string -> Entry -> Row): (rs: seq<Result<seq<Row>, string>>)
    requires FiniteSource(fetch, bound)
    ensures |rs| == |Sections|
  {
    seq(|Sections|, k requires 0 <= k < |Sections| =>
      SectionResult(fetch, bound, Sections[k], quota, pageSize, builder(Sections[k])))
  }

  /** `collect_arxiv`: cs.CL, cs.CV and cs.CR in that order, each with at most `quota` rows; a
      failed request ends the whole collection. */
  method CollectArxiv(fetch: (string, nat, nat) -> FeedPage, ghost bound: nat, quota: nat, pageSize: nat)
    returns (r: Result<seq<Row>, string>)
    requires FiniteSource(fetch, bound)
    ensures var cl := SectionResult(fetch, bound, "cs.CL", quota, pageSize, SectionRowOf("cs.CL"));
            var cv := SectionResult(fetch, bound, "cs.CV", quota, pageSize, SectionRowOf("cs.CV"));
            var cr := SectionResult(fetch, bound, "cs.CR", quota, pageSize, SectionRowOf("cs.CR"));
            (r.Success? <==> cl.Success? && cv.Success? && cr.Success?)
            && (r.Success? ==> r.value == cl.value + cv.value + cr.value)
  {
    r := CollectSections(fetch, bound, quota, pageSize, SectionRowOf);
    ThreeSections(fetch, bound, quota, pageSize, SectionRowOf);
  }

  /** The loop over `Sections`: each section's rows after those of the sections before it. */
  method CollectSections(fetch: (string, nat, nat) -> FeedPage, ghost bound: nat, quota: nat, pageSize: nat,
                         builder: string -> Entry -> Row)
    returns (r: Result<seq<Row>, string>)
    requires FiniteSource(fetch, bound)
    ensures r == Concatenated(SectionResults(fetch, bound, quota, pageSize, builder))
  {
    ghost var results := SectionResults(fetch, bound, quota, pageSize, builder);
    var all: seq<Row> := [];
    var k := 0;
    while k < |Sections|
      invariant k <= |Sections|
      invariant Concatenated(results[..k]) == Success(all)
    {
      var sec := Sections[k];
      var rows := CollectSection(fetch, bound, sec, quota, pageSize, builder(sec));
      assert rows == results[k];
      assert results[..k + 1][..k] == results[..k];
      if rows.Failure? {
        ConcatenatedFailure(results, k + 1);
        return Failure("request failed");
      }
      all := all + rows.value;
      k := k + 1;
    }
    assert results[..k] == results;
    r := Success(all);
  }

  /** A failed section fails every longer run of sections. */
  lemma {:induction false} ConcatenatedFailure(rs: seq<Result<seq<Row>, string>>, k: nat)
    requires k <= |rs| && Concatenated(rs[..k]).Failure?
    ensures Concatenated(rs).Failure?
    decreases |rs| - k
  {
    if k < |rs| {
      assert rs[..k + 1][..k] == rs[..k];
      ConcatenatedFailure(rs, k + 1);
    } else {
      assert rs[..k] == rs;
    }
  }

  /** Three sections succeed together, and their rows follow one another. */
  lemma ConcatenatedThree(a: Result<seq<Row>, string>, b: Result<seq<Row>, string>, c: Result<seq<Row>, string>)
    ensures var all := Concatenated([a, b, c]);
            (all.Success? <==> a.Success? && b.Success? && c.Success?)
            && (all.Success? ==> all.value == a.value + b.value + c.value)
  {
    assert [a, b, c][..2] == [a, b] && [a, b][..1] == [a] && [a][..0] == [];
    assert Concatenated([a][..0]) == Success([]);
    var one := Concatenated([a]);
    assert one == if a.Success? then Success([] + a.value) else Failure("request failed");
    var two := Concatenated([a, b]);
    assert two == if one.Success? && b.Success? then Success(one.value + b.value) else Failure("request failed");
    if a.Success? {
      assert [] + a.value == a.value;
    }
  }

  /** The per-section results, by name. */
  lemma ThreeSections(fetch: (string, nat, nat) -> FeedPage, bound: nat, quota: nat, pageSize: nat,
                      builder: string -> Entry -> Row)
    requires FiniteSource(fetch, bound)
    ensures var cl := SectionResult(fetch, bound, "cs.CL", quota, pageSize, builder("cs.CL"));
            var cv := SectionResult(fetch, bound, "cs.CV", quota, pageSize, builder("cs.CV"));
            var cr := SectionResult(fetch, bound, "cs.CR", quota, pageSize, builder("cs.CR"));
            var all := Concatenated(SectionResults(fetch, bound, quota, pageSize, builder));
            (all.Success? <==> cl.Success? && cv.Success? && cr.Success?)
            && (all.Success? ==> all.value == cl.value + cv.value + cr.value)
  {
    var cl := SectionResult(fetch, bound, "cs.CL", quota, pageSize, builder("cs.CL"));
    var cv := SectionResult(fetch, bound, "cs.CV", quota, pageSize, builder("cs.CV"));
    var cr := SectionResult(fetch, bound, "cs.CR", quota, pageSize, builder("cs.CR"));
    assert SectionResults(fetch, bound, quota, pageSize, builder) == [cl, cv, cr];
    ConcatenatedThree(cl, cv, cr);
  }

  /** Every row an entry list yields comes from one of its entries with a non-blank abstract. */
  lemma {:induction false} AcceptedFrom(s: seq<Entry>, rowOf: Entry -> Row)
    ensures forall i :: 0 <= i < |Accepted(s, rowOf)| ==>
              exists k :: 0 <= k < |s| && !AllSpace(s[k].summary) && Accepted(s, rowOf)[i] == rowOf(s[k])
  {
    if s == [] {
      assert Accepted(s, rowOf) == [];
    } else {
      var init, last := s[..|s| - 1], s[|s| - 1];
      assert s == init + [last];
      AcceptedFrom(init, rowOf);
      AcceptedSnoc(init, last, rowOf);
      var before := Accepted(init, rowOf);
      forall i | 0 <= i < |Accepted(s, rowOf)|
        ensures exists k :: 0 <= k < |s| && !AllSpace(s[k].summary) && Accepted(s, rowOf)[i] == rowOf(s[k])
      {
        if i < |before| {
          var k :| 0 <= k < |init| && !AllSpace(init[k].summary) && before[i] == rowOf(init[k]);
          assert s[k] == init[k] && Accepted(s, rowOf)[i] == before[i];
        } else {
          assert !AllSpace(s[|s| - 1].summary) && Accepted(s, rowOf)[i] == rowOf(s[|s| - 1]);
        }
      }
    }
  }

  /** A row builder that puts the entry's DOI, its stripped abstract and the venue `venue` in
      every row, as the one of `collect_arxiv` does. */
  ghost predicate BuildsRows(rowOf: Entry -> Row, venue: string)
  {
    forall e: Entry :: rowOf(e).doi == DoiOf(e) && rowOf(e).summary == Strip(e.summary) && rowOf(e).venue == venue
  }

  /** The row builder of a section fills the DOI, the abstract and the section's long name. */
  lemma SectionRowOfBuilds(sec: string)
    ensures BuildsRows(SectionRowOf(sec), LongName(sec))
  {
    forall e: Entry
      ensures SectionRowOf(sec)(e).doi == DoiOf(e) && SectionRowOf(sec)(e).summary == Strip(e.summary)
              && SectionRowOf(sec)(e).venue == LongName(sec)
    {
      assert SectionRowOf(sec)(e) == RowOf(e, LongName(sec));
    }
  }

  /** Each of `rows` is the row of an entry of `listing` with an abstract, with a DOI, the
      abstract and the venue. */
  ghost predicate RowsFrom(rows: seq<Row>, listing: seq<Entry>, rowOf: Entry -> Row, venue: string)
  {
    forall i :: 0 <= i < |rows| ==>
      rows[i].doi != [] && rows[i].summary != [] && rows[i].venue == venue
      && exists k :: 0 <= k < |listing| && !AllSpace(listing[k].summary) && rows[i] == rowOf(listing[k])
  }

  /** Every row of a section is the row of a listed entry with an abstract; it has a DOI (never
      empty, made from the de-versioned identifier when the entry has none), the abstract and the
      venue; there are at most `quota` of them. */
  lemma SectionRowsShape(fetch: (string, nat, nat) -> FeedPage, bound: nat, sec: string, quota: nat,
                         pageSize: nat, rowOf: Entry -> Row, venue: string)
    requires FiniteSource(fetch, bound) && BuildsRows(rowOf, venue)
    ensures var r := SectionResult(fetch, bound, sec, quota, pageSize, rowOf);
            r.Success? ==> |r.value| <= quota && RowsFrom(r.value, Listing(fetch, bound, sec, pageSize, 0), rowOf, venue)
  {
    var listing := Listing(fetch, bound, sec, pageSize, 0);
    var rows := Accepted(listing, rowOf);
    AcceptedFrom(listing, rowOf);
    var r := SectionResult(fetch, bound, sec, quota, pageSize, rowOf);
    if r.Success? {
      forall i | 0 <= i < |r.value|
        ensures r.value[i].doi != [] && r.value[i].summary != [] && r.value[i].venue == venue
        ensures exists k :: 0 <= k < |listing| && !AllSpace(listing[k].summary) && r.value[i] == rowOf(listing[k])
      {
        assert r.value[i] == rows[i];
        var k :| 0 <= k < |listing| && !AllSpace(listing[k].summary) && rows[i] == rowOf(listing[k]);
        assert Strip(listing[k].summary) != [];
      }
      assert RowsFrom(r.value, listing, rowOf, venue);
    }
  }

  /** An entry whose abstract is blank is dropped, yet its identifier still shadows a later entry
      with the same identifier. */
  lemma BlankAbstractShadows(e1: Entry, e2: Entry, rowOf: Entry -> Row)
    requires e1.id == e2.id && AllSpace(e1.summary)
    ensures Accepted([e1, e2], rowOf) == []
  {
    AcceptedSnoc([], e1, rowOf);
    assert [] + [e1] == [e1];
    AcceptedSnoc([e1], e2, rowOf);
    assert [e1] + [e2] == [e1, e2];
  }

  /** Two entries with different identifiers and with abstracts both give rows, in order. */
  lemma AcceptedPair(e1: Entry, e2: Entry, rowOf: Entry -> Row)
    requires e1.id != e2.id && !AllSpace(e1.summary) && !AllSpace(e2.summary)
    ensures Accepted([e1, e2], rowOf) == [rowOf(e1), rowOf(e2)]
  {
    assert [e1, e2][..1] == [e1] && [e1][..0] == [];
    assert Ids([e1]) == {e1.id};
    assert Accepted([e1], rowOf) == [rowOf(e1)];
  }

  /** The DOI made for an entry without one whose identifier carries a one-digit version. */
  lemma VersionedDoi(e: Entry, base: string, d: char)
    requires base == [] || !IsSpace(base[0])
    requires IsDigit(d) && e.id == base + ['v', d] && AllSpace(e.doi)
    ensures DoiOf(e) == "10.48550/arXiv." + base
  {
    assert base + ['v', d] == base + "v" + [d];
    StripVersionOfVersioned(base, [d]);
  }

  /** Two versions of one paper are two entries: both give rows, with the same synthesised DOI. */
  lemma VersionsAreNotDuplicates(e1: Entry, e2: Entry, base: string, rowOf: Entry -> Row, venue: string)
    requires BuildsRows(rowOf, venue)
    requires base == [] || !IsSpace(base[0])
    requires e1.id == base + "v1" && e2.id == base + "v2"
    requires !AllSpace(e1.summary) && !AllSpace(e2.summary)
    requires AllSpace(e1.doi) && AllSpace(e2.doi)
    ensures var rows := Accepted([e1, e2], rowOf);
            |rows| == 2 && rows[0].doi == rows[1].doi == "10.48550/arXiv." + base
  {
    assert e1.id != e2.id by { assert e1.id[|base| + 1] == '1' && e2.id[|base| + 1] == '2'; }
    AcceptedPair(e1, e2, rowOf);
    VersionedDoi(e1, base, '1');
    VersionedDoi(e2, base, '2');
  }
}
