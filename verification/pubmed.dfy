/** The PubMed collector: MEDLINE records cut out of the trending pages, their
    fields read line by line, the abstract cleaned of section labels, the DOI and
    the date picked, and the rows gathered page after page up to a quota. */
module PubMed {
  import opened Strings
  import opened Wrappers
  import opened Lists
  import opened Dates
  import opened IoUtils

  // ----- clean_pubmed_abstract -----

  /** `\w` on ASCII text. */
  predicate IsWordChar(c: char)
  {
    ('a' <= c <= 'z') || ('A' <= c <= 'Z') || IsDigit(c) || c == '_'
  }

  /** `[A-Z0-9\-]`. */
  predicate IsLabelChar(c: char)
  {
    IsUpper(c) || IsDigit(c) || c == '-'
  }

  /** First index at or after `i` whose character fails `IsLabelChar` (or `|s|`). */
  function LabelRunEnd(s: string, i: nat): (e: nat)
    requires i <= |s|
    ensures i <= e <= |s|
    ensures forall k :: i <= k < e ==> IsLabelChar(s[k])
    ensures e < |s| ==> !IsLabelChar(s[e])
    decreases |s| - i
  {
    if i == |s| || !IsLabelChar(s[i]) then i else LabelRunEnd(s, i + 1)
  }

  /** `[A-Z][A-Z0-9\-]{1,}` at `i`, taken whole (a shorter take can never be followed by `:` or a blank). */
  function LabelWordAt(s: string, i: nat): (r: Option<nat>)
    requires i <= |s|
    ensures r.Some? ==> i + 2 <= r.value <= |s|
  {
    if i < |s| && IsUpper(s[i]) && LabelRunEnd(s, i + 1) >= i + 2 then Some(LabelRunEnd(s, i + 1))
    else None
  }

  /** `(?:\s+WORD){0,5}` after a word ending at `e`, greedy: where the last word read ends. */
  function MoreLabelWords(s: string, e: nat, count: nat): (r: nat)
    requires e <= |s| && count <= 5
    ensures e <= r <= |s|
    decreases 5 - count
  {
    if count == 5 then e
    else
      var w := SpaceRunEnd(s, e);
      if w == e then e
      else
        match LabelWordAt(s, w)
        case None => e
        case Some(e2) => MoreLabelWords(s, e2, count + 1)
  }

  /** The end of a section label `WORD( WORD){0,5}:\s*` starting at `i`, with a word boundary before `i`. */
  function LabelAt(s: string, i: nat): (r: Option<nat>)
    requires i <= |s|
    ensures r.Some? ==> i < r.value <= |s| && exists k :: i <= k < r.value && s[k] == ':'
  {
    if i > 0 && IsWordChar(s[i - 1]) then None
    else
      match LabelWordAt(s, i)
      case None => None
      case Some(e) =>
        var k := MoreLabelWords(s, e, 0);
        if k < |s| && s[k] == ':' then
          Some(SpaceRunEnd(s, k + 1))
        else None
  }

  /** `re.sub(label, "", s[pos:])`, scanning left to right and resuming after each removed label. */
  function RemoveLabels(s: string, pos: nat): (r: string)
    requires pos <= |s|
    ensures |r| <= |s| - pos
    decreases |s| - pos
  {
    if pos == |s| then []
    else
      match LabelAt(s, pos)
      case Some(e) => RemoveLabels(s, e)
      case None => [s[pos]] + RemoveLabels(s, pos + 1)
  }

  /** `clean_pubmed_abstract`. */
  function CleanAbstract(text: string): (r: string)
    ensures IsStripped(r)
    ensures |r| <= |text|
  {
    Strip(RemoveLabels(text, 0))
  }

  /** Without a colon there is no label to remove. */
  lemma {:induction false} NoColonKeepsText(s: string, pos: nat)
    requires pos <= |s| && forall k :: pos <= k < |s| ==> s[k] != ':'
    ensures RemoveLabels(s, pos) == s[pos..]
    decreases |s| - pos
  {
    if pos < |s| {
      assert LabelAt(s, pos).None?;
      NoColonKeepsText(s, pos + 1);
      assert s[pos..] == [s[pos]] + s[pos + 1..];
    }
  }

  lemma CleanWithoutColon(text: string)
    requires ':' !in text
    ensures CleanAbstract(text) == Strip(text)
  {
    assert text[0..] == text;
    assert forall k :: 0 <= k < |text| ==> text[k] != ':' by {
      forall k | 0 <= k < |text| ensures text[k] != ':' { assert text[k] in text; }
    }
    NoColonKeepsText(text, 0);
  }

  /** An upper-case word of at least two label characters. */
  predicate IsLabelWord(w: string)
  {
    |w| >= 2 && IsUpper(w[0]) && forall k :: 0 <= k < |w| ==> IsLabelChar(w[k])
  }

  /** A leading `WORD: ` label goes, the rest of a colon-free abstract stays. */
  lemma LeadingLabelRemoved(w: string, body: string)
    requires IsLabelWord(w)
    requires body == [] || !IsSpace(body[0])
    requires ':' !in body
    ensures CleanAbstract(w + ": " + body) == Strip(body)
  {
    var s := w + ": " + body;
    var n := |w|;
    assert s[n] == ':' && s[n + 1] == ' ';
    assert forall k :: 0 <= k < n ==> s[k] == w[k];
    assert LabelRunEnd(s, 1) == n by { LabelRunOfWord(s, w, 1); }
    assert LabelWordAt(s, 0) == Some(n);
    assert SpaceRunEnd(s, n) == n;
    assert MoreLabelWords(s, n, 0) == n;
    assert SpaceRunEnd(s, n + 1) == n + 2 by {
      if n + 2 < |s| { assert s[n + 2] == body[0]; }
    }
    assert LabelAt(s, 0) == Some(n + 2);
    assert s[n + 2..] == body;
    forall k | n + 2 <= k < |s| ensures s[k] != ':' { assert s[k] == body[k - n - 2]; assert body[k - n - 2] in body; }
    NoColonKeepsText(s, n + 2);
  }

  lemma {:induction false} LabelRunOfWord(s: string, w: string, i: nat)
    requires IsLabelWord(w) && 1 <= i <= |w| && |w| < |s| && s[..|w|] == w && !IsLabelChar(s[|w|])
    ensures LabelRunEnd(s, i) == |w|
    decreases |w| - i
  {
    if i < |w| {
      assert s[i] == w[i];
      LabelRunOfWord(s, w, i + 1);
    }
  }

  // ----- labels anywhere in the abstract -----

  /** The text at `i` does not start with a blank. */
  predicate NoBlankAt(s: string, i: nat)
  {
    i >= |s| || !IsSpace(s[i])
  }

  /** A character that can neither continue a label nor sit inside one, and after which `\b`
      holds before a capital. */
  predicate Stopper(c: char)
  {
    !IsWordChar(c) && !IsLabelChar(c) && !IsSpace(c)
  }

  /** The words of a label after its first, each preceded by a blank. */
  function Spaced(ws: seq<string>): string
  {
    if ws == [] then [] else " " + ws[0] + Spaced(ws[1..])
  }

  lemma {:induction false} JoinSpaced(ws: seq<string>)
    requires ws != []
    ensures Join(" ", ws) == ws[0] + Spaced(ws[1..])
    decreases |ws|
  {
    if |ws| >= 2 {
      JoinSpaced(ws[1..]);
      assert ws[1..][1..] == ws[2..];
    }
  }

  /** `t` is written in `s` from `p` on, stated character by character. */
  predicate WrittenAt(s: string, p: nat, t: string)
  {
    p + |t| <= |s| && forall k {:trigger t[k]} :: 0 <= k < |t| ==> s[p + k] == t[k]
  }

  lemma SliceWritten(s: string, p: nat, t: string)
    requires p + |t| <= |s| && s[p..p + |t|] == t
    ensures WrittenAt(s, p, t)
  {
    forall k | 0 <= k < |t| ensures s[p + k] == t[k] {
      assert s[p..p + |t|][k] == s[p + k];
    }
  }

  lemma WrittenSlice(s: string, p: nat, t: string)
    requires WrittenAt(s, p, t)
    ensures s[p..p + |t|] == t
  {
    forall k | 0 <= k < |t| ensures s[p..p + |t|][k] == t[k] {
      assert s[p + k] == t[k];
    }
  }

  /** What is written of `x + y` at `p` is `x` at `p` and `y` after it. */
  lemma WrittenSplit(s: string, p: nat, x: string, y: string)
    requires WrittenAt(s, p, x + y)
    ensures WrittenAt(s, p, x) && WrittenAt(s, p + |x|, y)
  {
    forall k | 0 <= k < |x| ensures s[p + k] == x[k] {
      assert (x + y)[k] == x[k];
    }
    forall k | 0 <= k < |y| ensures s[p + |x| + k] == y[k] {
      assert (x + y)[|x| + k] == y[k];
    }
  }

  /** A label word written at `o` and followed by a non-label character is read whole. */
  lemma {:induction false} LabelRunAt(s: string, o: nat, w: string, i: nat)
    requires IsLabelWord(w) && WrittenAt(s, o, w) && o + |w| < |s| && !IsLabelChar(s[o + |w|])
    requires o + 1 <= i <= o + |w|
    ensures LabelRunEnd(s, i) == o + |w|
    decreases o + |w| - i
  {
    if i < o + |w| {
      assert s[i] == w[i - o];
      LabelRunAt(s, o, w, i + 1);
    }
  }

  lemma LabelWordOf(s: string, o: nat, w: string)
    requires IsLabelWord(w) && WrittenAt(s, o, w) && o + |w| < |s| && !IsLabelChar(s[o + |w|])
    ensures LabelWordAt(s, o) == Some(o + |w|)
  {
    assert s[o] == w[0];
    LabelRunAt(s, o, w, o + 1);
  }

  /** The blank-separated words before a colon are all read, when there are at most as many
      as the label may still take. */
  lemma {:induction false} MoreWordsRead(s: string, e: nat, count: nat, ws: seq<string>, c: nat)
    requires count + |ws| <= 5
    requires forall k :: 0 <= k < |ws| ==> IsLabelWord(ws[k])
    requires c == e + |Spaced(ws)| < |s| && WrittenAt(s, e, Spaced(ws)) && s[c] == ':'
    ensures MoreLabelWords(s, e, count) == c
    decreases |ws|
  {
    if ws == [] {
      NoMoreAtColon(s, e, count);
    } else {
      var e2 := e + 1 + |ws[0]|;
      NextLabelWord(s, e, ws, c, e2);
      MoreWordsRead(s, e2, count + 1, ws[1..], c);
      MoreStep(s, e, count, e2);
    }
  }

  /** The first of the blank-separated words is read, and the others are written after it. */
  lemma NextLabelWord(s: string, e: nat, ws: seq<string>, c: nat, e2: nat)
    requires ws != [] && forall k :: 0 <= k < |ws| ==> IsLabelWord(ws[k])
    requires c == e + |Spaced(ws)| < |s| && WrittenAt(s, e, Spaced(ws)) && s[c] == ':'
    requires e2 == e + 1 + |ws[0]|
    ensures SpaceRunEnd(s, e) == e + 1 && LabelWordAt(s, e + 1) == Some(e2)
    ensures WrittenAt(s, e2, Spaced(ws[1..])) && c == e2 + |Spaced(ws[1..])|
  {
    var w := ws[0];
    var rest := Spaced(ws[1..]);
    assert Spaced(ws) == " " + w + rest;
    WrittenSplit(s, e, " " + w, rest);
    WrittenSplit(s, e, " ", w);
    assert s[e] == " "[0];
    assert s[e + 1] == w[0];
    assert s[e2] == ' ' || s[e2] == ':' by {
      if rest != [] { assert rest[0] == ' '; assert s[e2 + 0] == rest[0]; }
    }
    LabelWordOf(s, e + 1, w);
  }

  /** No further word is read at a colon. */
  lemma NoMoreAtColon(s: string, e: nat, count: nat)
    requires e < |s| && count <= 5 && s[e] == ':'
    ensures MoreLabelWords(s, e, count) == e
  {
    assert SpaceRunEnd(s, e) == e;
  }

  /** One more label word after a single blank. */
  lemma MoreStep(s: string, e: nat, count: nat, e2: nat)
    requires e < |s| && count < 5 && SpaceRunEnd(s, e) == e + 1
    requires LabelWordAt(s, e + 1) == Some(e2)
    ensures MoreLabelWords(s, e, count) == MoreLabelWords(s, e2, count + 1)
  {
  }

  /** Further label words cannot reach past a stopper. */
  lemma {:induction false} MoreBounded(s: string, e: nat, count: nat, stop: nat)
    requires e <= stop < |s| && count <= 5
    requires !IsLabelChar(s[stop]) && !IsSpace(s[stop])
    ensures MoreLabelWords(s, e, count) <= stop
    decreases 5 - count
  {
    if count < 5 {
      var w := SpaceRunEnd(s, e);
      assert w <= stop;
      if w != e && LabelWordAt(s, w).Some? {
        MoreBounded(s, LabelWordAt(s, w).value, count + 1, stop);
      }
    }
  }

  /** No label starts at a blank. */
  lemma NoLabelAtBlank(s: string, i: nat)
    requires i < |s| && IsSpace(s[i])
    ensures LabelAt(s, i).None?
  {
    assert !IsUpper(s[i]);
  }

  /** No label starts before a stopper when no colon lies in between. */
  lemma NoLabelBeforeStopper(s: string, i: nat, stop: nat)
    requires i <= stop < |s| && Stopper(s[stop])
    requires forall k :: i <= k <= stop ==> s[k] != ':'
    ensures LabelAt(s, i).None?
  {
    if LabelWordAt(s, i).Some? {
      var e := LabelWordAt(s, i).value;
      assert i < stop by { assert IsUpper(s[i]); }
      assert e == LabelRunEnd(s, i + 1);
      assert e <= stop by {
        assert !IsLabelChar(s[stop]);
      }
      MoreBounded(s, e, 0, stop);
      var k := MoreLabelWords(s, e, 0);
      assert s[k] != ':';
    }
  }

  /** Positions without a label are kept as they are. */
  lemma {:induction false} KeepUntil(s: string, pos: nat, end: nat)
    requires pos <= end <= |s|
    requires forall i :: pos <= i < end ==> LabelAt(s, i).None?
    ensures RemoveLabels(s, pos) == s[pos..end] + RemoveLabels(s, end)
    decreases end - pos
  {
    if pos < end {
      KeepUntil(s, pos + 1, end);
      KeepOne(s, pos);
      ConsSlice(s, pos, end, RemoveLabels(s, pos), RemoveLabels(s, pos + 1), RemoveLabels(s, end));
    }
  }

  lemma ConsSlice(s: string, pos: nat, end: nat, x: string, y: string, r: string)
    requires pos < end <= |s| && x == [s[pos]] + y && y == s[pos + 1..end] + r
    ensures x == s[pos..end] + r
  {
    assert s[pos..end] == [s[pos]] + s[pos + 1..end];
  }

  /** A position without a label keeps its character. */
  lemma KeepOne(s: string, pos: nat)
    requires pos < |s| && LabelAt(s, pos).None?
    ensures RemoveLabels(s, pos) == [s[pos]] + RemoveLabels(s, pos + 1)
  {
  }

  /** One blank before text that does not start with a blank is a blank run of one. */
  lemma OneBlank(s: string, i: nat)
    requires i < |s| && s[i] == ' ' && NoBlankAt(s, i + 1)
    ensures SpaceRunEnd(s, i) == i + 1
  {
  }

  /** A label is a first word, more words up to a colon, and the blanks after it. */
  lemma LabelOfParts(s: string, p: nat, e: nat, c: nat)
    requires p <= |s| && (p == 0 || !IsWordChar(s[p - 1]))
    requires LabelWordAt(s, p) == Some(e) && MoreLabelWords(s, e, 0) == c
    requires c < |s| && s[c] == ':' && SpaceRunEnd(s, c + 1) == c + 2
    ensures LabelAt(s, p) == Some(c + 2)
  {
  }

  /** The label `w more[0] ... more[|more|-1]: ` at `p`, its colon at `c`. */
  lemma LabelOfWords(s: string, p: nat, w: string, more: seq<string>, c: nat)
    requires IsLabelWord(w) && |more| <= 5 && forall k :: 0 <= k < |more| ==> IsLabelWord(more[k])
    requires c == p + |w| + |Spaced(more)| && c + 2 <= |s|
    requires p == 0 || !IsWordChar(s[p - 1])
    requires WrittenAt(s, p, w) && WrittenAt(s, p + |w|, Spaced(more))
    requires s[c] == ':' && s[c + 1] == ' '
    requires NoBlankAt(s, c + 2)
    ensures LabelAt(s, p) == Some(c + 2)
  {
    var e := p + |w|;
    OneBlank(s, c + 1);
    assert s[e] == ' ' || s[e] == ':' by {
      if more != [] { assert Spaced(more)[0] == ' '; assert s[e + 0] == Spaced(more)[0]; }
    }
    LabelWordOf(s, p, w);
    MoreWordsRead(s, e, 0, more, c);
    LabelOfParts(s, p, e, c);
  }

  /** The label itself: `WORD( WORD){0,5}: ` at `p`, read up to the start of the text after it. */
  lemma LabelFound(s: string, p: nat, ws: seq<string>, q: nat)
    requires 1 <= |ws| <= 6 && forall k :: 0 <= k < |ws| ==> IsLabelWord(ws[k])
    requires p == 0 || (p <= |s| && !IsWordChar(s[p - 1]))
    requires WrittenAt(s, p, Join(" ", ws) + ": ") && q == p + |Join(" ", ws)| + 2
    requires NoBlankAt(s, q)
    ensures LabelAt(s, p) == Some(q)
  {
    var w := ws[0];
    var rest := Spaced(ws[1..]);
    JoinSpaced(ws);
    WrittenSplit(s, p, w + rest, ": ");
    WrittenSplit(s, p, w, rest);
    var c := p + |w| + |rest|;
    assert s[c + 0] == ": "[0] && s[c + 1] == ": "[1];
    LabelOfWords(s, p, w, ws[1..], c);
  }

  /** No label starts in the text before a label. */
  lemma NoLabelInLead(s: string, pos: nat, lead: string, gap: string, i: nat)
    requires ':' !in lead && AllSpace(gap)
    requires lead == [] || Stopper(lead[|lead| - 1])
    requires WrittenAt(s, pos, lead + gap)
    requires pos <= i < pos + |lead| + |gap|
    ensures LabelAt(s, i).None?
  {
    var a := pos + |lead|;
    WrittenSplit(s, pos, lead, gap);
    if i >= a {
      assert s[a + (i - a)] == gap[i - a];
      NoLabelAtBlank(s, i);
    } else {
      assert s[pos + (a - 1 - pos)] == lead[|lead| - 1];
      forall k | i <= k <= a - 1 ensures s[k] != ':' {
        assert s[pos + (k - pos)] == lead[k - pos];
        assert lead[k - pos] in lead;
      }
      NoLabelBeforeStopper(s, i, a - 1);
    }
  }

  /** A label of one to six capitalised words is removed wherever it stands: after text
      without a colon that ends in blanks or in a character that is neither a word nor a
      label character, the label, its colon and the blanks after it (ending at `q`) go, and
      the scan goes on with the text after them. */
  lemma LabelRemovedAnywhere(s: string, pos: nat, lead: string, gap: string, ws: seq<string>, q: nat)
    requires ':' !in lead && AllSpace(gap)
    requires lead == [] || Stopper(lead[|lead| - 1])
    requires 1 <= |ws| <= 6 && forall k :: 0 <= k < |ws| ==> IsLabelWord(ws[k])
    requires q == pos + |lead| + |gap| + |Join(" ", ws)| + 2 <= |s|
    requires lead == [] && gap == [] ==> pos == 0 || !IsWordChar(s[pos - 1])
    requires s[pos..q] == lead + gap + Join(" ", ws) + ": "
    requires NoBlankAt(s, q)
    ensures RemoveLabels(s, pos) == lead + gap + RemoveLabels(s, q)
  {
    var p := pos + |lead| + |gap|;
    LeadLayout(s, pos, lead, gap, Join(" ", ws) + ": ", p, q);
    KeepLead(s, pos, lead, gap, p);
    LabelFound(s, p, ws, q);
    SkipLabel(s, p, q);
  }

  /** The text before a label, and the label, as written at their places; a word boundary
      lies before the label. */
  lemma LeadLayout(s: string, pos: nat, lead: string, gap: string, tail: string, p: nat, q: nat)
    requires AllSpace(gap) && (lead == [] || Stopper(lead[|lead| - 1]))
    requires p == pos + |lead| + |gap| && q == p + |tail| <= |s|
    requires lead == [] && gap == [] ==> pos == 0 || !IsWordChar(s[pos - 1])
    requires s[pos..q] == lead + gap + tail
    ensures WrittenAt(s, pos, lead + gap) && WrittenAt(s, p, tail)
    ensures p == 0 || (p <= |s| && !IsWordChar(s[p - 1]))
  {
    assert lead + gap + tail == (lead + gap) + tail;
    SliceWritten(s, pos, (lead + gap) + tail);
    WrittenSplit(s, pos, lead + gap, tail);
    if p > 0 && (lead != [] || gap != []) {
      WrittenSplit(s, pos, lead, gap);
      if gap != [] {
        assert s[pos + |lead| + (|gap| - 1)] == gap[|gap| - 1];
      } else {
        assert s[pos + (|lead| - 1)] == lead[|lead| - 1];
      }
    }
  }

  /** The text before a label stays as it is. */
  lemma KeepLead(s: string, pos: nat, lead: string, gap: string, p: nat)
    requires ':' !in lead && AllSpace(gap)
    requires lead == [] || Stopper(lead[|lead| - 1])
    requires WrittenAt(s, pos, lead + gap) && p == pos + |lead| + |gap|
    ensures RemoveLabels(s, pos) == lead + gap + RemoveLabels(s, p)
  {
    forall i | pos <= i < p ensures LabelAt(s, i).None? {
      NoLabelInLead(s, pos, lead, gap, i);
    }
    KeepUntil(s, pos, p);
    WrittenSlice(s, pos, lead + gap);
  }

  /** A label found at `p` is skipped whole. */
  lemma SkipLabel(s: string, p: nat, q: nat)
    requires p <= |s| && LabelAt(s, p) == Some(q)
    ensures RemoveLabels(s, p) == RemoveLabels(s, q)
  {
  }

  /** The cleaned abstract of a label placed anywhere in colon-free text is that text without
      the label. */
  lemma CleanRemovesLabelAnywhere(lead: string, gap: string, ws: seq<string>, body: string)
    requires ':' !in lead && AllSpace(gap)
    requires lead == [] || Stopper(lead[|lead| - 1])
    requires 1 <= |ws| <= 6 && forall k :: 0 <= k < |ws| ==> IsLabelWord(ws[k])
    requires ':' !in body && (body == [] || !IsSpace(body[0]))
    ensures CleanAbstract(lead + gap + Join(" ", ws) + ": " + body) == Strip(lead + gap + body)
  {
    var head := lead + gap + Join(" ", ws) + ": ";
    var s := head + body;
    var q := |head|;
    assert q == |lead| + |gap| + |Join(" ", ws)| + 2;
    assert s[0..q] == head && s[q..] == body;
    assert NoBlankAt(s, q) by {
      if q < |s| { assert s[q] == body[0]; }
    }
    assert RemoveLabels(s, q) == s[q..] by {
      ColonFreeTail(s, q);
      NoColonKeepsText(s, q);
    }
    LabelRemovedAnywhere(s, 0, lead, gap, ws, q);
    assert RemoveLabels(s, 0) == lead + gap + body;
  }

  lemma ColonFreeTail(s: string, q: nat)
    requires q <= |s| && ':' !in s[q..]
    ensures forall k :: q <= k < |s| ==> s[k] != ':'
  {
    forall k | q <= k < |s| ensures s[k] != ':' {
      assert s[k] == s[q..][k - q];
    }
  }

  /** A second label further on goes as well as the first. */
  lemma CleanRemovesTwoLabels(lead: string, gap: string, ws: seq<string>,
                              lead2: string, gap2: string, ws2: seq<string>, body: string)
    requires ':' !in lead && AllSpace(gap)
    requires lead == [] || Stopper(lead[|lead| - 1])
    requires 1 <= |ws| <= 6 && forall k :: 0 <= k < |ws| ==> IsLabelWord(ws[k])
    requires ':' !in lead2 && lead2 != [] && !IsSpace(lead2[0]) && Stopper(lead2[|lead2| - 1])
    requires AllSpace(gap2)
    requires 1 <= |ws2| <= 6 && forall k :: 0 <= k < |ws2| ==> IsLabelWord(ws2[k])
    requires ':' !in body && (body == [] || !IsSpace(body[0]))
    ensures CleanAbstract(lead + gap + Join(" ", ws) + ": " + lead2 + gap2 + Join(" ", ws2) + ": " + body)
         == Strip(lead + gap + lead2 + gap2 + body)
  {
    var head := lead + gap + Join(" ", ws) + ": ";
    var head2 := lead2 + gap2 + Join(" ", ws2) + ": ";
    var s := lead + gap + Join(" ", ws) + ": " + lead2 + gap2 + Join(" ", ws2) + ": " + body;
    var q := |head|;
    var q2 := q + |head2|;
    assert s[0..q] == head && s[q..q2] == head2 && s[q2..] == body by {
      AppendAssoc(head, lead2 + gap2 + Join(" ", ws2), ": ");
      AppendAssoc(head, lead2 + gap2, Join(" ", ws2));
      AppendAssoc(head, lead2, gap2);
      assert s == head + head2 + body;
    }
    TwoLabelsAt(s, lead, gap, ws, lead2, gap2, ws2, body, q, q2);
    AppendAssoc(lead + gap, lead2 + gap2, body);
    AppendAssoc(lead + gap, lead2, gap2);
  }

  /** `CleanRemovesTwoLabels` on a text whose three parts are given by position. */
  lemma TwoLabelsAt(s: string, lead: string, gap: string, ws: seq<string>,
                    lead2: string, gap2: string, ws2: seq<string>, body: string, q: nat, q2: nat)
    requires ':' !in lead && AllSpace(gap)
    requires lead == [] || Stopper(lead[|lead| - 1])
    requires 1 <= |ws| <= 6 && forall k :: 0 <= k < |ws| ==> IsLabelWord(ws[k])
    requires ':' !in lead2 && lead2 != [] && !IsSpace(lead2[0]) && Stopper(lead2[|lead2| - 1])
    requires AllSpace(gap2)
    requires 1 <= |ws2| <= 6 && forall k :: 0 <= k < |ws2| ==> IsLabelWord(ws2[k])
    requires ':' !in body && (body == [] || !IsSpace(body[0]))
    requires q == |lead| + |gap| + |Join(" ", ws)| + 2
    requires q2 == q + |lead2| + |gap2| + |Join(" ", ws2)| + 2 <= |s|
    requires s[0..q] == lead + gap + Join(" ", ws) + ": "
    requires s[q..q2] == lead2 + gap2 + Join(" ", ws2) + ": "
    requires s[q2..] == body
    ensures RemoveLabels(s, 0) == lead + gap + (lead2 + gap2 + body)
  {
    assert NoBlankAt(s, q2) by {
      if q2 < |s| { assert s[q2] == body[0]; }
    }
    assert RemoveLabels(s, q2) == body by {
      ColonFreeTail(s, q2);
      NoColonKeepsText(s, q2);
    }
    assert NoBlankAt(s, q) by {
      assert s[q] == s[q..q2][0] == lead2[0];
    }
    LabelRemovedAnywhere(s, q, lead2, gap2, ws2, q2);
    LabelRemovedAnywhere(s, 0, lead, gap, ws, q);
  }

  lemma AppendAssoc(a: string, b: string, c: string)
    ensures a + (b + c) == a + b + c
  {
  }

  // ----- _split_records -----

  predicate IsPmidLine(ln: string) { StartsWith(ln, "PMID- ") }

  /** Every group is non-empty, only a group's first line may start a record, and every group
      after the first starts one. */
  predicate WellGrouped(groups: seq<seq<string>>)
  {
    && (forall k :: 0 <= k < |groups| ==> groups[k] != [])
    && (forall k, j :: 0 <= k < |groups| && 1 <= j < |groups[k]| ==> !IsPmidLine(groups[k][j]))
    && (forall k :: 1 <= k < |groups| ==> IsPmidLine(groups[k][0]))
  }

  /** The loop of `_split_records`: a `PMID- ` line closes the current group and opens the next. */
  function GroupLines(lines: seq<string>): (r: seq<seq<string>>)
    ensures Flatten(r) == lines
    ensures WellGrouped(r)
    ensures lines == [] <==> r == []
    ensures r != [] ==> r[0][0] == lines[0]
    decreases |lines|
  {
    if lines == [] then []
    else
      var rest := GroupLines(lines[1..]);
      assert [lines[0]] + lines[1..] == lines;
      if rest == [] || IsPmidLine(rest[0][0]) then
        StartGroup(lines[0], rest);
        [[lines[0]]] + rest
      else
        JoinGroup(lines[0], rest);
        [[lines[0]] + rest[0]] + rest[1..]
  }

  /** A line put in a group of its own in front of a grouping that starts with a record. */
  lemma StartGroup(x: string, rest: seq<seq<string>>)
    requires WellGrouped(rest) && (rest == [] || IsPmidLine(rest[0][0]))
    ensures WellGrouped([[x]] + rest)
    ensures Flatten([[x]] + rest) == [x] + Flatten(rest)
  {
    var r := [[x]] + rest;
    assert r[1..] == rest;
  }

  /** A line put in front of the first group when that group does not start a record. */
  lemma JoinGroup(x: string, rest: seq<seq<string>>)
    requires WellGrouped(rest) && rest != [] && !IsPmidLine(rest[0][0])
    ensures WellGrouped([[x] + rest[0]] + rest[1..])
    ensures Flatten([[x] + rest[0]] + rest[1..]) == [x] + Flatten(rest)
  {
    var r := [[x] + rest[0]] + rest[1..];
    JoinGroupFlatten(x, rest, r);
    JoinGroupWellGrouped(x, rest, r);
  }

  lemma JoinGroupFlatten(x: string, rest: seq<seq<string>>, r: seq<seq<string>>)
    requires rest != [] && r == [[x] + rest[0]] + rest[1..]
    ensures Flatten(r) == [x] + Flatten(rest)
  {
    assert r[1..] == rest[1..];
    assert Flatten(r) == ([x] + rest[0]) + Flatten(rest[1..]);
    assert Flatten(rest) == rest[0] + Flatten(rest[1..]);
  }

  lemma JoinGroupWellGrouped(x: string, rest: seq<seq<string>>, r: seq<seq<string>>)
    requires WellGrouped(rest) && rest != [] && !IsPmidLine(rest[0][0])
    requires r == [[x] + rest[0]] + rest[1..]
    ensures WellGrouped(r)
  {
    forall k | 1 <= k < |r| ensures r[k] == rest[k] { }
    forall j | 1 <= j < |r[0]| ensures !IsPmidLine(r[0][j]) {
      assert r[0][j] == rest[0][j - 1];
    }
  }

  /** `_split_records`: the groups, each joined with `\n`. */
  function SplitRecords(block: string): (r: seq<string>)
    ensures |r| == |GroupLines(SplitLines(block))|
  {
    var groups := GroupLines(SplitLines(block));
    seq(|groups|, k requires 0 <= k < |groups| => Join("\n", groups[k]))
  }

  /** A grouping without its first line. */
  function Peel(g: seq<seq<string>>): seq<seq<string>>
    requires g != [] && g[0] != []
  {
    if |g[0]| == 1 then g[1..] else [g[0][1..]] + g[1..]
  }

  /** The grouping is the only one with these properties: the groups are determined by the lines. */
  lemma {:induction false} GroupingIsUnique(g: seq<seq<string>>, lines: seq<string>)
    requires WellGrouped(g) && Flatten(g) == lines
    ensures g == GroupLines(lines)
    decreases |lines|
  {
    if g != [] {
      PeelKeepsGrouping(g);
      assert lines == g[0] + Flatten(g[1..]);
      GroupingIsUnique(Peel(g), lines[1..]);
      RebuildGrouping(g, lines);
    }
  }

  lemma PeelKeepsGrouping(g: seq<seq<string>>)
    requires WellGrouped(g) && g != []
    ensures WellGrouped(Peel(g)) && Flatten(Peel(g)) == Flatten(g)[1..]
  {
    var g1 := Peel(g);
    assert g[0] != [];
    assert Flatten(g) == g[0] + Flatten(g[1..]);
    if |g[0]| == 1 {
      assert Flatten(g)[1..] == Flatten(g[1..]);
    } else {
      assert g1[1..] == g[1..];
      assert Flatten(g1) == g[0][1..] + Flatten(g[1..]);
      assert forall j :: 0 <= j < |g1[0]| ==> g1[0][j] == g[0][j + 1];
      assert forall k :: 1 <= k < |g1| ==> g1[k] == g[k];
    }
  }

  lemma RebuildGrouping(g: seq<seq<string>>, lines: seq<string>)
    requires WellGrouped(g) && g != [] && Flatten(g) == lines
    requires Peel(g) == GroupLines(lines[1..])
    ensures g == GroupLines(lines)
  {
    assert g[0] != [];
    assert Flatten(g) == g[0] + Flatten(g[1..]);
    assert lines[0] == g[0][0];
    var rest := GroupLines(lines[1..]);
    if |g[0]| == 1 {
      assert rest == g[1..];
      assert rest == [] || IsPmidLine(rest[0][0]) by {
        if rest != [] { assert rest[0] == g[1]; }
      }
      assert GroupLines(lines) == [[lines[0]]] + rest;
      assert g[0] == [lines[0]];
      assert g == [g[0]] + g[1..];
    } else {
      assert rest[0][0] == g[0][1];
      assert g[0] == [lines[0]] + rest[0];
      assert g == [[lines[0]] + rest[0]] + rest[1..];
    }
  }

  // ----- _extract_year_from_text -----

  /** `(19|20)\d{2}` at `i`. */
  predicate YearAt(s: string, i: nat)
  {
    i + 4 <= |s| && ((s[i] == '1' && s[i + 1] == '9') || (s[i] == '2' && s[i + 1] == '0'))
    && IsDigit(s[i + 2]) && IsDigit(s[i + 3])
  }

  /** The leftmost year at or after `i`. */
  function FirstYear(s: string, i: nat): (r: Option<nat>)
    requires i <= |s|
    ensures r.Some? ==> i <= r.value && YearAt(s, r.value)
    ensures forall j :: i <= j && (r.None? || j < r.value) ==> !YearAt(s, j)
    decreases |s| - i
  {
    if i + 4 > |s| then None
    else if YearAt(s, i) then Some(i)
    else FirstYear(s, i + 1)
  }

  /** `_extract_year_from_text`: the first of January of the first 19xx/20xx in the text. */
  function ExtractYear(text: string): (r: string)
    ensures r == [] <==> forall j :: !YearAt(text, j)
    ensures r != [] ==> IsDdMmYyyy(r) && r[..6] == "01/01/"
    ensures forall i: nat :: YearAt(text, i) && (forall j: nat :: j < i ==> !YearAt(text, j))
                        ==> r == "01/01/" + text[i..i + 4]
  {
    match FirstYear(text, 0)
    case None => []
    case Some(i) =>
      var y := text[i..i + 4];
      assert IsAllDigits(y) by {
        assert y[0] == text[i] && y[1] == text[i + 1] && y[2] == text[i + 2] && y[3] == text[i + 3];
      }
      var r := "01/01/" + y;
      assert r[6..] == y;
      r
  }

  /** A text that opens with a year yields that year, whatever follows. */
  lemma LeadingYear(y: string, rest: string)
    requires |y| == 4 && YearAt(y, 0)
    ensures ExtractYear(y + rest) == "01/01/" + y
  {
    var t := y + rest;
    assert t[..4] == y;
    assert YearAt(t, 0);
  }

  /** Text before the first year is skipped: when no year starts inside `a`, the year found
      in `a + b` is the one found in `b`. */
  lemma YearAfterPrefix(a: string, b: string)
    requires forall j: nat :: j < |a| ==> !YearAt(a + b, j)
    ensures ExtractYear(a + b) == ExtractYear(b)
  {
    var t := a + b;
    match FirstYear(b, 0)
    case Some(i) =>
      YearShifted(a, b, i);
      forall j: nat | j < |a| + i ensures !YearAt(t, j) {
        if j >= |a| { YearShifted(a, b, j - |a|); }
      }
      assert t[|a| + i..|a| + i + 4] == b[i..i + 4];
    case None =>
      forall j: nat ensures !YearAt(t, j) {
        if j >= |a| { YearShifted(a, b, j - |a|); }
      }
  }

  lemma YearShifted(a: string, b: string, j: nat)
    ensures YearAt(a + b, |a| + j) <==> YearAt(b, j)
  {
    var t := a + b;
    if j + 4 <= |b| {
      assert t[|a| + j] == b[j] && t[|a| + j + 1] == b[j + 1];
      assert t[|a| + j + 2] == b[j + 2] && t[|a| + j + 3] == b[j + 3];
    }
  }

  // ----- _parse_medline_record -----

  /** Length of the run of `A`-`Z` at the start of `s`. */
  function UpperPrefix(s: string): (n: nat)
    ensures n <= |s|
    ensures forall k :: 0 <= k < n ==> IsUpper(s[k])
    ensures n < |s| ==> !IsUpper(s[n])
  {
    if s == [] || !IsUpper(s[0]) then 0 else 1 + UpperPrefix(s[1..])
  }

  /** `^([A-Z]{2,4})\s*-\s(.*)$` on one line: the tag and its value with trailing blanks removed. */
  function TagLine(ln: string): (r: Option<(string, string)>)
    ensures r.Some? ==> 2 <= |r.value.0| <= 4 && forall k :: 0 <= k < |r.value.0| ==> IsUpper(r.value.0[k])
  {
    var n := UpperPrefix(ln);
    if n < 2 || n > 4 then None
    else
      var w := SpaceRunEnd(ln, n);
      if w + 1 < |ln| && ln[w] == '-' && IsSpace(ln[w + 1]) then Some((ln[..n], RStrip(ln[w + 2..])))
      else None
  }

  /** The tags of `FIELD_KEYS`. */
  datatype Field = TI | AB | AU | JT | DP | LID | AID

  function FieldOf(tag: string): (r: Option<Field>)
    ensures r.Some? ==> TagOf(r.value) == tag
  {
    if tag == "TI" then Some(TI)
    else if tag == "AB" then Some(AB)
    else if tag == "AU" then Some(AU)
    else if tag == "JT" then Some(JT)
    else if tag == "DP" then Some(DP)
    else if tag == "LID" then Some(LID)
    else if tag == "AID" then Some(AID)
    else None
  }

  function TagOf(f: Field): string
  {
    match f
    case TI => "TI" case AB => "AB" case AU => "AU" case JT => "JT"
    case DP => "DP" case LID => "LID" case AID => "AID"
  }

  /** The values gathered for each field, in line order. */
  datatype Gathered = Gathered(ti: seq<string>, ab: seq<string>, au: seq<string>, jt: seq<string>,
                               dp: seq<string>, lid: seq<string>, aid: seq<string>)

  function Get(g: Gathered, f: Field): seq<string>
  {
    match f
    case TI => g.ti case AB => g.ab case AU => g.au case JT => g.jt
    case DP => g.dp case LID => g.lid case AID => g.aid
  }

  /** `data[f].append(v)`: one more value for `f`, every other field untouched. */
  function Append(g: Gathered, f: Field, v: string): (r: Gathered)
    ensures Get(r, f) == Get(g, f) + [v]
    ensures forall h: Field :: h != f ==> Get(r, h) == Get(g, h)
  {
    match f
    case TI => g.(ti := g.ti + [v])
    case AB => g.(ab := g.ab + [v])
    case AU => g.(au := g.au + [v])
    case JT => g.(jt := g.jt + [v])
    case DP => g.(dp := g.dp + [v])
    case LID => g.(lid := g.lid + [v])
    case AID => g.(aid := g.aid + [v])
  }

  /** The values so far, and the field that untagged lines continue. */
  datatype ScanState = ScanState(values: Gathered, current: Option<Field>)

  const Start: ScanState := ScanState(Gathered([], [], [], [], [], [], []), None)

  /** One line of the loop in `_parse_medline_record`. */
  function ScanLine(st: ScanState, ln: string): ScanState
  {
    match TagLine(ln)
    case Some((tag, value)) =>
      var cur := FieldOf(tag);
      if cur.Some? then ScanState(Append(st.values, cur.value, value), cur)
      else ScanState(st.values, None)
    case None =>
      if st.current == Some(TI) || st.current == Some(AB) then
        ScanState(Append(st.values, st.current.value, RStrip(ln)), st.current)
      else st
  }

  function ScanLines(lines: seq<string>): ScanState
  {
    if lines == [] then Start else ScanLine(ScanLines(lines[..|lines| - 1]), lines[|lines| - 1])
  }

  /** The tag of the last tagged line, whether or not it is one of the fields. */
  function LastTag(lines: seq<string>): Option<string>
  {
    if lines == [] then None
    else
      match TagLine(lines[|lines| - 1])
      case Some((tag, _)) => Some(tag)
      case None => LastTag(lines[..|lines| - 1])
  }

  /** Whether a line adds a value to field `f`, `last` being the tag of the last tagged line before
      it: a line tagged `f`, or for the title and the abstract an untagged line after a line tagged `f`. */
  predicate Contributes(last: Option<string>, ln: string, f: Field)
  {
    match TagLine(ln)
    case Some((tag, _)) => tag == TagOf(f)
    case None => (f == TI || f == AB) && last == Some(TagOf(f))
  }

  /** The value a contributing line adds. */
  function LineValue(ln: string): string
  {
    match TagLine(ln)
    case Some((_, value)) => value
    case None => RStrip(ln)
  }

  /** The values of field `f`, defined line by line. */
  function ValuesOf(lines: seq<string>, f: Field): seq<string>
  {
    if lines == [] then []
    else
      var n := |lines| - 1;
      ValuesOf(lines[..n], f) + (if Contributes(LastTag(lines[..n]), lines[n], f) then [LineValue(lines[n])] else [])
  }

  /** The field a tag names, if any. */
  function FieldAfter(last: Option<string>): Option<Field>
  {
    match last
    case None => None
    case Some(t) => FieldOf(t)
  }

  /** The scan's current field is the field of the last tagged line, if that tag is a field. */
  lemma {:induction false} CurrentIsLastTag(lines: seq<string>)
    ensures ScanLines(lines).current == FieldAfter(LastTag(lines))
  {
    if lines != [] {
      CurrentIsLastTag(lines[..|lines| - 1]);
    }
  }

  /** One step of the scan adds to `f` exactly what the line-by-line definition says. */
  lemma ScanLineGathers(st: ScanState, last: Option<string>, ln: string, f: Field)
    requires st.current == FieldAfter(last)
    ensures Get(ScanLine(st, ln).values, f)
            == Get(st.values, f) + (if Contributes(last, ln, f) then [LineValue(ln)] else [])
  {
    assert FieldOf(TagOf(f)) == Some(f);
    match TagLine(ln)
    case Some((tag, value)) => {
      if FieldOf(tag) == Some(f) {
        assert tag == TagOf(f);
      }
    }
    case None => {
      if last == Some(TagOf(f)) {
        assert st.current == Some(f);
      }
    }
  }

  /** The scan gathers exactly the values the line-by-line definition names. */
  lemma {:induction false} ScanGathers(lines: seq<string>, f: Field)
    ensures Get(ScanLines(lines).values, f) == ValuesOf(lines, f)
  {
    if lines != [] {
      var n := |lines| - 1;
      ScanGathers(lines[..n], f);
      CurrentIsLastTag(lines[..n]);
      ScanLineGathers(ScanLines(lines[..n]), LastTag(lines[..n]), lines[n], f);
    }
  }

  // ----- pick_doi -----

  /** First index at or after `i` that is whitespace. */
  function NonSpaceRunEnd(s: string, i: nat): (e: nat)
    requires i <= |s|
    ensures i <= e <= |s|
    ensures forall k :: i <= k < e ==> !IsSpace(s[k])
    ensures e < |s| ==> IsSpace(s[e])
    decreases |s| - i
  {
    if i == |s| || IsSpace(s[i]) then i else NonSpaceRunEnd(s, i + 1)
  }

  /** `10\.\d{4,9}/\S+` at `i`: the match, when there is one. */
  function DoiAt(s: string, i: nat): (r: Option<string>)
    requires i <= |s|
    ensures r.Some? ==> StartsWith(r.value, "10.") && '/' in r.value && |r.value| >= 9
  {
    if i + 3 <= |s| && s[i..i + 3] == "10." then
      var d := DigitRunEnd(s, i + 3);
      if 4 <= d - (i + 3) <= 9 && d + 1 < |s| && s[d] == '/' && !IsSpace(s[d + 1]) then
        var e := NonSpaceRunEnd(s, d + 1);
        var m := s[i..e];
        assert m[..3] == s[i..i + 3];
        assert m[d - i] == '/';
        Some(m)
      else None
    else None
  }

  /** The leftmost match at or after `i`, as its index. */
  function FirstDoi(s: string, i: nat): (r: Option<nat>)
    requires i <= |s|
    ensures r.Some? ==> i <= r.value <= |s| && DoiAt(s, r.value).Some?
    ensures forall j :: i <= j <= |s| && (r.None? || j < r.value) ==> DoiAt(s, j).None?
    decreases |s| - i
  {
    if DoiAt(s, i).Some? then Some(i)
    else if i == |s| then None
    else FirstDoi(s, i + 1)
  }

  /** `re.search` for a DOI in `v`. */
  predicate HasDoi(v: string)
  {
    FirstDoi(v, 0).Some?
  }

  const DoiTrailers: set<char> := {')', '.', ';', ']'}

  /** The leftmost DOI in a value that holds one. */
  function FirstMatch(v: string): (m: string)
    requires HasDoi(v)
    ensures StartsWith(m, "10.") && '/' in m
  {
    DoiAt(v, FirstDoi(v, 0).value).value
  }

  /** The match taken is the leftmost one. */
  lemma FirstMatchIsLeftmost(v: string, i: nat)
    requires i <= |v| && DoiAt(v, i).Some? && forall j: nat :: j < i ==> DoiAt(v, j).None?
    ensures HasDoi(v) && FirstMatch(v) == DoiAt(v, i).value
  {
  }

  /** `values[k]` is the first value that holds a DOI. */
  predicate FirstHolder(values: seq<string>, k: int)
  {
    0 <= k < |values| && HasDoi(values[k]) && forall j :: 0 <= j < k ==> !HasDoi(values[j])
  }

  /** What `pick_doi` can return besides the empty string: `10.`, a `/`, and no trailing `).;]`. */
  predicate DoiShaped(d: string)
  {
    d != [] && StartsWith(d, "10.") && '/' in d && d[|d| - 1] !in DoiTrailers
  }

  /** No value holds a DOI. */
  predicate NoDoi(values: seq<string>)
  {
    forall k :: 0 <= k < |values| ==> !HasDoi(values[k])
  }

  /** The DOI `pick_doi` returns for a value that holds one: the first match, trailing `).;]` removed. */
  function TrimmedDoi(v: string): (d: string)
    requires HasDoi(v)
    ensures DoiShaped(d)
  {
    var m := FirstMatch(v);
    DoiKeepsSlash(m);
    RStripChars(m, DoiTrailers)
  }

  /** `pick_doi`: the first value holding a DOI, with trailing `).;]` removed. */
  function PickDoi(values: seq<string>): (r: string)
    ensures r == [] <==> NoDoi(values)
    ensures r != [] ==> DoiShaped(r)
  {
    if values == [] then []
    else if HasDoi(values[0]) then TrimmedDoi(values[0])
    else
      PickDoiTail(values);
      PickDoi(values[1..])
  }

  lemma PickDoiTail(values: seq<string>)
    requires values != [] && !HasDoi(values[0])
    ensures NoDoi(values) <==> NoDoi(values[1..])
  {
    assert forall k :: 1 <= k < |values| ==> values[k] == values[1..][k - 1];
  }

  /** The DOI picked is the one of the first value that holds a DOI. */
  lemma {:induction false} PickDoiFirstHolder(values: seq<string>, k: nat)
    requires FirstHolder(values, k)
    ensures PickDoi(values) == TrimmedDoi(values[k])
  {
    if k > 0 {
      var rest := values[1..];
      assert FirstHolder(rest, k - 1) by {
        assert forall j :: 0 <= j < k - 1 ==> rest[j] == values[j + 1];
      }
      PickDoiFirstHolder(rest, k - 1);
    }
  }

  /** A value without a DOI is passed over. */
  lemma PickDoiSkips(v: string, rest: seq<string>)
    requires !HasDoi(v)
    ensures PickDoi([v] + rest) == PickDoi(rest)
  {
    assert ([v] + rest)[1..] == rest;
  }

  /** Once a value holds a DOI, the values after it do not matter. */
  lemma PickDoiFirstWins(v: string, rest: seq<string>)
    requires HasDoi(v)
    ensures PickDoi([v] + rest) == PickDoi([v])
  {
  }

  /** Stripping `).;]` from a match stops at its `/` at the latest. */
  lemma DoiKeepsSlash(m: string)
    requires StartsWith(m, "10.") && '/' in m
    ensures DoiShaped(RStripChars(m, DoiTrailers))
  {
    var t := RStripChars(m, DoiTrailers);
    var j :| 0 <= j < |m| && m[j] == '/';
    assert j < |t|;
    assert t[j] == m[j];
    assert 3 <= |t|;
    assert t[..3] == m[..3];
  }

  // ----- the record -----

  datatype Record = Record(title: string, summary: string, authors: seq<string>,
                           journal: string, date: string, doi: string)

  /** `cands[k]` is the first non-empty candidate. */
  predicate FirstNonEmpty(cands: seq<string>, k: int)
  {
    0 <= k < |cands| && cands[k] != [] && forall j :: 0 <= j < k ==> cands[j] == []
  }

  /** The first non-empty candidate, or empty when there is none. */
  function FirstFound(cands: seq<string>): (r: string)
    ensures r == [] <==> forall k :: 0 <= k < |cands| ==> cands[k] == []
    ensures forall k :: FirstNonEmpty(cands, k) ==> r == cands[k]
  {
    if cands == [] then []
    else if cands[0] != [] then cands[0]
    else
      var rest := cands[1..];
      assert forall k :: 1 <= k < |cands| ==> cands[k] == rest[k - 1];
      assert forall k :: FirstNonEmpty(cands, k) ==> FirstNonEmpty(rest, k - 1);
      FirstFound(rest)
  }

  /** The sources of the date, in the order they are tried: the publication date, then a year
      found in the DOI, the journal, the title and the abstract. */
  function DateCandidates(dateRaw: string, doi: string, journal: string, title: string, summary: string)
    : seq<string>
  {
    [DdMmYyyy(dateRaw), ExtractYear(doi), ExtractYear(journal), ExtractYear(title), ExtractYear(summary)]
  }

  /** The date chain of `_parse_medline_record`. */
  function ChooseDate(dateRaw: string, doi: string, journal: string, title: string, summary: string): (r: string)
    ensures r == [] || IsDdMmYyyy(r)
    ensures r == [] <==> DdMmYyyy(dateRaw) == [] && ExtractYear(doi) == [] && ExtractYear(journal) == []
                         && ExtractYear(title) == [] && ExtractYear(summary) == []
  {
    var d := DdMmYyyy(dateRaw);
    if d != [] then d
    else if ExtractYear(doi) != [] then ExtractYear(doi)
    else if ExtractYear(journal) != [] then ExtractYear(journal)
    else if ExtractYear(title) != [] then ExtractYear(title)
    else ExtractYear(summary)
  }

  /** The chain takes the first source that gives a date. */
  lemma ChooseDateTriesInOrder(dateRaw: string, doi: string, journal: string, title: string, summary: string)
    ensures ChooseDate(dateRaw, doi, journal, title, summary) == FirstFound(DateCandidates(dateRaw, doi, journal, title, summary))
  {
    FirstFoundOfFive(DdMmYyyy(dateRaw), ExtractYear(doi), ExtractYear(journal), ExtractYear(title), ExtractYear(summary));
  }

  /** Five candidates tried one after the other. */
  lemma FirstFoundOfFive(a: string, b: string, c: string, d: string, e: string)
    ensures FirstFound([a, b, c, d, e])
            == if a != [] then a else if b != [] then b else if c != [] then c else if d != [] then d else e
  {
    var cs := [a, b, c, d, e];
    if a != [] { assert FirstNonEmpty(cs, 0); }
    else if b != [] { assert FirstNonEmpty(cs, 1); }
    else if c != [] { assert FirstNonEmpty(cs, 2); }
    else if d != [] { assert FirstNonEmpty(cs, 3); }
    else if e != [] { assert FirstNonEmpty(cs, 4); }
  }

  /** `_parse_medline_record`. */
  function ParseMedline(text: string): (r: Record)
    ensures IsStripped(r.title) && IsStripped(r.summary) && IsStripped(r.journal)
    ensures forall k :: 0 <= k < |r.authors| ==> r.authors[k] != [] && IsStripped(r.authors[k])
    ensures r.date == [] || IsDdMmYyyy(r.date)
    ensures r.doi == [] || (StartsWith(r.doi, "10.") && '/' in r.doi)
  {
    var v := ScanLines(SplitLines(text)).values;
    var title := Strip(Join(" ", v.ti));
    var summary := CleanAbstract(Strip(Join(" ", v.ab)));
    var journal := Strip(Join(" ", v.jt));
    var dateRaw := Strip(Join(" ", v.dp));
    var doiLid := PickDoi(v.lid);
    var doi := if doiLid != [] then doiLid else PickDoi(v.aid);
    Record(title, summary, KeptAuthors(v.au), journal,
           ChooseDate(dateRaw, doi, journal, title, summary), doi)
  }

  /** The record as the scan's values give it. */
  lemma ParsedFromScan(text: string)
    ensures var v := ScanLines(SplitLines(text)).values;
            var r := ParseMedline(text);
            var lid := PickDoi(v.lid);
            && r.doi == (if lid != [] then lid else PickDoi(v.aid))
            && r.title == Strip(Join(" ", v.ti))
            && r.summary == CleanAbstract(Strip(Join(" ", v.ab)))
            && r.authors == KeptAuthors(v.au)
            && r.journal == Strip(Join(" ", v.jt))
            && r.date == ChooseDate(Strip(Join(" ", v.dp)), r.doi, r.journal, r.title, r.summary)
  {
  }

  /** Each field's values in the scan are the ones the lines give it. */
  lemma ScanFields(lines: seq<string>)
    ensures var v := ScanLines(lines).values;
            && v.ti == ValuesOf(lines, TI) && v.ab == ValuesOf(lines, AB) && v.au == ValuesOf(lines, AU)
            && v.jt == ValuesOf(lines, JT) && v.dp == ValuesOf(lines, DP)
            && v.lid == ValuesOf(lines, LID) && v.aid == ValuesOf(lines, AID)
  {
    ScanGathers(lines, TI);
    ScanGathers(lines, AB);
    ScanGathers(lines, AU);
    ScanGathers(lines, JT);
    ScanGathers(lines, DP);
    ScanGathers(lines, LID);
    ScanGathers(lines, AID);
  }

  /** A DOI from the `LID` lines wins over one from the `AID` lines. */
  lemma LidBeforeAid(text: string)
    ensures var lines := SplitLines(text);
            var lid := PickDoi(ValuesOf(lines, LID));
            ParseMedline(text).doi == if lid != [] then lid else PickDoi(ValuesOf(lines, AID))
  {
    ParsedFromScan(text);
    ScanFields(SplitLines(text));
  }

  /** Every other field of the record, read off the values the lines give it. */
  lemma FieldsFromLines(text: string)
    ensures var lines := SplitLines(text);
            var r := ParseMedline(text);
            && r.title == Strip(Join(" ", ValuesOf(lines, TI)))
            && r.summary == CleanAbstract(Strip(Join(" ", ValuesOf(lines, AB))))
            && r.authors == KeptAuthors(ValuesOf(lines, AU))
            && r.journal == Strip(Join(" ", ValuesOf(lines, JT)))
            && r.date == ChooseDate(Strip(Join(" ", ValuesOf(lines, DP))), r.doi, r.journal, r.title, r.summary)
  {
    ParsedFromScan(text);
    ScanFields(SplitLines(text));
  }

  lemma ValuesOfSnoc(lines: seq<string>, ln: string, f: Field)
    ensures ValuesOf(lines + [ln], f)
            == ValuesOf(lines, f) + (if Contributes(LastTag(lines), ln, f) then [LineValue(ln)] else [])
  {
    assert (lines + [ln])[..|lines|] == lines;
  }

  lemma LastTagSnoc(lines: seq<string>, ln: string)
    ensures LastTag(lines + [ln]) == if TagLine(ln).Some? then Some(TagLine(ln).value.0) else LastTag(lines)
  {
    assert (lines + [ln])[..|lines|] == lines;
  }

  /** An untagged line after a title line continues the title with the line as it stands,
      trailing blanks removed and leading indentation kept. */
  lemma ContinuationLine(lines: seq<string>, ln: string)
    requires LastTag(lines) == Some("TI") && TagLine(ln) == None
    ensures ValuesOf(lines + [ln], TI) == ValuesOf(lines, TI) + [RStrip(ln)]
    ensures !AllSpace(ln) ==> RStrip(ln)[0] == ln[0]
  {
    ValuesOfSnoc(lines, ln, TI);
    if !AllSpace(ln) {
      assert RStrip(ln) != [];
    }
  }

  /** The first tagged line opens its field with its value. */
  lemma FirstTaggedLine(tl: string, v: string)
    requires TagLine(tl) == Some(("TI", v))
    ensures ValuesOf([tl], TI) == [v] && LastTag([tl]) == Some("TI")
  {
    ValuesOfSnoc([], tl, TI);
    LastTagSnoc([], tl);
    assert [] + [tl] == [tl];
  }

  // ----- collect_pubmed_html -----

  /** What one trending page request gives: the text of each results block, or an error. */
  datatype PageResponse = Blocks(texts: seq<string>) | RequestFailed

  /** A record is kept only with an abstract, a date and a DOI. */
  predicate Usable(m: Record)
  {
    m.summary != [] && m.date != [] && m.doi != []
  }

  /** The row written for a kept record: DOI, title, authors, abstract, journal, date. */
  function RowOf(m: Record): Row
  {
    Row(m.doi, m.title, NormalizeAuthors(m.authors), m.summary, m.journal, m.date)
  }

  /** What the filter guarantees of a row: a DOI, an abstract and a `dd/mm/yyyy` date. */
  predicate Complete(row: Row)
  {
    row.doi != [] && row.summary != [] && IsDdMmYyyy(row.date)
  }

  /** The rows one block yields, in record order. */
  function BlockRows(block: string): seq<Row>
  {
    UsableRows(SplitRecords(block), ParseMedline)
  }

  /** The rows of the usable records, each record read by `parse`. */
  function UsableRows(records: seq<string>, parse: string -> Record): (r: seq<Row>)
    ensures |r| <= |records|
  {
    if records == [] then []
    else
      var m := parse(records[0]);
      (if Usable(m) then [RowOf(m)] else []) + UsableRows(records[1..], parse)
  }

  /** A parser whose dates are empty or `dd/mm/yyyy`, as `ParseMedline`'s are. */
  ghost predicate DatesWellFormed(parse: string -> Record)
  {
    forall t :: parse(t).date == [] || IsDdMmYyyy(parse(t).date)
  }

  /** Every row the records yield is complete. */
  lemma {:induction false} UsableRowsComplete(records: seq<string>, parse: string -> Record)
    requires DatesWellFormed(parse)
    ensures forall i :: 0 <= i < |UsableRows(records, parse)| ==> Complete(UsableRows(records, parse)[i])
  {
    if records != [] {
      var m := parse(records[0]);
      var head := if Usable(m) then [RowOf(m)] else [];
      var tail := UsableRows(records[1..], parse);
      UsableRowsComplete(records[1..], parse);
      assert UsableRows(records, parse) == head + tail;
      assert forall i :: 0 <= i < |head| ==> Complete(head[i]);
    }
  }

  lemma ParsedDatesWellFormed()
    ensures DatesWellFormed(ParseMedline)
  {
  }

  /** Every row a page's blocks yield is complete. */
  lemma {:induction false} PageRowsComplete(blocks: seq<string>)
    ensures forall i :: 0 <= i < |PageRows(blocks)| ==> Complete(PageRows(blocks)[i])
  {
    if blocks != [] {
      ParsedDatesWellFormed();
      UsableRowsComplete(SplitRecords(blocks[0]), ParseMedline);
      PageRowsComplete(blocks[1..]);
    }
  }

  /** Reading the rows of any page gives only complete rows. */
  ghost predicate YieldsComplete(rowsOf: seq<string> -> seq<Row>)
  {
    forall b, i :: 0 <= i < |rowsOf(b)| ==> Complete(rowsOf(b)[i])
  }

  lemma PageRowsYieldComplete()
    ensures YieldsComplete(PageRows)
  {
    forall b, i | 0 <= i < |PageRows(b)| ensures Complete(PageRows(b)[i]) {
      PageRowsComplete(b);
    }
  }

  lemma {:induction false} RowsOfPagesComplete(pages: seq<PageResponse>, n: nat, rowsOf: seq<string> -> seq<Row>)
    requires n <= |pages| && YieldsComplete(rowsOf)
    ensures forall i :: 0 <= i < |RowsOfPages(pages, n, rowsOf)| ==> Complete(RowsOfPages(pages, n, rowsOf)[i])
  {
    if n > 0 {
      RowsOfPagesComplete(pages, n - 1, rowsOf);
      var a := RowsOfPages(pages, n - 1, rowsOf);
      var b := rowsOf(TextsOf(pages[n - 1]));
      assert forall i :: |a| <= i < |a + b| ==> (a + b)[i] == b[i - |a|];
    }
  }

  /** The collected rows are complete whenever the page reader's rows are. */
  lemma ExpectedComplete(pages: seq<PageResponse>, required: nat, rowsOf: seq<string> -> seq<Row>)
    requires YieldsComplete(rowsOf)
    ensures var r := Expected(pages, required, rowsOf);
            r.Success? ==> forall i :: 0 <= i < |r.value| ==> Complete(r.value[i])
  {
    RowsOfPagesComplete(pages, ResultPages(pages), rowsOf);
  }

  /** The rows of all blocks of a page, in order. */
  function PageRows(blocks: seq<string>): seq<Row>
  {
    if blocks == [] then [] else BlockRows(blocks[0]) + PageRows(blocks[1..])
  }

  /** The response to page `p` (counted from 1): the recorded ones, then pages without results. */
  function Fetch(pages: seq<PageResponse>, p: nat): PageResponse
  {
    if 1 <= p <= |pages| then pages[p - 1] else Blocks([])
  }

  predicate HasResults(resp: PageResponse)
  {
    resp.Blocks? && resp.texts != []
  }

  /** The number of pages read before the first failed or empty one. */
  function ResultPages(pages: seq<PageResponse>): (n: nat)
    ensures n <= |pages|
    ensures forall k :: 0 <= k < n ==> HasResults(pages[k])
    ensures n < |pages| ==> !HasResults(pages[n])
  {
    if pages == [] || !HasResults(pages[0]) then 0
    else
      var n := ResultPages(pages[1..]);
      assert forall k :: 1 <= k < n + 1 ==> pages[k] == pages[1..][k - 1];
      1 + n
  }

  function TextsOf(resp: PageResponse): seq<string>
  {
    if resp.Blocks? then resp.texts else []
  }

  /** All rows the first `n` pages yield, `rowsOf` reading the rows out of one page's blocks. */
  function RowsOfPages(pages: seq<PageResponse>, n: nat, rowsOf: seq<string> -> seq<Row>): seq<Row>
    requires n <= |pages|
  {
    if n == 0 then [] else RowsOfPages(pages, n - 1, rowsOf) + rowsOf(TextsOf(pages[n - 1]))
  }

  /** What `collect_pubmed_html` returns: the first `required` rows of the pages read before an empty
      page; it fails only when a request fails before the quota is met. */
  function Expected(pages: seq<PageResponse>, required: nat, rowsOf: seq<string> -> seq<Row>)
    : Result<seq<Row>, string>
  {
    var n := ResultPages(pages);
    var all := RowsOfPages(pages, n, rowsOf);
    if |all| >= required then Success(all[..required])
    else if n < |pages| && pages[n].RequestFailed? then Failure("request failed")
    else Success(all)
  }

  /** `collect_pubmed_html`, with the page requests replaced by a list of responses. */
  method CollectPubMed(pages: seq<PageResponse>, required: nat) returns (r: Result<seq<Row>, string>)
    ensures r == Expected(pages, required, PageRows)
    ensures r.Success? ==> |r.value| <= required
    ensures r.Success? ==> forall i :: 0 <= i < |r.value| ==> Complete(r.value[i])
  {
    r := CollectPages(pages, required, PageRows);
    PageRowsYieldComplete();
    ExpectedComplete(pages, required, PageRows);
  }

  /** The paging loop of `collect_pubmed_html` for any way of reading rows out of a page. */
  method CollectPages(pages: seq<PageResponse>, required: nat, rowsOf: seq<string> -> seq<Row>)
    returns (r: Result<seq<Row>, string>)
    ensures r == Expected(pages, required, rowsOf)
    ensures r.Success? ==> |r.value| <= required
  {
    ghost var n := ResultPages(pages);
    ghost var all := RowsOfPages(pages, n, rowsOf);
    var rows: seq<Row> := [];
    var page: nat := 1;
    while |rows| < required
      invariant 1 <= page <= n + 1
      invariant rows == RowsOfPages(pages, page - 1, rowsOf)
      invariant rows <= all
      decreases n + 1 - page
    {
      var resp := Fetch(pages, page);
      FetchStops(pages, page);
      if resp.RequestFailed? {
        ExpectedWhenExhausted(pages, required, rowsOf);
        return Failure("request failed");
      }
      if resp.texts == [] {
        ExpectedWhenExhausted(pages, required, rowsOf);
        return Success(rows);
      }
      rows := rows + rowsOf(resp.texts);
      page := page + 1;
      RowsPrefix(pages, page - 1, n, rowsOf);
    }
    ExpectedWhenQuotaMet(pages, required, rows, rowsOf);
    r := Success(rows[..required]);
  }

  /** Once the quota is met, the answer is the first `required` rows gathered so far. */
  lemma ExpectedWhenQuotaMet(pages: seq<PageResponse>, required: nat, rows: seq<Row>,
                             rowsOf: seq<string> -> seq<Row>)
    requires rows <= RowsOfPages(pages, ResultPages(pages), rowsOf) && |rows| >= required
    ensures Expected(pages, required, rowsOf) == Success(rows[..required])
  {
    var all := RowsOfPages(pages, ResultPages(pages), rowsOf);
    assert all[..required] == rows[..required];
  }

  /** When the pages run out below the quota, the answer is every row, or the failure that stopped it. */
  lemma ExpectedWhenExhausted(pages: seq<PageResponse>, required: nat, rowsOf: seq<string> -> seq<Row>)
    requires |RowsOfPages(pages, ResultPages(pages), rowsOf)| < required
    ensures var n := ResultPages(pages);
            Expected(pages, required, rowsOf)
            == if Fetch(pages, n + 1).RequestFailed? then Failure("request failed") else Success(RowsOfPages(pages, n, rowsOf))
  {
  }

  /** A page yields results exactly while the pages before it all did. */
  lemma FetchStops(pages: seq<PageResponse>, page: nat)
    requires 1 <= page <= ResultPages(pages) + 1
    ensures HasResults(Fetch(pages, page)) <==> page <= ResultPages(pages)
  {
  }

  /** Rows only accumulate: the rows of fewer pages are a prefix of the rows of more. */
  lemma {:induction false} RowsPrefix(pages: seq<PageResponse>, m: nat, n: nat, rowsOf: seq<string> -> seq<Row>)
    requires m <= n <= |pages|
    ensures RowsOfPages(pages, m, rowsOf) <= RowsOfPages(pages, n, rowsOf)
    decreases n - m
  {
    if m < n {
      RowsPrefix(pages, m, n - 1, rowsOf);
      var x := RowsOfPages(pages, n - 1, rowsOf);
      assert x <= RowsOfPages(pages, n, rowsOf);
    }
  }

  /** The header `save_pubmed_corpus` writes. */
  const Header: seq<string> := ["DOI", "Title", "Authors", "Abstract", "Journal", "Date"]

  /** A saved complete row has one cell per header column: the DOI first and the date, unchanged,
      last. */
  lemma SavedRow(rows: seq<Row>, i: nat)
    requires i < |rows| && Complete(rows[i])
    ensures var rec := TsvRecords(CellRows(rows), Header)[i + 1];
            |rec| == |Header| && rec[0] == CleanCell(Some(rows[i].doi)) && rec[3] == CleanCell(Some(rows[i].summary))
            && rec[5] == rows[i].date
  {
    assert TsvRecords(CellRows(rows), Header)[i + 1] == PadRow(Cells(rows[i]), |Header|);
    SavedCells(rows[i]);
  }

  lemma SavedCells(row: Row)
    requires Complete(row)
    ensures var rec := PadRow(Cells(row), |Header|);
            |rec| == |Header| && rec[0] == CleanCell(Some(row.doi)) && rec[3] == CleanCell(Some(row.summary))
            && rec[5] == row.date
  {
    var c := Cells(row);
    var rec := PadRow(c, |Header|);
    assert rec[0] == CleanCell(c[0]) && rec[3] == CleanCell(c[3]) && rec[5] == CleanCell(c[5]);
    DateCellIsClean(row.date);
  }

  /** A `dd/mm/yyyy` date is left as it is by the cell cleaning. */
  lemma DateCellIsClean(d: string)
    requires IsDdMmYyyy(d)
    ensures CleanCell(Some(d)) == d
  {
    DateHasNoBreakNorBlank(d);
  }

  /** A `dd/mm/yyyy` date has no line break and no blank at either end. */
  lemma DateHasNoBreakNorBlank(d: string)
    requires IsDdMmYyyy(d)
    ensures '\n' !in d && '\r' !in d && IsStripped(d)
  {
    forall k | 0 <= k < |d| ensures IsDigit(d[k]) || d[k] == '/' {
      if k >= 6 { assert d[k] == d[6..][k - 6]; }
    }
  }
}
