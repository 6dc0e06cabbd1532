/** The chapter resolver and pipeline of epub_trans.py, whose get_text
    audio.py repeats line for line. The table of contents is flattened two
    levels deep into `chapters`, a list of hrefs; the document names are
    scanned once, in order, matching each href in turn (`ch_links`); the
    chosen chapter is the run of documents from its match up to the
    next chapter's match, or to the end of the book for the last chapter. */
module EpubTrans {
  import opened Results
  import opened Text
  import opened Extract
  import opened Book
  import opened Prompt
  import Sentences
  import Chunker

  /** Characters per request sent to the speech service. */
  const MaxChar: nat := 5000

  predicate AllLinks(items: seq<TocItem>) {
    forall k :: 0 <= k < |items| ==> items[k].Link?
  }

  function LinkHrefs(items: seq<TocItem>): (hs: seq<string>)
    ensures |hs| == |items| && forall k :: 0 <= k < |items| ==> hs[k] == items[k].href
  {
    seq(|items|, k requires 0 <= k < |items| => items[k].href)
  }

  /** What one top-level entry adds to `chapters`: a link its href; a tuple
      its section's href and then each child's href. A child that is itself a
      tuple has no title, so printing it raises AttributeError. */
  function FlatEntry(item: TocItem): Result<seq<string>> {
    match item
    case Link(_, href) => Ok([href])
    case Section(_, href, children) =>
      if AllLinks(children) then Ok([href] + LinkHrefs(children)) else Err(AttributeError)
  }

  /** The `chapters` list the flatten loop builds, entry by entry. */
  function Flatten(toc: seq<TocItem>): (r: Result<seq<string>>)
    ensures r.Err? ==> r.error == AttributeError
    decreases |toc|
  {
    if toc == [] then Ok([])
    else
      match Flatten(toc[..|toc| - 1])
      case Err(e) => Err(e)
      case Ok(cs) =>
        match FlatEntry(toc[|toc| - 1])
        case Err(e) => Err(e)
        case Ok(hs) => Ok(cs + hs)
  }

  /** A table of contents no more than two levels deep: no tuple inside a
      tuple. */
  predicate Shallow(toc: seq<TocItem>) {
    forall k :: 0 <= k < |toc| ==> toc[k].Section? ==> AllLinks(toc[k].children)
  }

  /** Once an entry fails, the whole flatten fails with that error. */
  lemma {:induction false} FlattenStaysErr(toc: seq<TocItem>, n: nat)
    requires n <= |toc| && Flatten(toc[..n]).Err?
    ensures Flatten(toc) == Flatten(toc[..n])
    decreases |toc| - n
  {
    if n < |toc| {
      assert toc[..n + 1][..n] == toc[..n];
      FlattenStaysErr(toc, n + 1);
    } else {
      assert toc[..n] == toc;
    }
  }

  lemma {:induction false} HrefsSnoc(items: seq<TocItem>, x: TocItem)
    ensures Hrefs(items + [x]) == Hrefs(items) + ItemHrefs(x)
    decreases |items|
  {
    if items == [] {
      assert [x][1..] == [];
      assert ItemHrefs(x) + [] == ItemHrefs(x);
    } else {
      assert (items + [x])[1..] == items[1..] + [x];
      HrefsSnoc(items[1..], x);
      assert ItemHrefs(items[0]) + (Hrefs(items[1..]) + ItemHrefs(x))
        == ItemHrefs(items[0]) + Hrefs(items[1..]) + ItemHrefs(x);
    }
  }

  lemma {:induction false} HrefsOfLinks(items: seq<TocItem>)
    requires AllLinks(items)
    ensures Hrefs(items) == LinkHrefs(items)
    decreases |items|
  {
    if items != [] {
      HrefsOfLinks(items[1..]);
      assert LinkHrefs(items) == [items[0].href] + LinkHrefs(items[1..]);
    }
  }

  /** The flatten succeeds exactly on tables of contents at most two levels
      deep, and then lists every href depth first, as the walk of epub_mp3.py
      visits them. */
  lemma {:induction false} FlattenShallow(toc: seq<TocItem>)
    ensures Flatten(toc).Ok? <==> Shallow(toc)
    ensures Shallow(toc) ==> Flatten(toc) == Ok(Hrefs(toc))
    decreases |toc|
  {
    if toc != [] {
      var init, last := toc[..|toc| - 1], toc[|toc| - 1];
      FlattenShallow(init);
      assert toc == init + [last];
      HrefsSnoc(init, last);
      assert Shallow(toc) <==> Shallow(init) && (last.Section? ==> AllLinks(last.children)) by {
        assert forall k :: 0 <= k < |init| ==> init[k] == toc[k];
      }
      if last.Section? && AllLinks(last.children) {
        HrefsOfLinks(last.children);
      }
    }
  }

  /** One more entry of the flatten loop. */
  lemma FlattenStep(toc: seq<TocItem>, i: nat, cs: seq<string>)
    requires i < |toc| && Flatten(toc[..i]) == Ok(cs)
    ensures FlatEntry(toc[i]).Ok? ==> Flatten(toc[..i + 1]) == Ok(cs + FlatEntry(toc[i]).value)
    ensures FlatEntry(toc[i]).Err? ==> Flatten(toc[..i + 1]).Err?
  {
    assert toc[..i + 1][..i] == toc[..i];
  }

  lemma LinkHrefsSnoc(items: seq<TocItem>, k: nat)
    requires k < |items|
    ensures AllLinks(items[..k + 1]) <==> AllLinks(items[..k]) && items[k].Link?
    ensures LinkHrefs(items[..k + 1]) == LinkHrefs(items[..k]) + [items[k].href]
  {
    assert items[..k + 1] == items[..k] + [items[k]];
  }

  /** The flatten loop of get_text. */
  method ListChapters(toc: seq<TocItem>) returns (r: Result<seq<string>>)
    ensures r == Flatten(toc)
  {
    var chapters: seq<string> := [];
    for i := 0 to |toc|
      invariant Flatten(toc[..i]) == Ok(chapters)
    {
      var ch := toc[i];
      FlattenStep(toc, i, chapters);
      if ch.Section? {
        ghost var before := chapters;
        chapters := chapters + [ch.href];
        var children := ch.children;
        for k := 0 to |children|
          invariant AllLinks(children[..k])
          invariant chapters == before + [ch.href] + LinkHrefs(children[..k])
        {
          if children[k].Section? {
            FlattenStaysErr(toc, i + 1);
            return Err(AttributeError);
          }
          LinkHrefsSnoc(children, k);
          chapters := chapters + [children[k].href];
        }
        assert children[..|children|] == children;
        assert chapters == before + ([ch.href] + LinkHrefs(children));
      } else {
        chapters := chapters + [ch.href];
      }
    }
    assert toc[..|toc|] == toc;
    return Ok(chapters);
  }

  /** Strictly increasing positions. */
  predicate Increasing(s: seq<nat>) {
    forall a, b :: 0 <= a < b < |s| ==> s[a] < s[b]
  }

  function Extend(p: seq<nat>, r: Result<seq<nat>>): Result<seq<nat>> {
    match r
    case Err(e) => Err(e)
    case Ok(l) => Ok(p + l)
  }

  /** The `ch_links` scan from document position j with i chapters matched so
      far: a file name equal to the next chapter's href is recorded and the
      scan moves on to the chapter after; once every chapter is matched the
      scan stops. Indexing `chapters` past its end raises IndexError, which
      can happen only when there are no chapters at all. */
  function MatchFrom(names: seq<string>, chapters: seq<string>, j: nat, i: nat): (r: Result<seq<nat>>)
    requires j <= |names| && i <= |chapters|
    ensures r.Ok? ==> var l := r.value;
      && |l| <= |chapters| - i
      && Increasing(l)
      && (forall k :: 0 <= k < |l| ==> j <= l[k] < |names| && names[l[k]] == chapters[i + k])
    ensures r.Err? ==> r.error == IndexError
    decreases |names| - j
  {
    if j == |names| then Ok([])
    else if i == |chapters| then Err(IndexError)
    else if names[j] == chapters[i] then
      if i + 1 == |chapters| then Ok([j])
      else Extend([j], MatchFrom(names, chapters, j + 1, i + 1))
    else MatchFrom(names, chapters, j + 1, i)
  }

  /** `ch_links` for the document names and the flattened hrefs. */
  function Match(names: seq<string>, chapters: seq<string>): Result<seq<nat>> {
    MatchFrom(names, chapters, 0, 0)
  }

  lemma ExtendAssoc(p: seq<nat>, j: nat, r: Result<seq<nat>>)
    ensures Extend(p, Extend([j], r)) == Extend(p + [j], r)
  {
    if r.Ok? {
      assert p + ([j] + r.value) == p + [j] + r.value;
    }
  }

  /** The matching loop of get_text, with its early break. */
  method MatchChapters(names: seq<string>, chapters: seq<string>) returns (r: Result<seq<nat>>)
    ensures r == Match(names, chapters)
  {
    var i: nat := 0;
    var chLinks: seq<nat> := [];
    var j: nat := 0;
    ghost var m := MatchFrom(names, chapters, 0, 0);
    if m.Ok? {
      assert [] + m.value == m.value;
    }
    while j < |names|
      invariant j <= |names| && i <= |chapters|
      invariant Match(names, chapters) == Extend(chLinks, MatchFrom(names, chapters, j, i))
    {
      if i >= |chapters| {
        return Err(IndexError);
      }
      if names[j] == chapters[i] {
        if i + 1 == |chapters| {
          assert Match(names, chapters) == Ok(chLinks + [j]);
          return Ok(chLinks + [j]);
        }
        ExtendAssoc(chLinks, j, MatchFrom(names, chapters, j + 1, i + 1));
        chLinks := chLinks + [j];
        i := i + 1;
      }
      j := j + 1;
    }
    assert chLinks + [] == chLinks;
    return Ok(chLinks);
  }

  /** With at least one chapter the scan never fails; with none it fails as
      soon as there is a document to compare. */
  lemma {:induction false} MatchFromOk(names: seq<string>, chapters: seq<string>, j: nat, i: nat)
    requires j <= |names| && i < |chapters|
    ensures MatchFrom(names, chapters, j, i).Ok?
    decreases |names| - j
  {
    if j < |names| {
      if names[j] == chapters[i] {
        if i + 1 < |chapters| {
          MatchFromOk(names, chapters, j + 1, i + 1);
        }
      } else {
        MatchFromOk(names, chapters, j + 1, i);
      }
    }
  }

  lemma MatchErr(names: seq<string>, chapters: seq<string>)
    ensures Match(names, chapters).Err? <==> chapters == [] && names != []
  {
    if chapters != [] {
      MatchFromOk(names, chapters, 0, 0);
    }
  }

  /** The smallest position the k-th match could take: the start of the
      scan, or just after the previous match. */
  function Lower(l: seq<nat>, k: nat, j: nat): nat
    requires k <= |l|
  {
    if k == 0 then j else l[k - 1] + 1
  }

  /** No file name in lo..hi-1 equals c. */
  predicate Unmatched(names: seq<string>, c: string, lo: nat, hi: nat)
    requires hi <= |names|
  {
    forall p :: lo <= p < hi ==> names[p] != c
  }

  /** The k-th match is the first position, from just after the previous
      match, whose file name equals chapter i + k. */
  ghost predicate FirstAfter(names: seq<string>, chapters: seq<string>, j: nat, i: nat, l: seq<nat>, k: nat)
    requires k < |l| && l[k] < |names|
  {
    Lower(l, k, j) <= l[k] && i + k < |chapters| && Unmatched(names, chapters[i + k], Lower(l, k, j), l[k])
  }

  /** The scan is greedy: each match is the first equal file name after the
      previous match, and a chapter left unmatched has no equal file name
      after the last match. */
  ghost predicate Greedy(names: seq<string>, chapters: seq<string>, j: nat, i: nat, l: seq<nat>)
    requires i <= |chapters|
    requires forall k :: 0 <= k < |l| ==> l[k] < |names|
  {
    && (forall k :: 0 <= k < |l| ==> FirstAfter(names, chapters, j, i, l, k))
    && (i + |l| < |chapters| ==> Unmatched(names, chapters[i + |l|], Lower(l, |l|, j), |names|))
  }

  /** A match at j followed by a greedy scan from j + 1 is greedy from j. */
  lemma GreedyCons(names: seq<string>, chapters: seq<string>, j: nat, i: nat, t: seq<nat>)
    requires j < |names| && i + 1 < |chapters| && names[j] == chapters[i]
    requires forall k :: 0 <= k < |t| ==> j < t[k] < |names|
    requires Greedy(names, chapters, j + 1, i + 1, t)
    ensures Greedy(names, chapters, j, i, [j] + t)
  {
    var l := [j] + t;
    forall k | 0 <= k < |l|
      ensures FirstAfter(names, chapters, j, i, l, k)
    {
      if k > 0 {
        assert l[k] == t[k - 1] && Lower(l, k, j) == Lower(t, k - 1, j + 1);
        assert FirstAfter(names, chapters, j + 1, i + 1, t, k - 1);
      }
    }
    assert Lower(l, |l|, j) == Lower(t, |t|, j + 1);
  }

  /** Skipping a file name that differs from the next chapter keeps the scan
      greedy. */
  lemma GreedySkip(names: seq<string>, chapters: seq<string>, j: nat, i: nat, t: seq<nat>)
    requires j < |names| && i < |chapters| && names[j] != chapters[i]
    requires forall k :: 0 <= k < |t| ==> j < t[k] < |names|
    requires Greedy(names, chapters, j + 1, i, t)
    ensures Greedy(names, chapters, j, i, t)
  {
    if t != [] {
      assert FirstAfter(names, chapters, j + 1, i, t, 0);
      forall k | 0 <= k < |t|
        ensures FirstAfter(names, chapters, j, i, t, k)
      {
        if k > 0 {
          assert FirstAfter(names, chapters, j + 1, i, t, k);
        }
      }
    }
  }

  lemma {:induction false} MatchFromGreedy(names: seq<string>, chapters: seq<string>, j: nat, i: nat)
    requires j <= |names| && i <= |chapters|
    ensures var r := MatchFrom(names, chapters, j, i);
      r.Ok? ==> Greedy(names, chapters, j, i, r.value)
    decreases |names| - j
  {
    var r := MatchFrom(names, chapters, j, i);
    if j < |names| && i < |chapters| && r.Ok? {
      if names[j] == chapters[i] {
        if i + 1 < |chapters| {
          var t := MatchFrom(names, chapters, j + 1, i + 1);
          MatchFromGreedy(names, chapters, j + 1, i + 1);
          GreedyCons(names, chapters, j, i, t.value);
        } else {
          assert FirstAfter(names, chapters, j, i, r.value, 0);
        }
      } else {
        MatchFromGreedy(names, chapters, j + 1, i);
        GreedySkip(names, chapters, j, i, r.value);
      }
    }
  }

  /** `ch_links` as the scan finds it: increasing, each entry the first
      file name after the previous one that equals its chapter's href, and
      a chapter left unmatched equals no file name after the last match. */
  lemma MatchGreedy(names: seq<string>, chapters: seq<string>)
    ensures var r := Match(names, chapters);
      r.Ok? ==> var l := r.value;
        && |l| <= |chapters| && Increasing(l)
        && (forall k :: 0 <= k < |l| ==> l[k] < |names| && names[l[k]] == chapters[k])
        && Greedy(names, chapters, 0, 0, l)
  {
    MatchFromGreedy(names, chapters, 0, 0);
  }

  /** chapters occurs, in order, among the file names. */
  ghost predicate Embedding(idx: seq<nat>, chapters: seq<string>, names: seq<string>) {
    && |idx| == |chapters| && Increasing(idx)
    && forall k :: 0 <= k < |idx| ==> idx[k] < |names| && names[idx[k]] == chapters[k]
  }

  ghost predicate Embeds(chapters: seq<string>, names: seq<string>) {
    exists idx :: Embedding(idx, chapters, names)
  }

  /** If chapters[i..] occurs in order among the file names from position j
      on, the scan from there matches all of it. */
  lemma {:induction false} MatchFromComplete(names: seq<string>, chapters: seq<string>, j: nat, i: nat, idx: seq<nat>)
    requires j <= |names| && i < |chapters|
    requires |idx| == |chapters| - i && Increasing(idx)
    requires forall k :: 0 <= k < |idx| ==> j <= idx[k] < |names| && names[idx[k]] == chapters[i + k]
    ensures MatchFrom(names, chapters, j, i).Ok?
    ensures |MatchFrom(names, chapters, j, i).value| == |chapters| - i
    decreases |names| - j
  {
    assert j <= idx[0] < |names|;
    if names[j] == chapters[i] {
      if i + 1 < |chapters| {
        var rest := idx[1..];
        forall k | 0 <= k < |rest| ensures j + 1 <= rest[k] < |names| && names[rest[k]] == chapters[i + 1 + k] {
          assert rest[k] == idx[k + 1] && idx[0] < idx[k + 1];
        }
        MatchFromComplete(names, chapters, j + 1, i + 1, rest);
      }
    } else {
      assert idx[0] != j;
      MatchFromComplete(names, chapters, j + 1, i, idx);
    }
  }

  /** Every chapter is matched exactly when the hrefs occur, in order, among
      the document names: the greedy scan misses no possible match. */
  lemma MatchComplete(names: seq<string>, chapters: seq<string>)
    requires chapters != []
    ensures Match(names, chapters).Ok?
    ensures |Match(names, chapters).value| == |chapters| <==> Embeds(chapters, names)
  {
    MatchErr(names, chapters);
    var l := Match(names, chapters).value;
    if |l| == |chapters| {
      assert Embedding(l, chapters, names);
    }
    if Embeds(chapters, names) {
      var idx :| Embedding(idx, chapters, names);
      MatchFromComplete(names, chapters, 0, 0, idx);
    }
  }

  /** Python's s[i]: negative positions count from the end. */
  function PyIndex(s: seq<nat>, i: int): Result<nat> {
    if 0 <= i < |s| then Ok(s[i])
    else if -|s| <= i < 0 then Ok(s[|s| + i])
    else Err(IndexError)
  }

  function Min(a: int, b: int): int {
    if a < b then a else b
  }

  /** The documents of the chosen chapter: `links[ch_links[sel]:]` when sel
      names the last chapter, `links[ch_links[sel]:ch_links[sel + 1]]`
      otherwise. sel itself is not checked; the slices clamp to the document list. */
  function Select(chLinks: seq<nat>, count: nat, docCount: nat, sel: int): (r: Result<seq<int>>)
    ensures r.Ok? ==> forall k :: 0 <= k < |r.value| ==> 0 <= r.value[k] < docCount
    ensures r.Err? ==> r.error == IndexError
  {
    if sel == count - 1 then
      match PyIndex(chLinks, sel)
      case Err(e) => Err(e)
      case Ok(lo) => Ok(Range(lo, docCount))
    else
      match PyIndex(chLinks, sel)
      case Err(e) => Err(e)
      case Ok(lo) =>
        match PyIndex(chLinks, sel + 1)
        case Err(e) => Err(e)
        case Ok(hi) => Ok(Range(lo, Min(hi, docCount)))
  }

  /** When the chapter after the last matched one went unmatched, choosing
      the last matched chapter looks up `ch_links[sel + 1]`, which raises
      IndexError. An href with a `#fragment`, which equals no file name, is
      enough to cause this. */
  lemma SelectNextUnmatched(chLinks: seq<nat>, count: nat, docCount: nat)
    requires chLinks != [] && |chLinks| < count
    ensures Select(chLinks, count, docCount, |chLinks| - 1) == Err(IndexError)
  {
  }

  /** The last chapter runs from its own document to the end of the book. */
  lemma SelectLast(chLinks: seq<nat>, docCount: nat)
    requires chLinks != [] && chLinks[|chLinks| - 1] < docCount
    ensures var sel := |chLinks| - 1;
      var r := Select(chLinks, |chLinks|, docCount, sel);
      && r == Ok(Range(chLinks[sel], docCount))
      && r.value != [] && r.value[0] == chLinks[sel] && r.value[|r.value| - 1] == docCount - 1
  {
  }

  /** Any other chapter, when every chapter was matched, is the non-empty
      run from its own document up to the next chapter's document. */
  lemma SelectMiddle(chLinks: seq<nat>, docCount: nat, sel: int)
    requires Increasing(chLinks) && 0 <= sel < |chLinks| - 1 && chLinks[sel + 1] <= docCount
    ensures var r := Select(chLinks, |chLinks|, docCount, sel);
      && r == Ok(Range(chLinks[sel], chLinks[sel + 1]))
      && r.value != [] && r.value[0] == chLinks[sel]
  {
  }

  /** A negative sel other than -1 picks the chapter counted from the end,
      up to the chapter after it. */
  lemma SelectFromEnd(chLinks: seq<nat>, docCount: nat, sel: int)
    requires -|chLinks| <= sel < -1
    requires forall k :: 0 <= k < |chLinks| ==> chLinks[k] < docCount
    ensures var n := |chLinks|;
      Select(chLinks, n, docCount, sel) == Ok(Range(chLinks[n + sel], chLinks[n + sel + 1]))
  {
  }

  /** sel = -1 with two or more chapters is not the last chapter for the
      test, so it reads from the last chapter's document up to the first
      chapter's: nothing. */
  lemma SelectMinusOne(chLinks: seq<nat>, docCount: nat)
    requires |chLinks| >= 2 && Increasing(chLinks)
    ensures Select(chLinks, |chLinks|, docCount, -1) == Ok([])
  {
  }

  /** A sel that indexes past `ch_links` in either direction raises
      IndexError. */
  lemma SelectOutOfRange(chLinks: seq<nat>, count: nat, docCount: nat, sel: int)
    requires sel >= |chLinks| || sel < -|chLinks|
    ensures Select(chLinks, count, docCount, sel) == Err(IndexError)
  {
  }

  /** The read outputs of the documents in range, concatenated with no
      separator. */
  function RawText(docs: seq<Document>, range: seq<int>): string
    requires forall k :: 0 <= k < |range| ==> 0 <= range[k] < |docs|
    decreases |range|
  {
    if range == [] then ""
    else RawText(docs, range[..|range| - 1]) + Speakable(docs[range[|range| - 1]].leaves, false)
  }

  /** The leaves of the documents in range, one document after another. */
  function Leaves(docs: seq<Document>, range: seq<int>): seq<Leaf>
    requires forall k :: 0 <= k < |range| ==> 0 <= range[k] < |docs|
    decreases |range|
  {
    if range == [] then []
    else Leaves(docs, range[..|range| - 1]) + docs[range[|range| - 1]].leaves
  }

  /** Reading the documents one by one and concatenating is reading them as
      one document: nothing is added between documents. */
  lemma {:induction false} RawTextIsOneRead(docs: seq<Document>, range: seq<int>)
    requires forall k :: 0 <= k < |range| ==> 0 <= range[k] < |docs|
    ensures RawText(docs, range) == Speakable(Leaves(docs, range), false)
    decreases |range|
  {
    if range == [] {
      assert Contributions([], false) == [];
    } else {
      var init := range[..|range| - 1];
      RawTextIsOneRead(docs, init);
      SpeakableAppend(Leaves(docs, init), docs[range[|range| - 1]].leaves, false);
    }
  }

  /** The chapter text: the concatenated read outputs, normalised. */
  function SectionText(docs: seq<Document>, range: seq<int>): (t: string)
    requires forall k :: 0 <= k < |range| ==> 0 <= range[k] < |docs|
    ensures IsNormal(t) && '\n' !in t
    ensures Words(t) == Words(Speakable(Leaves(docs, range), false))
  {
    RawTextIsOneRead(docs, range);
    NormaliseIsNormal(RawText(docs, range));
    Normalise(RawText(docs, range))
  }

  /** The reading loop of get_text and the two normalising statements after
      it. */
  method ReadSection(docs: seq<Document>, range: seq<int>) returns (text: string)
    requires forall k :: 0 <= k < |range| ==> 0 <= range[k] < |docs|
    ensures text == SectionText(docs, range)
  {
    text := "";
    for i := 0 to |range|
      invariant text == RawText(docs, range[..i])
    {
      var out := Read(docs[range[i]].leaves, false);
      assert range[..i + 1][..i] == range[..i];
      text := text + out;
    }
    assert range[..|range|] == range;
    text := ReplaceNewlines(text);
    text := Join(Words(text), " ");
  }

  /** What get_text returns once the chapter is chosen: the chapter text
      and sel, or the error that stops it. */
  function Chosen(docs: seq<Document>, count: nat, chLinks: seq<nat>, selInput: string): Result<(string, int)> {
    match ParseInt(selInput)
    case None => Err(ValueError)
    case Some(sel) =>
      match Select(chLinks, count, |docs|, sel)
      case Err(e) => Err(e)
      case Ok(range) => Ok((SectionText(docs, range), sel))
  }

  /** What get_text returns for a book and the typed chapter number. */
  function TransText(toc: seq<TocItem>, docs: seq<Document>, selInput: string): Result<(string, int)> {
    match Flatten(toc)
    case Err(e) => Err(e)
    case Ok(chapters) =>
      match Match(Names(docs), chapters)
      case Err(e) => Err(e)
      case Ok(chLinks) => Chosen(docs, |chapters|, chLinks, selInput)
  }

  /** get_text of epub_trans.py, after the book is loaded. */
  method GetText(toc: seq<TocItem>, docs: seq<Document>, selInput: string) returns (r: Result<(string, int)>)
    ensures r == TransText(toc, docs, selInput)
  {
    var chapters := ListChapters(toc);
    if chapters.Err? {
      return Err(chapters.error);
    }
    var chLinks := MatchChapters(Names(docs), chapters.value);
    if chLinks.Err? {
      return Err(chLinks.error);
    }
    var sel := ParseInt(selInput);
    if sel.None? {
      return Err(ValueError);
    }
    var range := Select(chLinks.value, |chapters.value|, |docs|, sel.value);
    if range.Err? {
      return Err(range.error);
    }
    var text := ReadSection(docs, range.value);
    return Ok((text, sel.value));
  }

  /** The returned text has no newline and no leading, trailing or doubled
      space. */
  lemma TransTextNormal(toc: seq<TocItem>, docs: seq<Document>, selInput: string)
    ensures var r := TransText(toc, docs, selInput);
      r.Ok? ==> IsNormal(r.value.0) && '\n' !in r.value.0
  {
  }

  /** When every chapter was matched and sel is a chapter number, the text
      is read from that chapter's own document up to the next chapter's, or
      to the end of the book for the last chapter. */
  lemma TransTextReads(toc: seq<TocItem>, docs: seq<Document>, selInput: string, chapters: seq<string>, chLinks: seq<nat>, sel: int)
    requires Flatten(toc) == Ok(chapters) && Match(Names(docs), chapters) == Ok(chLinks)
    requires |chLinks| == |chapters| && ParseInt(selInput) == Some(sel) && 0 <= sel < |chapters|
    ensures docs[chLinks[sel]].name == chapters[sel]
    ensures var hi := if sel == |chapters| - 1 then |docs| else chLinks[sel + 1];
      TransText(toc, docs, selInput) == Ok((SectionText(docs, Range(chLinks[sel], hi)), sel))
  {
    assert TransText(toc, docs, selInput) == Chosen(docs, |chapters|, chLinks, selInput);
    MatchGreedy(Names(docs), chapters);
    if sel < |chapters| - 1 {
      SelectMiddle(chLinks, |docs|, sel);
    } else {
      SelectLast(chLinks, |docs|);
    }
  }

  /** A number that int() cannot read stops get_text with ValueError once
      the book's chapters are matched. */
  lemma NonNumberFails(toc: seq<TocItem>, docs: seq<Document>, selInput: string)
    requires Flatten(toc).Ok? && Match(Names(docs), Flatten(toc).value).Ok?
    requires ParseInt(selInput).None?
    ensures TransText(toc, docs, selInput) == Err(ValueError)
  {
  }

  /** An empty table of contents with a non-empty document list fails in the scan. */
  lemma EmptyTocFails(docs: seq<Document>, selInput: string)
    requires docs != []
    ensures TransText([], docs, selInput) == Err(IndexError)
  {
    MatchErr(Names(docs), []);
  }

  /** `main` after the arguments are read: get the text, split it into
      sentences, chunk them for the speech service, and name the output
      file after sel. */
  method Narrate(toc: seq<TocItem>, docs: seq<Document>, selInput: string) returns (r: Result<(seq<string>, string)>)
    ensures r.Err? <==> TransText(toc, docs, selInput).Err?
    ensures r.Ok? ==> var (text, sel) := TransText(toc, docs, selInput).value;
      && r.value.0 == Chunker.Chunks(Sentences.Split(text), MaxChar, true)
      && Concat(r.value.0) == " " + text
      && r.value.1 == "ch" + Str(sel) + ".mp3"
  {
    var got := GetText(toc, docs, selInput);
    if got.Err? {
      return Err(got.error);
    }
    var (text, sel) := got.value;
    var sentences := Sentences.Split(text);
    var chunks := Chunker.Chunk(sentences, MaxChar);
    Chunker.TextRoundTrip(text, MaxChar, true);
    return Ok((chunks, "ch" + Str(sel) + ".mp3"));
  }
}
