/** The chapter resolver and pipeline of epub_mp3.py. The table of contents
    is walked depth first by `print_ch`, which keeps the document position of
    every entry whose document differs from the one before; the reader picks
    a start and an end entry, and the documents from the start entry's
    position up to (not including) the position of the entry after the end
    one are read, normalised and joined with newlines. */
module EpubMp3 {
  import opened Results
  import opened Text
  import opened Extract
  import opened Book
  import opened Prompt
  import Sentences
  import Chunker

  /** Characters per request sent to the speech service. */
  const MaxChar: nat := 4500

  /** The href with any "#fragment" cut off: everything before the first '#'. */
  function CutAnchor(href: string): (r: string)
    ensures '#' !in r
    ensures |r| <= |href| && r == href[..|r|]
    ensures |r| < |href| ==> href[|r|] == '#'
    decreases |href|
  {
    if href == [] || href[0] == '#' then [] else [href[0]] + CutAnchor(href[1..])
  }

  /** The document key of every entry, in depth-first order: an entry's own
      key comes before those of its children. */
  function Keys(items: seq<TocItem>): seq<string>
    decreases items
  {
    if items == [] then [] else ItemKeys(items[0]) + Keys(items[1..])
  }

  function ItemKeys(item: TocItem): seq<string>
    decreases item
  {
    match item
    case Link(_, href) => [CutAnchor(href)]
    case Section(_, href, children) => [CutAnchor(href)] + Keys(children)
  }

  /** No key carries a fragment. */
  lemma {:induction false} KeysNoAnchor(items: seq<TocItem>)
    ensures forall k :: 0 <= k < |Keys(items)| ==> '#' !in Keys(items)[k]
    decreases items
  {
    if items != [] {
      ItemKeysNoAnchor(items[0]);
      KeysNoAnchor(items[1..]);
    }
  }

  lemma {:induction false} ItemKeysNoAnchor(item: TocItem)
    ensures forall k :: 0 <= k < |ItemKeys(item)| ==> '#' !in ItemKeys(item)[k]
    decreases item
  {
    if item.Section? {
      KeysNoAnchor(item.children);
    }
  }

  /** The key of every href. */
  function CutAll(hrefs: seq<string>): (keys: seq<string>)
    ensures |keys| == |hrefs| && forall k :: 0 <= k < |hrefs| ==> keys[k] == CutAnchor(hrefs[k])
  {
    seq(|hrefs|, k requires 0 <= k < |hrefs| => CutAnchor(hrefs[k]))
  }

  lemma CutAllAppend(a: seq<string>, b: seq<string>)
    ensures CutAll(a + b) == CutAll(a) + CutAll(b)
  {
    assert forall k :: 0 <= k < |a| ==> (a + b)[k] == a[k];
    assert forall k :: |a| <= k < |a + b| ==> (a + b)[k] == b[k - |a|];
  }

  /** The walk visits the entries in the same depth-first order as
      Book.Hrefs lists them: the keys are those hrefs with their fragments
      cut. */
  lemma {:induction false} KeysAreCutHrefs(items: seq<TocItem>)
    ensures Keys(items) == CutAll(Hrefs(items))
    decreases items
  {
    if items != [] {
      ItemKeysAreCutHrefs(items[0]);
      KeysAreCutHrefs(items[1..]);
      CutAllAppend(ItemHrefs(items[0]), Hrefs(items[1..]));
    } else {
      assert CutAll([]) == [];
    }
  }

  lemma {:induction false} ItemKeysAreCutHrefs(item: TocItem)
    ensures ItemKeys(item) == CutAll(ItemHrefs(item))
    decreases item
  {
    if item.Section? {
      KeysAreCutHrefs(item.children);
      CutAllAppend([item.href], Hrefs(item.children));
    }
    assert CutAll([item.href]) == [CutAnchor(item.href)];
  }

  /** The key the walk compares the next one with: the last key seen, or
      the initial one when none was seen. */
  function LastOr(prev: string, keys: seq<string>): string {
    if keys == [] then prev else keys[|keys| - 1]
  }

  /** The keys the walk keeps: each key that differs from the key just
      before it (from `prev` for the first one). */
  function Collapse(prev: string, keys: seq<string>): seq<string>
    decreases |keys|
  {
    if keys == [] then []
    else
      var init := keys[..|keys| - 1];
      var key := keys[|keys| - 1];
      Collapse(prev, init) + (if key == LastOr(prev, init) then [] else [key])
  }

  /** No two consecutive kept keys are the same document, and the first
      kept key differs from the initial one. */
  lemma {:induction false} CollapseNoRepeats(prev: string, keys: seq<string>)
    ensures var c := Collapse(prev, keys);
      && (c == [] ==> LastOr(prev, keys) == prev)
      && (c != [] ==> c[0] != prev && c[|c| - 1] == LastOr(prev, keys))
      && (forall k :: 0 <= k < |c| - 1 ==> c[k] != c[k + 1])
    decreases |keys|
  {
    if keys != [] {
      var init := keys[..|keys| - 1];
      CollapseNoRepeats(prev, init);
    }
  }

  /** Walking two key sequences one after the other is walking their
      concatenation. */
  lemma {:induction false} CollapseAppend(prev: string, a: seq<string>, b: seq<string>)
    ensures Collapse(prev, a + b) == Collapse(prev, a) + Collapse(LastOr(prev, a), b)
    ensures LastOr(prev, a + b) == LastOr(LastOr(prev, a), b)
    decreases |b|
  {
    if b == [] {
      assert a + b == a;
    } else {
      var b' := b[..|b| - 1];
      CollapseAppend(prev, a, b');
      assert (a + b)[..|a + b| - 1] == a + b';
    }
  }

  /** The document positions the walk stores for the keys seen so far, or the
      KeyError raised by the first kept key that names no document. */
  function Walk(prev: string, keys: seq<string>, idx: map<string, nat>): (r: Result<seq<nat>>)
    ensures r.Ok? ==> (|r.value| == |Collapse(prev, keys)|
      && forall k :: 0 <= k < |r.value| ==> r.value[k] in idx.Values)
    ensures r.Err? ==> r.error == KeyError
    decreases |keys|
  {
    if keys == [] then Ok([])
    else
      var init := keys[..|keys| - 1];
      var key := keys[|keys| - 1];
      match Walk(prev, init, idx)
      case Err(e) => Err(e)
      case Ok(w) =>
        if key == LastOr(prev, init) then Ok(w)
        else if key in idx then Ok(w + [idx[key]])
        else Err(KeyError)
  }

  /** Every key is a document name. */
  predicate AllIn(idx: map<string, nat>, c: seq<string>) {
    forall k :: 0 <= k < |c| ==> c[k] in idx
  }

  /** The document position of every key, in order. */
  function Lookup(idx: map<string, nat>, c: seq<string>): (r: seq<nat>)
    requires AllIn(idx, c)
    ensures |r| == |c| && forall k :: 0 <= k < |c| ==> r[k] == idx[c[k]]
  {
    seq(|c|, k requires 0 <= k < |c| => idx[c[k]])
  }

  lemma AllInSnoc(idx: map<string, nat>, c: seq<string>, key: string)
    ensures AllIn(idx, c + [key]) <==> AllIn(idx, c) && key in idx
    ensures AllIn(idx, c + [key]) ==> Lookup(idx, c + [key]) == Lookup(idx, c) + [idx[key]]
  {
    if AllIn(idx, c + [key]) {
      assert (c + [key])[|c|] == key;
      assert forall k :: 0 <= k < |c| ==> (c + [key])[k] == c[k];
    }
  }

  /** The walk stores, in order, the document position of every kept key, and
      fails exactly when some kept key is not a document name. */
  lemma {:induction false} WalkIsLookup(prev: string, keys: seq<string>, idx: map<string, nat>)
    ensures var c := Collapse(prev, keys);
      Walk(prev, keys, idx) == if AllIn(idx, c) then Ok(Lookup(idx, c)) else Err(KeyError)
    decreases |keys|
  {
    if keys != [] {
      var init := keys[..|keys| - 1];
      var key := keys[|keys| - 1];
      WalkIsLookup(prev, init, idx);
      var ci := Collapse(prev, init);
      if key == LastOr(prev, init) {
        assert Collapse(prev, keys) == ci;
      } else {
        assert Collapse(prev, keys) == ci + [key];
        AllInSnoc(idx, ci, key);
      }
    } else {
      assert Lookup(idx, []) == [];
    }
  }

  /** Walking two key sequences one after the other is walking their
      concatenation; a failure in the first part is final. */
  lemma {:induction false} WalkAppend(prev: string, a: seq<string>, b: seq<string>, idx: map<string, nat>)
    ensures Walk(prev, a + b, idx) ==
      match Walk(prev, a, idx)
      case Err(e) => Err(e)
      case Ok(w) =>
        match Walk(LastOr(prev, a), b, idx)
        case Err(e) => Err(e)
        case Ok(more) => Ok(w + more)
    ensures LastOr(prev, a + b) == LastOr(LastOr(prev, a), b)
    decreases |b|
  {
    if b == [] {
      assert a + b == a;
      if Walk(prev, a, idx).Ok? {
        assert Walk(prev, a, idx).value + [] == Walk(prev, a, idx).value;
      }
    } else {
      var b' := b[..|b| - 1];
      WalkAppend(prev, a, b', idx);
      assert (a + b)[..|a + b| - 1] == a + b';
      assert (a + b)[|a + b| - 1] == b[|b| - 1];
      assert LastOr(prev, a + b') == LastOr(LastOr(prev, a), b') by {
        CollapseAppend(prev, a, b');
      }
      match Walk(prev, a, idx)
      case Err(_) =>
      case Ok(w) =>
        match Walk(LastOr(prev, a), b', idx)
        case Err(_) =>
        case Ok(more) =>
          var key := b[|b| - 1];
          if key != LastOr(LastOr(prev, a), b') && key in idx {
            assert w + more + [idx[key]] == w + (more + [idx[key]]);
          }
    }
  }

  /** The nonlocal state of `print_ch`: the document position of every kept
      entry (`pos`), how many entries were kept (`j`) and the key of the last
      entry seen (`prev`). The file-name index is read, never changed. */
  class TocIndex {
    const idx: map<string, nat>
    var pos: seq<nat>
    var j: nat
    var prev: string

    ghost predicate Valid()
      reads this
    {
      j == |pos|
    }

    constructor (idx: map<string, nat>)
      ensures Valid()
      ensures this.idx == idx && pos == [] && j == 0 && prev == ""
    {
      this.idx := idx;
      pos := [];
      j := 0;
      prev := "";
    }

    /** One entry that is not a tuple: skip it when its document is the one
        just seen, otherwise store its document position (KeyError, reported as
        false, when the document is not in the document list). */
    method VisitEntry(href: string) returns (ok: bool)
      requires Valid()
      modifies this
      ensures Valid()
      ensures var key := CutAnchor(href);
        && ok == (key == old(prev) || key in idx)
        && (ok ==> prev == key && pos == old(pos) + (if key == old(prev) then [] else [idx[key]]))
    {
      var curr := CutAnchor(href);
      if curr == prev {
        return true;
      }
      if curr !in idx {
        return false;
      }
      pos := pos + [idx[curr]];
      j := j + 1;
      prev := curr;
      return true;
    }

    /** print_ch over a list of entries: entries in order, a tuple's own
        entry first and then its children. */
    method Visit(items: seq<TocItem>) returns (ok: bool)
      requires Valid()
      modifies this
      decreases items
      ensures Valid()
      ensures var r := Walk(old(prev), Keys(items), idx);
        && ok == r.Ok?
        && (ok ==> pos == old(pos) + r.value && prev == LastOr(old(prev), Keys(items)))
    {
      ghost var prev0, pos0 := prev, pos;
      ghost var done: seq<string> := [];
      ghost var w: seq<nat> := [];
      var i := 0;
      while i < |items|
        invariant 0 <= i <= |items| && Valid()
        invariant Keys(items) == done + Keys(items[i..])
        invariant Walk(prev0, done, idx) == Ok(w)
        invariant pos == pos0 + w && prev == LastOr(prev0, done)
      {
        var item := items[i];
        var href := item.href;
        ghost var key := CutAnchor(href);
        ghost var more := ChildKeys(item);
        ghost var after := Keys(items[i + 1..]);
        KeysCons(items, i);
        ghost var before := prev;
        ok := VisitEntry(href);
        Assoc(done, [key], more, after);
        if !ok {
          EntryFails(prev0, done, key, more + after, idx);
          return;
        }
        EntryOk(prev0, done, w, key, idx);
        Assoc(pos0, w, if key == before then [] else [idx[key]], []);
        done, w := done + [key], w + (if key == before then [] else [idx[key]]);
        if item.Section? {
          ok := Visit(item.children);
          WalkAppend(prev0, done, more, idx);
          if !ok {
            WalkAppend(prev0, done + more, after, idx);
            return;
          }
          Assoc(pos0, w, Walk(key, more, idx).value, []);
          done, w := done + more, w + Walk(key, more, idx).value;
        } else {
          assert done + more == done;
        }
        i := i + 1;
      }
      assert done == Keys(items);
      ok := true;
    }
  }

  /** An entry whose document is the one just seen, or a listed document,
      extends the walk. */
  lemma EntryOk(prev: string, done: seq<string>, w: seq<nat>, key: string, idx: map<string, nat>)
    requires Walk(prev, done, idx) == Ok(w)
    requires key == LastOr(prev, done) || key in idx
    ensures Walk(prev, done + [key], idx)
      == Ok(w + (if key == LastOr(prev, done) then [] else [idx[key]]))
    ensures LastOr(prev, done + [key]) == key
  {
    var keys := done + [key];
    assert keys[..|keys| - 1] == done;
    assert keys[|keys| - 1] == key;
    if key == LastOr(prev, done) {
      assert w + [] == w;
    }
  }

  /** An entry whose document is new and not in the document list ends the walk
      with a KeyError, whatever follows it. */
  lemma EntryFails(prev: string, done: seq<string>, key: string, rest: seq<string>, idx: map<string, nat>)
    requires Walk(prev, done, idx).Ok?
    requires key != LastOr(prev, done) && key !in idx
    ensures Walk(prev, done + ([key] + rest), idx).Err?
  {
    assert done + ([key] + rest) == done + [key] + rest;
    assert (done + [key])[..|done|] == done;
    assert Walk(prev, done + [key], idx).Err?;
    WalkAppend(prev, done + [key], rest, idx);
  }

  /** The keys of an entry's children; none for a plain link. */
  function ChildKeys(item: TocItem): seq<string> {
    if item.Section? then Keys(item.children) else []
  }

  /** A hint for the solver, not part of the model: sequence concatenation
      regrouped in the exact shapes the proof of `Visit` needs, kept out of
      that proof so that it stays small. */
  lemma Assoc<T>(a: seq<T>, b: seq<T>, c: seq<T>, d: seq<T>)
    ensures a + (b + (c + d)) == a + b + c + d
    ensures (a + b) + c == a + (b + c)
    ensures a + b + [] == a + b
  {
  }

  /** The keys from entry i on: that entry's own key, its children's keys,
      then the keys of the entries after it. */
  lemma KeysCons(items: seq<TocItem>, i: nat)
    requires i < |items|
    ensures Keys(items[i..]) == [CutAnchor(items[i].href)] + (ChildKeys(items[i]) + Keys(items[i + 1..]))
  {
    assert items[i..][1..] == items[i + 1..];
  }

  /** The file-name index `idx`: each document name mapped to its
      position; for a name that occurs twice the later position wins. */
  function IndexOf(names: seq<string>): (m: map<string, nat>)
    ensures forall name :: name in m <==> name in names
    ensures forall name :: name in m ==> m[name] < |names| && names[m[name]] == name
    ensures forall name, i :: name in m && m[name] < i < |names| ==> names[i] != name
    decreases |names|
  {
    if names == [] then map[]
    else
      var n := |names| - 1;
      assert forall name :: name in names <==> name in names[..n] || name == names[n] by {
        assert names == names[..n] + [names[n]];
      }
      IndexOf(names[..n])[names[n] := n]
  }

  /** The positions `print_ch` stores for the whole table of contents. */
  function TocPositions(toc: seq<TocItem>, docs: seq<Document>): (r: Result<seq<nat>>)
    ensures r.Ok? ==> forall k :: 0 <= k < |r.value| ==> r.value[k] < |docs|
  {
    var idx := IndexOf(Names(docs));
    var r := Walk("", Keys(toc), idx);
    assert r.Ok? ==> forall k :: 0 <= k < |r.value| ==> r.value[k] < |docs| by {
      if r.Ok? {
        forall k | 0 <= k < |r.value| ensures r.value[k] < |docs| {
          assert r.value[k] in idx.Values;
          var name :| name in idx && idx[name] == r.value[k];
        }
      }
    }
    r
  }

  /** The documents read for a selection, as written: from the start
      entry's position up to the position of the entry after the end one;
      that entry does not exist when the end entry is the last one. */
  function ResolveRange(pos: seq<nat>, start: int, end: int): (r: Result<seq<int>>)
    requires 0 <= start <= end < |pos|
    ensures r.Err? <==> end + 1 == |pos|
    ensures r.Err? ==> r.error == IndexError
  {
    if end + 1 < |pos| then Ok(Range(pos[start], pos[end + 1])) else Err(IndexError)
  }

  /** Selecting the last entry of the table of contents always fails. */
  lemma LastEntryFails(pos: seq<nat>, start: int)
    requires 0 <= start < |pos|
    ensures ResolveRange(pos, start, |pos| - 1) == Err(IndexError)
  {
  }

  /** The range is empty, and nothing is read, whenever the entry after
      the end one lies at or before the start entry in the document list. */
  lemma RangeEmptyWhenNotIncreasing(pos: seq<nat>, start: int, end: int)
    requires 0 <= start <= end && end + 1 < |pos|
    requires pos[end + 1] <= pos[start]
    ensures ResolveRange(pos, start, end) == Ok([])
  {
  }

  /** When the positions increase, the range is the consecutive run of
      documents that starts at the start entry's own document. */
  lemma RangeWhenIncreasing(pos: seq<nat>, start: int, end: int)
    requires 0 <= start <= end && end + 1 < |pos|
    requires forall a, b :: 0 <= a < b < |pos| ==> pos[a] < pos[b]
    ensures var r := ResolveRange(pos, start, end);
      && r.Ok? && r.value != [] && r.value[0] == pos[start]
      && |r.value| == pos[end + 1] - pos[start]
      && (forall k :: start <= k <= end ==> pos[k] in r.value)
  {
    var r := ResolveRange(pos, start, end).value;
    forall k | start <= k <= end ensures pos[k] in r {
      assert r[pos[k] - pos[start]] == pos[k];
    }
  }

  /** The evidently intended range: as written, except that the last entry
      runs to the end of the document list. */
  function ResolveRangeToEnd(pos: seq<nat>, start: int, end: int, docCount: nat): seq<int>
    requires 0 <= start <= end < |pos|
  {
    Range(pos[start], if end + 1 < |pos| then pos[end + 1] else docCount)
  }

  /** With the intended range the last entry reads its own document and
      every later one, and the other entries read what they did before. */
  lemma RangeToEndReadsLast(pos: seq<nat>, start: int, docCount: nat)
    requires 0 <= start < |pos|
    requires forall k :: 0 <= k < |pos| ==> pos[k] < docCount
    ensures var r := ResolveRangeToEnd(pos, start, |pos| - 1, docCount);
      && r != [] && r[0] == pos[start] && r[|r| - 1] == docCount - 1
    ensures forall end :: start <= end < |pos| - 1 ==>
      Ok(ResolveRangeToEnd(pos, start, end, docCount)) == ResolveRange(pos, start, end)
  {
  }

  /** The text of one document as the chapter loop stores it. */
  function ChapterText(doc: Document): string {
    Normalise(Speakable(doc.leaves, true))
  }

  /** The texts of the documents read, in document-list order. */
  function ChapterTexts(docs: seq<Document>, range: seq<int>): (cs: seq<string>)
    requires forall k :: 0 <= k < |range| ==> 0 <= range[k] < |docs|
    ensures |cs| == |range|
    ensures forall k :: 0 <= k < |cs| ==> IsNormal(cs[k]) && '\n' !in cs[k]
  {
    var cs := seq(|range|, k requires 0 <= k < |range| => ChapterText(docs[range[k]]));
    assert forall k :: 0 <= k < |cs| ==> IsNormal(cs[k]) && '\n' !in cs[k] by {
      forall k | 0 <= k < |cs| ensures IsNormal(cs[k]) && '\n' !in cs[k] {
        NormaliseIsNormal(Speakable(docs[range[k]].leaves, true));
      }
    }
    cs
  }

  /** The chapter loop of get_text: read each document of the range,
      replace newlines, collapse whitespace, collect. */
  method ReadChapters(docs: seq<Document>, range: seq<int>) returns (chapters: seq<string>)
    requires forall k :: 0 <= k < |range| ==> 0 <= range[k] < |docs|
    ensures chapters == ChapterTexts(docs, range)
  {
    chapters := [];
    for i := 0 to |range|
      invariant chapters == ChapterTexts(docs, range[..i])
    {
      var text := Read(docs[range[i]].leaves, true);
      text := Join(Words(ReplaceNewlines(text)), " ");
      ChapterTextsSnoc(docs, range, i);
      chapters := chapters + [text];
    }
    assert range[..|range|] == range;
  }

  lemma ChapterTextsSnoc(docs: seq<Document>, range: seq<int>, i: nat)
    requires i < |range| && forall k :: 0 <= k < |range| ==> 0 <= range[k] < |docs|
    ensures ChapterTexts(docs, range[..i + 1]) == ChapterTexts(docs, range[..i]) + [ChapterText(docs[range[i]])]
  {
    var a, b := ChapterTexts(docs, range[..i + 1]), ChapterTexts(docs, range[..i]) + [ChapterText(docs[range[i]])];
    assert |a| == |b|;
    forall k | 0 <= k < |a| ensures a[k] == b[k] {
      assert range[..i + 1][k] == range[k];
    }
  }

  /** What get_text returns: the chapter texts joined with newlines, and
      the start entry (which names the output file). */
  function Mp3Text(toc: seq<TocItem>, docs: seq<Document>, attempts: seq<string>): Result<(string, int)> {
    match TocPositions(toc, docs)
    case Err(e) => Err(e)
    case Ok(pos) =>
      match ChooseRange(attempts, |pos|)
      case Err(e) => Err(e)
      case Ok((start, end)) => Selection(docs, pos, start, end)
  }

  /** The text of the entries start..end once they are chosen. */
  function Selection(docs: seq<Document>, pos: seq<nat>, start: int, end: int): Result<(string, int)>
    requires 0 <= start <= end < |pos|
    requires forall k :: 0 <= k < |pos| ==> pos[k] < |docs|
  {
    match ResolveRange(pos, start, end)
    case Err(e) => Err(e)
    case Ok(range) => Ok((Join(ChapterTexts(docs, range), "\n"), start))
  }

  /** get_text of epub_mp3.py, after the book is loaded. */
  method GetText(toc: seq<TocItem>, docs: seq<Document>, attempts: seq<string>) returns (r: Result<(string, int)>)
    ensures r == Mp3Text(toc, docs, attempts)
  {
    var idx := IndexOf(Names(docs));
    var index := new TocIndex(idx);
    var ok := index.Visit(toc);
    ghost var walk := Walk("", Keys(toc), idx);
    assert TocPositions(toc, docs) == walk;
    if !ok {
      return Err(KeyError);
    }
    var pos, j := index.pos, index.j;
    assert pos == walk.value;
    var choice := AskRange(attempts, j);
    if choice.Err? {
      return Err(choice.error);
    }
    var (start, end) := choice.value;
    if end + 1 >= |pos| {
      return Err(IndexError);
    }
    var chapters := ReadChapters(docs, Range(pos[start], pos[end + 1]));
    return Ok((Join(chapters, "\n"), start));
  }

  /** The documents read are exactly the consecutive documents from
      the start entry's position to just before the next entry's position;
      each becomes one normalised line of the text. */
  lemma Mp3TextReads(toc: seq<TocItem>, docs: seq<Document>, attempts: seq<string>, pos: seq<nat>, start: int, end: int)
    requires TocPositions(toc, docs) == Ok(pos)
    requires ChooseRange(attempts, |pos|) == Ok((start, end))
    requires end + 1 < |pos|
    ensures 0 <= start <= end
    ensures var cs := ChapterTexts(docs, Range(pos[start], pos[end + 1]));
      && Mp3Text(toc, docs, attempts) == Ok((Join(cs, "\n"), start))
      && (forall k :: 0 <= k < |cs| ==> cs[k] == ChapterText(docs[pos[start] + k]))
  {
    assert Mp3Text(toc, docs, attempts) == Selection(docs, pos, start, end);
    SelectionReads(docs, pos, start, end);
  }

  lemma SelectionReads(docs: seq<Document>, pos: seq<nat>, start: int, end: int)
    requires 0 <= start <= end && end + 1 < |pos|
    requires forall k :: 0 <= k < |pos| ==> pos[k] < |docs|
    ensures var cs := ChapterTexts(docs, Range(pos[start], pos[end + 1]));
      && Selection(docs, pos, start, end) == Ok((Join(cs, "\n"), start))
      && (forall k :: 0 <= k < |cs| ==> cs[k] == ChapterText(docs[pos[start] + k]))
  {
    var range := Range(pos[start], pos[end + 1]);
    var cs := ChapterTexts(docs, range);
    forall k | 0 <= k < |cs| ensures cs[k] == ChapterText(docs[pos[start] + k]) {
      assert range[k] == pos[start] + k;
    }
  }

  /** Choosing the last entry, with or without an explicit end, fails. */
  lemma Mp3TextLastEntryFails(toc: seq<TocItem>, docs: seq<Document>, attempts: seq<string>, pos: seq<nat>, start: int)
    requires TocPositions(toc, docs) == Ok(pos)
    requires ChooseRange(attempts, |pos|) == Ok((start, |pos| - 1))
    ensures Mp3Text(toc, docs, attempts) == Err(IndexError)
  {
  }

  /** `main` after the arguments are read: get the text, split it into
      sentences, chunk them for the speech service. */
  method Narrate(toc: seq<TocItem>, docs: seq<Document>, attempts: seq<string>) returns (r: Result<seq<string>>)
    ensures r.Err? <==> Mp3Text(toc, docs, attempts).Err?
    ensures r.Ok? ==> var text := Mp3Text(toc, docs, attempts).value.0;
      && r.value == Chunker.Chunks(Sentences.Split(text), MaxChar, true)
      && Concat(r.value) == " " + text
  {
    var got := GetText(toc, docs, attempts);
    if got.Err? {
      return Err(got.error);
    }
    var sentences := Sentences.Split(got.value.0);
    var chunks := Chunker.Chunk(sentences, MaxChar);
    Chunker.TextRoundTrip(got.value.0, MaxChar, true);
    return Ok(chunks);
  }
}
