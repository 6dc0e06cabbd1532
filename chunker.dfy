/** The greedy chunk loop of `main`: sentences are appended to `current`
    as " " + s; before a sentence is appended, `current` is sent off as a
    chunk if len(current) + len(s) + 1 would exceed the budget; a
    non-empty `current` is sent off at the end. Sending a chunk to the
    speech service is replaced by appending it to the result. */
module Chunker {
  import opened Text
  import Sentences

  /** A sentence as the loop appends it: a space, then the sentence. */
  function Spaced(s: string): string {
    " " + s
  }

  /** The text of a group of sentences: each one spaced, concatenated. */
  function SpacedAll(group: seq<string>): string {
    Concat(seq(|group|, k requires 0 <= k < |group| => Spaced(group[k])))
  }

  /** All groups laid end to end. */
  function Flatten<T>(gs: seq<seq<T>>): seq<T>
    decreases |gs|
  {
    if gs == [] then [] else Flatten(gs[..|gs| - 1]) + gs[|gs| - 1]
  }

  /** The groups of sentences that form the chunks, given the group being
      built (`cur`) and the sentences still to come. As written the loop
      also sends off an empty `current` (flushEmpty); the corrected loop
      only sends off a non-empty one. */
  function GroupsFrom(cur: seq<string>, rest: seq<string>, maxChar: nat, flushEmpty: bool): seq<seq<string>>
    decreases |rest|
  {
    if rest == [] then (if cur != [] then [cur] else [])
    else if (flushEmpty || cur != []) && |SpacedAll(cur)| + |rest[0]| + 1 > maxChar then
      [cur] + GroupsFrom([rest[0]], rest[1..], maxChar, flushEmpty)
    else
      GroupsFrom(cur + [rest[0]], rest[1..], maxChar, flushEmpty)
  }

  function Groups(sentences: seq<string>, maxChar: nat, flushEmpty: bool): seq<seq<string>> {
    GroupsFrom([], sentences, maxChar, flushEmpty)
  }

  function ChunksOf(gs: seq<seq<string>>): seq<string> {
    seq(|gs|, k requires 0 <= k < |gs| => SpacedAll(gs[k]))
  }

  /** The chunks sent to the speech service, in order. */
  function Chunks(sentences: seq<string>, maxChar: nat, flushEmpty: bool): seq<string> {
    ChunksOf(Groups(sentences, maxChar, flushEmpty))
  }

  /** The chunk loop as written in `main`. */
  method Chunk(sentences: seq<string>, maxChar: nat) returns (chunks: seq<string>)
    ensures chunks == Chunks(sentences, maxChar, true)
  {
    chunks := [];
    var current := "";
    ghost var cur: seq<string> := [];
    var i := 0;
    while i < |sentences|
      invariant 0 <= i <= |sentences|
      invariant current == SpacedAll(cur)
      invariant chunks + ChunksOf(GroupsFrom(cur, sentences[i..], maxChar, true)) == Chunks(sentences, maxChar, true)
    {
      var s := sentences[i];
      ChunkStep(chunks, cur, sentences[i..], maxChar);
      assert sentences[i..][1..] == sentences[i + 1..];
      if |current| + |s| + 1 > maxChar {
        chunks := chunks + [current];
        current := "";
        cur := [];
      }
      SpacedAllSnoc(cur, s);
      current := current + " " + s;
      cur := cur + [s];
      i := i + 1;
    }
    assert sentences[i..] == [];
    SpacedAllEmpty(cur);
    if current != "" {
      chunks := chunks + [current];
    }
  }

  /** One turn of the chunk loop keeps the chunks sent so far plus the
      chunks still to come equal to the whole result. */
  lemma ChunkStep(chunks: seq<string>, cur: seq<string>, rest: seq<string>, maxChar: nat)
    requires rest != []
    ensures var s := rest[0];
      if |SpacedAll(cur)| + |s| + 1 > maxChar then
        chunks + ChunksOf(GroupsFrom(cur, rest, maxChar, true))
          == (chunks + [SpacedAll(cur)]) + ChunksOf(GroupsFrom([] + [s], rest[1..], maxChar, true))
      else
        chunks + ChunksOf(GroupsFrom(cur, rest, maxChar, true))
          == chunks + ChunksOf(GroupsFrom(cur + [s], rest[1..], maxChar, true))
  {
    var s := rest[0];
    if |SpacedAll(cur)| + |s| + 1 > maxChar {
      assert [] + [s] == [s];
      ChunksOfCons(cur, GroupsFrom([s], rest[1..], maxChar, true));
    }
  }

  lemma ChunksOfCons(g: seq<string>, gs: seq<seq<string>>)
    ensures ChunksOf([g] + gs) == [SpacedAll(g)] + ChunksOf(gs)
  {
  }

  lemma SpacedAllSnoc(g: seq<string>, s: string)
    ensures SpacedAll(g + [s]) == SpacedAll(g) + " " + s
  {
    var f := seq(|g|, k requires 0 <= k < |g| => Spaced(g[k]));
    assert seq(|g + [s]|, k requires 0 <= k < |g + [s]| => Spaced((g + [s])[k])) == f + [Spaced(s)];
    ConcatAppend(f, [Spaced(s)]);
    ConcatSingle(Spaced(s));
  }

  lemma SpacedAllEmpty(g: seq<string>)
    ensures SpacedAll(g) == "" <==> g == []
    ensures |SpacedAll(g)| >= |g|
  {
    if g != [] {
      var f := seq(|g|, k requires 0 <= k < |g| => Spaced(g[k]));
      SpacedAllLength(f);
    }
  }

  lemma {:induction false} SpacedAllLength(f: seq<string>)
    requires forall k :: 0 <= k < |f| ==> |f[k]| >= 1
    ensures |Concat(f)| >= |f|
    decreases |f|
  {
    if f != [] {
      SpacedAllLength(f[..|f| - 1]);
    }
  }

  lemma SpacedAllAppend(a: seq<string>, b: seq<string>)
    ensures SpacedAll(a + b) == SpacedAll(a) + SpacedAll(b)
  {
    var fa := seq(|a|, k requires 0 <= k < |a| => Spaced(a[k]));
    var fb := seq(|b|, k requires 0 <= k < |b| => Spaced(b[k]));
    assert seq(|a + b|, k requires 0 <= k < |a + b| => Spaced((a + b)[k])) == fa + fb;
    ConcatAppend(fa, fb);
  }

  lemma SpacedAllOne(s: string)
    ensures SpacedAll([s]) == " " + s
  {
    SpacedAllSnoc([], s);
    assert [] + [s] == [s];
  }

  /** Spacing every sentence and concatenating gives a space followed by
      the sentences joined with single spaces. */
  lemma {:induction false} SpacedAllIsJoin(ss: seq<string>)
    requires ss != []
    ensures SpacedAll(ss) == " " + Join(ss, " ")
    decreases |ss|
  {
    if |ss| == 1 {
      SpacedAllOne(ss[0]);
    } else {
      SpacedAllIsJoin(ss[1..]);
      SpacedAllAppend([ss[0]], ss[1..]);
      SpacedAllOne(ss[0]);
      assert [ss[0]] + ss[1..] == ss;
    }
  }

  lemma FlattenCons<T>(g: seq<T>, gs: seq<seq<T>>)
    ensures Flatten([g] + gs) == g + Flatten(gs)
    decreases |gs|
  {
    if gs != [] {
      assert ([g] + gs)[..|[g] + gs| - 1] == [g] + gs[..|gs| - 1];
      FlattenCons(g, gs[..|gs| - 1]);
    } else {
      assert [g][..0] == [];
    }
  }

  /** Chunking never drops, repeats or reorders a sentence: the groups laid
      end to end are the sentences. */
  lemma {:induction false} GroupsPartition(cur: seq<string>, rest: seq<string>, maxChar: nat, flushEmpty: bool)
    ensures Flatten(GroupsFrom(cur, rest, maxChar, flushEmpty)) == cur + rest
    decreases |rest|
  {
    if rest == [] {
      if cur != [] {
        FlattenCons(cur, []);
      }
    } else if (flushEmpty || cur != []) && |SpacedAll(cur)| + |rest[0]| + 1 > maxChar {
      GroupsPartition([rest[0]], rest[1..], maxChar, flushEmpty);
      FlattenCons(cur, GroupsFrom([rest[0]], rest[1..], maxChar, flushEmpty));
      assert cur + rest == cur + ([rest[0]] + rest[1..]);
    } else {
      GroupsPartition(cur + [rest[0]], rest[1..], maxChar, flushEmpty);
      assert cur + rest == (cur + [rest[0]]) + rest[1..];
    }
  }

  /** The chunks concatenated are the groups' sentences, each spaced. */
  lemma {:induction false} ConcatChunksOf(gs: seq<seq<string>>)
    ensures Concat(ChunksOf(gs)) == SpacedAll(Flatten(gs))
    decreases |gs|
  {
    if gs == [] {
      assert ChunksOf(gs) == [];
    } else {
      var init := gs[..|gs| - 1];
      ConcatChunksOf(init);
      assert ChunksOf(gs) == ChunksOf(init) + [SpacedAll(gs[|gs| - 1])];
      ConcatAppend(ChunksOf(init), [SpacedAll(gs[|gs| - 1])]);
      ConcatSingle(SpacedAll(gs[|gs| - 1]));
      SpacedAllAppend(Flatten(init), gs[|gs| - 1]);
    }
  }

  /** Round trip: the chunks, concatenated in order, are " " + s for every
      sentence s, concatenated in order; with the final flush nothing is
      left in `current`. */
  lemma ChunksRoundTrip(sentences: seq<string>, maxChar: nat, flushEmpty: bool)
    ensures Concat(Chunks(sentences, maxChar, flushEmpty)) == SpacedAll(sentences)
  {
    GroupsPartition([], sentences, maxChar, flushEmpty);
    ConcatChunksOf(Groups(sentences, maxChar, flushEmpty));
    assert [] + sentences == sentences;
  }

  /** Splitting a text into sentences and chunking them loses nothing: the
      chunks concatenated are the text with one space in front. */
  lemma TextRoundTrip(text: string, maxChar: nat, flushEmpty: bool)
    ensures Concat(Chunks(Sentences.Split(text), maxChar, flushEmpty)) == " " + text
  {
    ChunksRoundTrip(Sentences.Split(text), maxChar, flushEmpty);
    SpacedAllIsJoin(Sentences.Split(text));
    Sentences.SplitJoin(text);
  }

  /** Inside a group, no sentence was added that would have pushed the
      chunk over the budget: the loop only closes a chunk when it must. */
  ghost predicate Filled(g: seq<string>, maxChar: nat) {
    forall i :: 1 <= i < |g| ==> |SpacedAll(g[..i])| + |g[i]| + 1 <= maxChar
  }

  lemma FilledSnoc(g: seq<string>, s: string, maxChar: nat)
    requires Filled(g, maxChar)
    requires g != [] ==> |SpacedAll(g)| + |s| + 1 <= maxChar
    ensures Filled(g + [s], maxChar)
  {
    var h := g + [s];
    forall i | 1 <= i < |h| ensures |SpacedAll(h[..i])| + |h[i]| + 1 <= maxChar {
      if i < |g| {
        assert h[..i] == g[..i];
      } else {
        assert h[..i] == g;
      }
    }
  }

  lemma {:induction false} GroupsFilled(cur: seq<string>, rest: seq<string>, maxChar: nat, flushEmpty: bool)
    requires Filled(cur, maxChar)
    ensures forall k :: 0 <= k < |GroupsFrom(cur, rest, maxChar, flushEmpty)| ==>
      Filled(GroupsFrom(cur, rest, maxChar, flushEmpty)[k], maxChar)
    decreases |rest|
  {
    if rest == [] {
    } else if (flushEmpty || cur != []) && |SpacedAll(cur)| + |rest[0]| + 1 > maxChar {
      assert Filled([rest[0]], maxChar);
      GroupsFilled([rest[0]], rest[1..], maxChar, flushEmpty);
    } else {
      FilledSnoc(cur, rest[0], maxChar);
      GroupsFilled(cur + [rest[0]], rest[1..], maxChar, flushEmpty);
    }
  }

  /** A filled group of two or more sentences fits the budget. */
  lemma FilledFits(g: seq<string>, maxChar: nat)
    requires Filled(g, maxChar) && |g| >= 2
    ensures |SpacedAll(g)| <= maxChar
  {
    var n := |g| - 1;
    assert g == g[..n] + [g[n]];
    SpacedAllSnoc(g[..n], g[n]);
  }

  /** The group being built stays at the front of the first group, and
      every later group is non-empty. */
  lemma {:induction false} GroupsShape(cur: seq<string>, rest: seq<string>, maxChar: nat, flushEmpty: bool)
    ensures var gs := GroupsFrom(cur, rest, maxChar, flushEmpty);
      && (cur != [] ==> gs != [] && |cur| <= |gs[0]| && gs[0][..|cur|] == cur)
      && (forall k :: 0 < k < |gs| ==> gs[k] != [])
      && (rest != [] ==> gs != [] && gs[|gs| - 1] != [])
    decreases |rest|
  {
    if rest == [] {
    } else if (flushEmpty || cur != []) && |SpacedAll(cur)| + |rest[0]| + 1 > maxChar {
      GroupsShape([rest[0]], rest[1..], maxChar, flushEmpty);
    } else {
      GroupsShape(cur + [rest[0]], rest[1..], maxChar, flushEmpty);
      var gs := GroupsFrom(cur + [rest[0]], rest[1..], maxChar, flushEmpty);
      if cur != [] {
        assert gs[0][..|cur|] == (cur + [rest[0]])[..|cur|] == cur;
      }
    }
  }

  /** Group k was closed because the first sentence of group k + 1, with
      its space, would have pushed it over the budget. */
  ghost predicate ClosedBefore(gs: seq<seq<string>>, k: int, maxChar: nat)
    requires 0 <= k < |gs| - 1
  {
    gs[k + 1] != [] && |SpacedAll(gs[k])| + |gs[k + 1][0]| + 1 > maxChar
  }

  ghost predicate AllClosed(gs: seq<seq<string>>, maxChar: nat) {
    forall k :: 0 <= k < |gs| - 1 ==> ClosedBefore(gs, k, maxChar)
  }

  /** A chunk is closed only when the next sentence, with its space, would
      push it over the budget. */
  lemma {:induction false} GroupsClosed(cur: seq<string>, rest: seq<string>, maxChar: nat, flushEmpty: bool)
    ensures AllClosed(GroupsFrom(cur, rest, maxChar, flushEmpty), maxChar)
    decreases |rest|
  {
    if rest == [] {
    } else if (flushEmpty || cur != []) && |SpacedAll(cur)| + |rest[0]| + 1 > maxChar {
      var tail := GroupsFrom([rest[0]], rest[1..], maxChar, flushEmpty);
      GroupsClosed([rest[0]], rest[1..], maxChar, flushEmpty);
      GroupsShape([rest[0]], rest[1..], maxChar, flushEmpty);
      assert tail[0][0] == tail[0][..1][0] == rest[0];
      var gs := [cur] + tail;
      forall k | 0 <= k < |gs| - 1 ensures ClosedBefore(gs, k, maxChar) {
        if k > 0 {
          assert gs[k] == tail[k - 1] && gs[k + 1] == tail[k];
          assert ClosedBefore(tail, k - 1, maxChar);
        }
      }
    } else {
      var gs := GroupsFrom(cur, rest, maxChar, flushEmpty);
      var gs' := GroupsFrom(cur + [rest[0]], rest[1..], maxChar, flushEmpty);
      assert gs == gs';
      GroupsClosed(cur + [rest[0]], rest[1..], maxChar, flushEmpty);
    }
  }

  /** Every chunk fits the budget unless it is a single sentence, which is
      sent as " " + s however long it is. */
  lemma ChunkBound(sentences: seq<string>, maxChar: nat, flushEmpty: bool)
    ensures var gs, cs := Groups(sentences, maxChar, flushEmpty), Chunks(sentences, maxChar, flushEmpty);
      forall k :: 0 <= k < |cs| ==> |cs[k]| <= maxChar || (|gs[k]| == 1 && cs[k] == " " + gs[k][0])
  {
    var gs, cs := Groups(sentences, maxChar, flushEmpty), Chunks(sentences, maxChar, flushEmpty);
    GroupsFilled([], sentences, maxChar, flushEmpty);
    forall k | 0 <= k < |cs| ensures |cs[k]| <= maxChar || (|gs[k]| == 1 && cs[k] == " " + gs[k][0]) {
      if |gs[k]| >= 2 {
        FilledFits(gs[k], maxChar);
      } else if |gs[k]| == 1 {
        assert gs[k] == [gs[k][0]];
        SpacedAllOne(gs[k][0]);
      } else {
        SpacedAllEmpty(gs[k]);
      }
    }
  }

  /** Greediness: a sentence joins the chunk being built whenever it fits,
      and a chunk is closed only when the next sentence does not fit. */
  lemma ChunksGreedy(sentences: seq<string>, maxChar: nat, flushEmpty: bool)
    ensures var gs := Groups(sentences, maxChar, flushEmpty);
      && (forall k :: 0 <= k < |gs| ==> Filled(gs[k], maxChar))
      && (forall k :: 0 <= k < |gs| - 1 ==> ClosedBefore(gs, k, maxChar))
  {
    GroupsFilled([], sentences, maxChar, flushEmpty);
    GroupsClosed([], sentences, maxChar, flushEmpty);
    assert Groups(sentences, maxChar, flushEmpty) == GroupsFrom([], sentences, maxChar, flushEmpty);
  }

  /** As written, an empty chunk is sent exactly when the very first
      sentence plus its space exceeds the budget, and only as the first
      chunk; the last sentence always ends up in the final, flushed chunk. */
  lemma EmptyChunkOnlyFirst(sentences: seq<string>, maxChar: nat)
    ensures var cs := Chunks(sentences, maxChar, true);
      && (forall k :: 0 < k < |cs| ==> cs[k] != "")
      && (cs != [] && cs[0] == "" <==> sentences != [] && |sentences[0]| + 1 > maxChar)
      && (sentences != [] ==> cs != [] && cs[|cs| - 1] != "")
  {
    var gs := Groups(sentences, maxChar, true);
    GroupsShape([], sentences, maxChar, true);
    forall k | 0 <= k < |gs| ensures SpacedAll(gs[k]) == "" <==> gs[k] == [] {
      SpacedAllEmpty(gs[k]);
    }
    if sentences != [] && |sentences[0]| + 1 <= maxChar {
      assert SpacedAll([]) == "" by { SpacedAllEmpty([]); }
      GroupsShape([sentences[0]], sentences[1..], maxChar, true);
      assert [] + [sentences[0]] == [sentences[0]];
    }
    if sentences != [] && |sentences[0]| + 1 > maxChar {
      assert SpacedAll([]) == "" by { SpacedAllEmpty([]); }
    }
  }

  /** The corrected loop, which only sends off a non-empty `current`, never
      sends an empty chunk, and still loses no text. */
  lemma CorrectedNeverEmpty(sentences: seq<string>, maxChar: nat)
    ensures var cs := Chunks(sentences, maxChar, false);
      && (forall k :: 0 <= k < |cs| ==> cs[k] != "")
      && Concat(cs) == SpacedAll(sentences)
  {
    var gs := Groups(sentences, maxChar, false);
    GroupsShape([], sentences, maxChar, false);
    if sentences != [] {
      GroupsShape([sentences[0]], sentences[1..], maxChar, false);
      assert [] + [sentences[0]] == [sentences[0]];
    }
    forall k | 0 <= k < |gs| ensures SpacedAll(gs[k]) != "" {
      SpacedAllEmpty(gs[k]);
    }
    ChunksRoundTrip(sentences, maxChar, false);
  }

  /** The example text "Hello world. This is a test. Bye." with budget 15
      gives three chunks; the middle one is 16 characters long because of
      its leading space. */
  lemma ExampleChunks()
    ensures Chunks(["Hello world.", "This is a test.", "Bye."], 15, true)
      == [" Hello world.", " This is a test.", " Bye."]
  {
    var a, b, c := "Hello world.", "This is a test.", "Bye.";
    assert |a| == 12 && |b| == 15 && |c| == 4;
    assert GroupsFrom([b], [c], 15, true) == [[b], [c]] by {
      SpacedAllOne(b);
      assert [c][1..] == [];
      assert GroupsFrom([c], [], 15, true) == [[c]];
    }
    assert GroupsFrom([], [a, b, c], 15, true) == [[a], [b], [c]] by {
      SpacedAllEmpty([]);
      SpacedAllOne(a);
      assert [a, b, c][1..] == [b, c] && [b, c][1..] == [c];
      assert [] + [a] == [a];
      assert GroupsFrom([], [a, b, c], 15, true) == GroupsFrom([a], [b, c], 15, true);
      assert GroupsFrom([a], [b, c], 15, true) == [[a]] + GroupsFrom([b], [c], 15, true);
    }
    assert Chunks([a, b, c], 15, true) == [" " + a, " " + b, " " + c] by {
      SpacedAllOne(a);
      SpacedAllOne(b);
      SpacedAllOne(c);
      assert ChunksOf([[a], [b], [c]]) == [SpacedAll([a]), SpacedAll([b]), SpacedAll([c])];
    }
    assert " " + a == " Hello world." && " " + b == " This is a test." && " " + c == " Bye.";
  }

  /** As written, a first sentence too long for the budget makes the loop
      send an empty chunk before it. */
  lemma ExampleEmptyFirstChunk()
    ensures Chunks(["Hello world."], 5, true) == ["", " Hello world."]
  {
    var a := "Hello world.";
    SpacedAllEmpty([]);
    SpacedAllOne(a);
    assert [a][1..] == [];
    assert GroupsFrom([], [a], 5, true) == [[]] + GroupsFrom([a], [], 5, true) == [[], [a]];
    assert ChunksOf([[], [a]]) == [SpacedAll([]), SpacedAll([a])];
    assert Chunks([a], 5, true) == ["", " " + a];
    assert " " + a == " Hello world.";
  }
}
