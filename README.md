# epub-mp3 text pipeline, modelled in Dafny

The repository holds three scripts that turn a chosen chapter of an EPUB
book into an MP3 file through a text-to-speech service: `epub_mp3.py`,
`epub_trans.py` and `audio.py`. Between loading the book and calling the
speech service, each script does a short run of text and index work. This
project models that work and proves what it guarantees:

- `read`, the text extractor, over the (parent tag, text) leaves that the
  HTML parser yields for one document. Leaves under a blacklisted tag are
  dropped. Every other leaf is stripped and given a pause suffix. The
  heading rule (`". "` after a tag whose name starts with `h`) exists only
  in `epub_mp3.py`; the parameter `headingStop` selects it (module
  `Extract`).
- The whitespace normaliser `" ".join(text.replace("\n", " ").split())`,
  with Python's `str.isspace` set written out (module `Text`).
- `get_input`, the validated prompt of `epub_mp3.py`, over a finite
  sequence of typed attempts, with Python's `int()` on ASCII digits
  (module `Prompt`).
- The chapter resolver of `epub_mp3.py`: the depth-first `print_ch` walk
  over the table of contents, which cuts `#fragment`s, skips an entry whose
  document repeats the previous one and stores document positions in `pos`.
  The nonlocal `j`, `prev` and `pos` are the fields of the class
  `TocIndex`. Then `range(pos[start], pos[end + 1])` and the chapter loop
  (module `EpubMp3`).
- The chapter resolver of `epub_trans.py`, which `audio.py` repeats line
  for line: the two-level flatten of the table of contents, the greedy
  in-order scan that builds `ch_links`, and the slice chosen by the
  unchecked number `sel` (modules `EpubTrans` and `Audio`).
- The sentence split `re.split(r"(?<=\.) ", text)`, written by hand
  (module `Sentences`).
- The greedy chunk loop of `main`, with the speech call replaced by
  appending the chunk to a result sequence. `MaxChar` is 4500 in `EpubMp3`
  and 5000 in `EpubTrans` (module `Chunker`).

The book arrives as values (module `Book`). The table of contents is a
tree of `Link(title, href)` and `Section(title, href, children)`; a
`Section` is the library's `(section, [children])` pair. The document
list is a sequence of `Document(name, leaves)`: the book's document items,
in the order `get_items_of_type(ebooklib.ITEM_DOCUMENT)` yields them. Every loop of the scripts is a
method proved equal to a specification function. The properties are
lemmas about those functions.

The blacklist has no `style` entry, so `style` text is spoken
(`Extract.StyleIsSpoken`).

## Model

| member | source | states |
|---|---|---|
| Extract.Read | epub_mp3.py:28-43 | The loop's output is the in-order concatenation of every leaf's contribution: nothing for a blacklisted parent, else the stripped text followed by the tag's suffix. |
| Extract.SpeakableAppend | epub_mp3.py:33-43 | Reading two runs of leaves one after the other gives the two outputs concatenated, with nothing in between. |
| Extract.BlacklistedLeafSilent | epub_mp3.py:34 | Inserting a leaf under a blacklisted tag anywhere leaves the output unchanged. |
| Extract.SpokenLeaf | epub_mp3.py:35-42 | A leaf under any other tag appends its stripped text and then its suffix to the output. |
| Extract.ListItemsExample | epub_mp3.py:35-37 | Two list items x and y read as `x, y, ` in every script. |
| Extract.HeadingExample | epub_trans.py:34-41 | A heading ends with `. ` under the heading rule of epub_mp3.py and with a plain space in epub_trans.py and audio.py. |
| Extract.StyleIsSpoken | audio.py:12-21 | The blacklist has no `style` entry, so a style sheet's text is spoken. |
| Text.Strip | epub_mp3.py:37-42 | The stripped text neither starts nor ends with whitespace. |
| Text.StripInfix | epub_mp3.py:37-42 | Every string is some whitespace, then its stripped text, then more whitespace. |
| Text.WordsIgnoreNewlines | epub_mp3.py:118 | Replacing newlines by spaces does not change the words `split()` finds. |
| Text.WordsOfJoin | epub_mp3.py:119 | Splitting a space-joined list of words gives the words back. |
| Text.NormaliseIsNormal | epub_mp3.py:118-119 | A normalised chapter has no newline, no leading or trailing whitespace and no two adjacent spaces, and it keeps the words of its input. |
| Text.NormalIsJoinOfWords | epub_mp3.py:119 | A normal string is the space-join of its own words. |
| Text.NormalIsFixpoint | epub_mp3.py:118-119 | Normalising a normal string leaves it unchanged. |
| Text.NormaliseIdempotent | epub_mp3.py:118-119 | Normalising twice is normalising once. |
| Text.ConcatAppend | epub_trans.py:86-87 | Concatenating two lists of pieces is concatenating their concatenations. |
| Prompt.ParseStr | epub_mp3.py:54-56 | `int()` reads back the decimal form of every integer of at most 4300 digits, and refuses any longer one. |
| Prompt.ParseDigits | epub_mp3.py:54 | `int()` accepts an optional minus sign and digits with single underscores between them and gives their value, unless there are more than 4300 digits (CPython's default `sys.int_info.default_max_str_digits`), when it raises ValueError. |
| Prompt.ZerosThenOne | epub_mp3.py:54-58 | Leading zeros count towards the 4300-digit limit: `"0" * k + "1"` reads as 1 for k < 4300 and is refused from k = 4300 on, so `get_input` asks again. |
| Prompt.ParsedPrintable | epub_trans.py:164 | Every number `int()` accepts has at most 4300 digits, so `f"ch{sel}.mp3"` never hits the limit of `str()`. |
| Prompt.ParsePadded | epub_mp3.py:54 | `int()` ignores the whitespace around a number (`str.isspace()` characters other than U+001C..U+001F): the padded text reads as the bare number does, and as the number itself when it has at most 4300 digits. |
| Prompt.TrimPadded | epub_mp3.py:54 | `int()`'s trim removes exactly that whitespace around text whose ends are not whitespace. |
| Prompt.SeparatorNotSkipped | epub_mp3.py:54-58 | A U+001C separator before a number makes `int()` fail, so `get_input` asks again. |
| Text.StripPadded | epub_mp3.py:37-42 | `str.strip()` removes exactly the whitespace around text whose ends are not whitespace. |
| Prompt.DecimalDigits | epub_trans.py:164 | The decimal form of n is ASCII digits with no underscore, and its value is n. |
| Prompt.Ask | epub_mp3.py:46-60 | An answer is a member of `other` or an integer within the bounds, and at least one attempt is consumed. Running out of attempts is the only error. |
| Prompt.AskConsumes | epub_mp3.py:47-49 | The attempts left after an answer are exactly those after the accepted one. |
| Prompt.AskFirstAccepted | epub_mp3.py:47-56 | The answer is the first acceptable attempt; all earlier attempts were rejected. |
| Prompt.AskExhausted | epub_mp3.py:47-60 | The prompt gives up exactly when every attempt is rejected. |
| Prompt.OtherBeforeNumber | epub_mp3.py:51-52 | A member of `other` is returned as typed, before any integer parse. |
| Prompt.GetInput | epub_mp3.py:46-60 | The retry loop returns what `Ask` specifies. |
| Prompt.ChooseRange | epub_mp3.py:102-110 | A chosen range satisfies 0 ≤ start ≤ end < j. |
| Prompt.AskRange | epub_mp3.py:102-110 | The two prompts return what `ChooseRange` specifies. |
| Prompt.BlankEndIsStart | epub_mp3.py:103-110 | A blank end answer selects the start chapter alone, for any start typed as its decimal form (at most 4300 digits, as `int()` requires). |
| Prompt.NoChaptersNoRange | epub_mp3.py:102 | With no entries no start is ever accepted. |
| EpubMp3.CutAnchor | epub_mp3.py:86-90 | The key contains no `#`. It is the part of the href before the first `#`, or the whole href when there is none. |
| EpubMp3.KeysAreCutHrefs | epub_mp3.py:78-97 | The walk visits the entries in the same depth-first order as `Book.Hrefs` lists them; each key is that href with its fragment cut. |
| EpubMp3.KeysNoAnchor | epub_mp3.py:82-90 | No document key of the walk contains `#`. |
| EpubMp3.CollapseNoRepeats | epub_mp3.py:91-97 | No two consecutive kept keys are equal, and the first kept key differs from the initial `prev` of `""`. |
| EpubMp3.CollapseAppend | epub_mp3.py:82-84 | Walking two key sequences in turn is walking their concatenation, with `prev` carried over. |
| EpubMp3.WalkIsLookup | epub_mp3.py:78-97 | The walk stores the document position of every kept key in order. It fails with KeyError exactly when some kept key is not a document name. |
| EpubMp3.WalkAppend | epub_mp3.py:82-84 | The walk over a concatenation is the walk over the first part and then over the second, and a failure in the first part is final. |
| EpubMp3.TocIndex.constructor | epub_mp3.py:74-76 | The walk starts with j = 0, an empty `pos` and `prev` = `""`. |
| EpubMp3.TocIndex.VisitEntry | epub_mp3.py:85-97 | A repeated document is skipped. A new one appends its document position, increments j and becomes `prev`. An unknown one fails. j = len(pos) throughout. |
| EpubMp3.TocIndex.Visit | epub_mp3.py:78-99 | The recursive walk appends to `pos` exactly the positions `Walk` specifies, leaves `prev` at the last key seen, and keeps j = len(pos). |
| EpubMp3.IndexOf | epub_mp3.py:68-71 | `idx` holds exactly the document names, each mapped to its last position in the document list. |
| EpubMp3.TocPositions | epub_mp3.py:74-99 | Every stored position is a document index. |
| EpubMp3.ResolveRange | epub_mp3.py:116 | The lookup `pos[end + 1]` fails, with IndexError, exactly when end is the last entry. |
| EpubMp3.LastEntryFails | epub_mp3.py:116 | Selecting the last entry always fails. |
| EpubMp3.RangeEmptyWhenNotIncreasing | epub_mp3.py:116 | Nothing is read when the entry after end lies at or before start in the document list. |
| EpubMp3.RangeWhenIncreasing | epub_mp3.py:116 | With increasing positions, the documents read form a non-empty run that starts at the start entry's document and covers every selected entry's document. |
| EpubMp3.ResolveRangeToEnd | epub_mp3.py:116 | The intended range: the last entry runs to the end of the document list. |
| EpubMp3.RangeToEndReadsLast | epub_mp3.py:116 | With the intended range the last entry reads its own document through the last one, and every other selection is unchanged. |
| EpubMp3.ChapterTexts | epub_mp3.py:114-120 | One text per document read, each normal and free of newlines. |
| EpubMp3.ReadChapters | epub_mp3.py:114-120 | The chapter loop stores the normalised read of each document, in order. |
| EpubMp3.GetText | epub_mp3.py:63-122 | get_text returns what `Mp3Text` specifies: the walk, the two prompts, the range and the newline-joined chapters. |
| EpubMp3.Mp3TextReads | epub_mp3.py:114-122 | The text is the newline join of the normalised reads of documents pos[start] up to pos[end + 1] - 1, in order. |
| EpubMp3.Mp3TextLastEntryFails | epub_mp3.py:102-116 | When the end entry is the last one, get_text fails with IndexError, whether the end was typed or left blank. |
| EpubMp3.Narrate | epub_mp3.py:186-212 | The chunks sent are those of the chunk loop with a budget of 4500 over the split text, and together they spell `" " + text`. |
| Sentences.Split | epub_mp3.py:195 | There is always at least one piece, and the first piece is a prefix of the text. |
| Sentences.SplitJoin | epub_mp3.py:195 | Joining the pieces with spaces gives the text back. |
| Sentences.SplitShape | epub_mp3.py:195 | Every piece but the last ends with a period, and no piece contains a period followed by a space. |
| Sentences.SplitSentenceThenRest | epub_mp3.py:195 | A sentence ending in a period, then a space, then more text splits into that sentence and the split of the rest. |
| Sentences.JoinSplit | epub_trans.py:149 | Splitting the space-join of pieces of that shape gives the pieces back. |
| Sentences.ExampleSplit | epub_mp3.py:195 | `"Hello world. This is a test. Bye."` splits into its three sentences. |
| Chunker.Chunk | epub_mp3.py:201-212 | The chunk loop, with the speech call replaced by collecting the chunk, produces what `Chunks` specifies. |
| Chunker.GroupsPartition | epub_mp3.py:204-209 | The groups of sentences, in order, are exactly the sentences. |
| Chunker.ChunksRoundTrip | epub_mp3.py:201-212 | The concatenated chunks are the concatenation of `" " + s` over all sentences. |
| Chunker.TextRoundTrip | epub_trans.py:151-162 | The concatenated chunks of the split text are `" " + text`. |
| Chunker.ChunkBound | epub_mp3.py:204-209 | Every chunk fits the budget, unless it is `" " + s` for a single sentence s. |
| Chunker.ChunksGreedy | epub_trans.py:154-159 | A sentence joins the current chunk whenever it fits. A chunk is closed only when the next sentence and its space would exceed the budget. |
| Chunker.GroupsClosed | epub_mp3.py:205-207 | A chunk is closed only when the next sentence and its space would push it over the budget. |
| Chunker.FilledFits | epub_mp3.py:205-209 | A chunk of two or more sentences fits the budget. |
| Chunker.EmptyChunkOnlyFirst | epub_mp3.py:205-212 | As written, an empty chunk is sent exactly when the first sentence and its space exceed the budget, and only as the first chunk. The final chunk is never empty. |
| Chunker.CorrectedNeverEmpty | epub_mp3.py:205-207 | When only a non-empty `current` is sent, no chunk is empty and the concatenation is unchanged. |
| Chunker.ExampleChunks | epub_mp3.py:204-212 | The three example sentences with a budget of 15 become `" Hello world."`, `" This is a test."` (16 characters) and `" Bye."`. |
| Chunker.ExampleEmptyFirstChunk | epub_trans.py:155-157 | A first sentence longer than the budget is preceded by an empty chunk. |
| Book.Names | epub_trans.py:50-51 | `links` holds the document names in order. |
| Book.Range | epub_mp3.py:116 | Python's `range(lo, hi)`: hi - lo consecutive integers from lo, or none when hi ≤ lo. |
| EpubTrans.Flatten | epub_trans.py:53-63 | The flatten fails only with AttributeError. |
| EpubTrans.FlattenShallow | epub_trans.py:53-63 | The flatten succeeds exactly when no tuple is nested inside a tuple. It then lists every href depth first: a tuple's own href, then its children's hrefs. |
| EpubTrans.FlattenStaysErr | epub_trans.py:58-60 | A nested tuple stops the whole flatten. |
| EpubTrans.ListChapters | epub_trans.py:53-63 | The nested loops build what `Flatten` specifies. |
| EpubTrans.MatchFrom | epub_trans.py:66-75 | `ch_links` is strictly increasing and no longer than `chapters`. Its k-th entry names a document equal to `chapters[k]`. |
| EpubTrans.MatchChapters | epub_trans.py:66-75 | The scan with its early break builds what `Match` specifies. |
| EpubTrans.MatchErr | epub_trans.py:69-70 | The scan fails with IndexError exactly when `chapters` is empty and the document list is not. |
| EpubTrans.MatchGreedy | epub_trans.py:66-75 | Each `ch_links` entry is the first matching file after the previous match. A chapter left unmatched matches no file after the last match. |
| EpubTrans.MatchComplete | epub_trans.py:66-75 | Every chapter is matched exactly when the hrefs occur in order among the document names. |
| EpubTrans.Select | epub_trans.py:79-83 | The slice holds only document indices, and the only error is IndexError. |
| EpubTrans.SelectLast | epub_trans.py:80-81 | The last chapter runs from its own document to the end of the book, and the slice is not empty. |
| EpubTrans.SelectMiddle | epub_trans.py:82-83 | With every chapter matched, any other chapter is the non-empty run from its own document to just before the next chapter's document. |
| EpubTrans.SelectFromEnd | epub_trans.py:77-83 | A negative sel below -1 picks a chapter counted from the end. |
| EpubTrans.SelectMinusOne | epub_trans.py:77-83 | With two or more chapters, sel = -1 selects no document. |
| EpubTrans.SelectNextUnmatched | epub_trans.py:82-83 | When the chapter after the last matched one is unmatched, choosing that last matched chapter raises IndexError at `ch_links[sel + 1]`. |
| EpubTrans.SelectOutOfRange | epub_trans.py:77-83 | A sel outside the range of `ch_links` raises IndexError. |
| EpubTrans.RawTextIsOneRead | epub_trans.py:85-87 | Reading the documents one by one and concatenating is reading all their leaves as one document. |
| EpubTrans.SectionText | epub_trans.py:85-90 | The chapter text is normal and free of newlines, and its words are those of reading the selected documents as one. |
| EpubTrans.ReadSection | epub_trans.py:85-90 | The reading loop and the two normalising lines return what `SectionText` specifies. |
| EpubTrans.GetText | epub_trans.py:44-92 | get_text returns what `TransText` specifies: flatten, scan, parse sel, slice, read. |
| EpubTrans.TransTextNormal | epub_trans.py:85-92 | The returned text is normal and free of newlines. |
| EpubTrans.TransTextReads | epub_trans.py:79-92 | When every chapter is matched and sel is a chapter number, the text comes from the chapter's own document up to the next chapter's document, or to the end of the book. |
| EpubTrans.NonNumberFails | epub_trans.py:77 | A chapter number `int()` cannot read raises ValueError; there is no retry. |
| EpubTrans.EmptyTocFails | epub_trans.py:69-70 | An empty table of contents with a non-empty document list fails with IndexError. |
| EpubTrans.Narrate | epub_trans.py:146-164 | The chunks sent are those of the chunk loop with a budget of 5000 over the split text, they spell `" " + text`, and the output file is `ch<sel>.mp3`. |
| Audio.GetText | audio.py:37-88 | get_text returns the text `TransText` specifies, without sel. |
| Audio.AudioTextNormal | audio.py:81-88 | The returned text is normal and free of newlines. |
| Audio.EmptyTocFails | audio.py:64-65 | An empty table of contents with a non-empty document list fails with IndexError at `chapters[0]`. |
| Audio.AudioTextReads | audio.py:75-88 | With every chapter matched, the text comes from the chapter's own document up to the next chapter's document, or to the end of the book for the last chapter. |

## Left out

- Loading the EPUB archive (`epub.read_epub`, `get_items_of_type`, `get_content`, `file_name`, `get_name`) is foreign library code. The table of contents and the document list are inputs.
- The order of the document list is whatever `get_items_of_type` yields. Nothing in the scripts ties it to the reading order of the book, and the model does not assume that it is.
- HTML parsing by BeautifulSoup is a foreign parser. A document is the sequence of (parent tag, text) leaves it would yield.
- The text-to-speech client (`get_mp3`, credentials) is a network service. Each call becomes appending the chunk to the result sequence.
- Decoding, concatenating and exporting audio with pydub is codec work. `EpubTrans.Narrate` returns the output file name instead of writing the file. audio.py's `main` is not part of this model.
- Terminal I/O is not modelled: argparse, `print` with colours, tqdm and the dry run's `quit()`. Typed answers are a finite sequence of attempts.
- Prompt.GetInput: Python blocks for more input, or raises EOFError, when the attempts run out. The model returns InputExhausted instead.
- The regular-expression engine is not modelled. The split at a space after a period is written by hand.
- Prompt.ParseInt: Python's `int()` also accepts non-ASCII Unicode digits. Only ASCII digits are modelled.
- Prompt.ParseInt: the 4300-digit limit is CPython's default since 3.11 (and 3.10.7, 3.9.14, 3.8.14, 3.7.14). Raising it with `sys.set_int_max_str_digits` or `PYTHONINTMAXSTRDIGITS`, and older interpreters without a limit, are not modelled.
- The output file prompt of epub_mp3.py (`outfile`, lines 188-192) is left out. So is the fact that `outfile` is never assigned when `-o` is given.
- `creds` is unbound when `-k` is absent (epub_mp3.py:183-184). This is argument plumbing outside the text pipeline.
- The methods follow the code as written: `Chunker.Chunk` sends an empty first chunk, and `EpubMp3.GetText` fails on the last entry. The corrected definitions (`Chunks` with `flushEmpty` false, `ResolveRangeToEnd`) stand beside them with their properties proved.

## Findings

| source | as written | input that shows it | evidently intended | confidence | as-written member | corrected member |
|---|---|---|---|---|---|---|
| epub_mp3.py:205-207 (also epub_trans.py:155-157) | `current` is sent to the speech service before the first sentence is added, even while it is still empty | the sentences `["Hello world."]` with a budget of 5: the chunks are `""` and `" Hello world."` | send `current` only when it is non-empty | not executed | Chunker.ExampleEmptyFirstChunk | Chunker.CorrectedNeverEmpty |
| epub_mp3.py:116 | `pos[end + 1]` is looked up, and `pos` has only j entries | any book, choosing start = end = j - 1 (the last entry): IndexError | the last entry reads from its own document to the end of the document list | not executed | EpubMp3.Mp3TextLastEntryFails | EpubMp3.RangeToEndReadsLast |
