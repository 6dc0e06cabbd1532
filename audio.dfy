/** get_text of audio.py: the flatten, `ch_links` scan, slice and reading of
    epub_trans.py, returning the chapter text alone (the book file name is
    fixed and the chosen number is not returned). */
module Audio {
  import opened Results
  import opened Text
  import opened Book
  import opened Prompt
  import EpubTrans

  /** What get_text returns for a book and the typed chapter number. */
  function AudioText(toc: seq<TocItem>, docs: seq<Document>, selInput: string): Result<string> {
    match EpubTrans.TransText(toc, docs, selInput)
    case Err(e) => Err(e)
    case Ok((text, _)) => Ok(text)
  }

  /** get_text of audio.py, after the book is loaded. */
  method GetText(toc: seq<TocItem>, docs: seq<Document>, selInput: string) returns (r: Result<string>)
    ensures r == AudioText(toc, docs, selInput)
  {
    var chapters := EpubTrans.ListChapters(toc);
    if chapters.Err? {
      return Err(chapters.error);
    }
    var chLinks := EpubTrans.MatchChapters(Names(docs), chapters.value);
    if chLinks.Err? {
      return Err(chLinks.error);
    }
    var sel := ParseInt(selInput);
    if sel.None? {
      return Err(ValueError);
    }
    var range := EpubTrans.Select(chLinks.value, |chapters.value|, |docs|, sel.value);
    if range.Err? {
      return Err(range.error);
    }
    var text := EpubTrans.ReadSection(docs, range.value);
    return Ok(text);
  }

  /** The returned text has no newline and no leading, trailing or doubled
      space. */
  lemma AudioTextNormal(toc: seq<TocItem>, docs: seq<Document>, selInput: string)
    ensures var r := AudioText(toc, docs, selInput);
      r.Ok? ==> IsNormal(r.value) && '\n' !in r.value
  {
    EpubTrans.TransTextNormal(toc, docs, selInput);
  }

  /** An empty table of contents with at least one document makes the
      scan index `chapters[0]`, which raises IndexError. */
  lemma EmptyTocFails(docs: seq<Document>, selInput: string)
    requires docs != []
    ensures AudioText([], docs, selInput) == Err(IndexError)
  {
    EpubTrans.EmptyTocFails(docs, selInput);
  }

  /** When every chapter was matched and sel is a chapter number, the text
      is that of the chapter's own documents: up to the next chapter's
      document, or to the end of the book for the last chapter. */
  lemma AudioTextReads(toc: seq<TocItem>, docs: seq<Document>, selInput: string, chapters: seq<string>, chLinks: seq<nat>, sel: int)
    requires EpubTrans.Flatten(toc) == Ok(chapters) && EpubTrans.Match(Names(docs), chapters) == Ok(chLinks)
    requires |chLinks| == |chapters| && ParseInt(selInput) == Some(sel) && 0 <= sel < |chapters|
    ensures docs[chLinks[sel]].name == chapters[sel]
    ensures var hi := if sel == |chapters| - 1 then |docs| else chLinks[sel + 1];
      AudioText(toc, docs, selInput) == Ok(EpubTrans.SectionText(docs, Range(chLinks[sel], hi)))
  {
    EpubTrans.TransTextReads(toc, docs, selInput, chapters, chLinks, sel);
  }
}
