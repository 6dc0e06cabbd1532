/** The text extractor `read`: it walks the text leaves of one parsed
    document in order, drops those whose parent tag is blacklisted, and
    appends every other leaf stripped and followed by a pause suffix chosen
    by the parent tag. The HTML parser itself is not modelled; a document
    is the sequence of (parent tag, text) leaves the parser would yield. */
module Extract {
  import opened Text

  /** A tag name as the HTML parser reports it; never empty. */
  type TagName = s: string | |s| > 0 witness "p"

  /** One text node and the name of its enclosing tag. */
  datatype Leaf = Leaf(parent: TagName, text: string)

  /** Parent tags whose text is never spoken. There is no "style" entry. */
  const Blacklist: seq<string> :=
    ["[document]", "noscript", "header", "html", "meta", "head", "input", "script"]

  /** The pause written after a spoken leaf. With headingStop (the variant in
      epub_mp3.py) a tag whose name starts with 'h' ends a sentence; the other
      two scripts give headings the plain space. */
  function Suffix(tag: TagName, headingStop: bool): string {
    if tag == "li" then ", "
    else if headingStop && tag[0] == 'h' then ". "
    else " "
  }

  /** What one leaf adds to the output. */
  function Contribution(leaf: Leaf, headingStop: bool): string {
    if leaf.parent in Blacklist then "" else Strip(leaf.text) + Suffix(leaf.parent, headingStop)
  }

  /** The contribution of every leaf, in document order. */
  function Contributions(leaves: seq<Leaf>, headingStop: bool): seq<string> {
    seq(|leaves|, k requires 0 <= k < |leaves| => Contribution(leaves[k], headingStop))
  }

  /** The text `read` returns for a whole leaf sequence: the contributions
      of the leaves, concatenated in order. */
  function Speakable(leaves: seq<Leaf>, headingStop: bool): string {
    Concat(Contributions(leaves, headingStop))
  }

  /** The loop of `read`: output grows leaf by leaf. */
  method Read(leaves: seq<Leaf>, headingStop: bool) returns (output: string)
    ensures output == Speakable(leaves, headingStop)
  {
    output := "";
    var i := 0;
    while i < |leaves|
      invariant 0 <= i <= |leaves|
      invariant output == Speakable(leaves[..i], headingStop)
    {
      var item := leaves[i];
      if item.parent !in Blacklist {
        if item.parent == "li" {
          output := output + Strip(item.text) + ", ";
        } else if headingStop && item.parent[0] == 'h' {
          output := output + Strip(item.text) + ". ";
        } else {
          output := output + Strip(item.text) + " ";
        }
      }
      SpeakableSnoc(leaves, i, headingStop);
      i := i + 1;
    }
    assert leaves[..i] == leaves;
  }

  /** Reading one more leaf appends that leaf's contribution. */
  lemma SpeakableSnoc(leaves: seq<Leaf>, i: nat, headingStop: bool)
    requires i < |leaves|
    ensures Speakable(leaves[..i + 1], headingStop) == Speakable(leaves[..i], headingStop) + Contribution(leaves[i], headingStop)
  {
    var c := Contribution(leaves[i], headingStop);
    assert Contributions(leaves[..i + 1], headingStop) == Contributions(leaves[..i], headingStop) + [c];
    ConcatAppend(Contributions(leaves[..i], headingStop), [c]);
    ConcatSingle(c);
  }

  /** Reading two leaf sequences one after the other is reading their
      concatenation: the output keeps document order. */
  lemma SpeakableAppend(a: seq<Leaf>, b: seq<Leaf>, headingStop: bool)
    ensures Speakable(a + b, headingStop) == Speakable(a, headingStop) + Speakable(b, headingStop)
  {
    assert Contributions(a + b, headingStop) == Contributions(a, headingStop) + Contributions(b, headingStop);
    ConcatAppend(Contributions(a, headingStop), Contributions(b, headingStop));
  }

  /** A single leaf is read as its own contribution. */
  lemma SpeakableOne(leaf: Leaf, headingStop: bool)
    ensures Speakable([leaf], headingStop) == Contribution(leaf, headingStop)
  {
    assert Contributions([leaf], headingStop) == [Contribution(leaf, headingStop)];
    ConcatSingle(Contribution(leaf, headingStop));
  }

  /** A leaf under a blacklisted tag contributes nothing wherever it stands. */
  lemma BlacklistedLeafSilent(a: seq<Leaf>, leaf: Leaf, b: seq<Leaf>, headingStop: bool)
    requires leaf.parent in Blacklist
    ensures Speakable(a + [leaf] + b, headingStop) == Speakable(a + b, headingStop)
  {
    var sa := Speakable(a, headingStop);
    assert Contribution(leaf, headingStop) == "";
    assert Speakable(a + [leaf], headingStop) == sa by {
      SpeakableAppend(a, [leaf], headingStop);
      SpeakableOne(leaf, headingStop);
      assert sa + "" == sa;
    }
    SpeakableAppend(a + [leaf], b, headingStop);
    SpeakableAppend(a, b, headingStop);
  }

  /** A spoken leaf adds its stripped text and then its suffix, which is
      ", " for a list item, ". " for a heading when headingStop is on, and a
      single space otherwise. */
  lemma SpokenLeaf(a: seq<Leaf>, leaf: Leaf, headingStop: bool)
    requires leaf.parent !in Blacklist
    ensures Speakable(a + [leaf], headingStop) == Speakable(a, headingStop) + Strip(leaf.text)
      + (if leaf.parent == "li" then ", " else if headingStop && leaf.parent[0] == 'h' then ". " else " ")
  {
    SpeakableAppend(a, [leaf], headingStop);
    SpeakableOne(leaf, headingStop);
  }

  /** List items are read with a comma pause after each:
      <li>Apples</li><li>Oranges</li> reads "Apples, Oranges, ". */
  lemma ListItemsExample(x: string, y: string, headingStop: bool)
    requires Bare(x) && Bare(y)
    ensures Speakable([Leaf("li", x), Leaf("li", y)], headingStop) == x + ", " + y + ", "
  {
    var l1, l2 := Leaf("li", x), Leaf("li", y);
    assert [l1, l2] == [l1] + [l2];
    SpeakableAppend([l1], [l2], headingStop);
    SpeakableOne(l1, headingStop);
    SpeakableOne(l2, headingStop);
    StripPlain(x);
    StripPlain(y);
  }

  /** A heading ends with a full stop under the heading rule and with a
      plain space without it: <h1>Chapter One</h1> reads "Chapter One. "
      in epub_mp3.py and "Chapter One " in the other two scripts. */
  lemma HeadingExample(x: string)
    requires Bare(x)
    ensures Speakable([Leaf("h1", x)], true) == x + ". "
    ensures Speakable([Leaf("h1", x)], false) == x + " "
  {
    SpeakableOne(Leaf("h1", x), true);
    SpeakableOne(Leaf("h1", x), false);
    StripPlain(x);
  }

  /** Text inside a style element is spoken, since "style" is not on the
      blacklist. */
  lemma StyleIsSpoken(css: string, headingStop: bool)
    requires Bare(css)
    ensures Speakable([Leaf("style", css)], headingStop) == css + " "
  {
    SpeakableOne(Leaf("style", css), headingStop);
    StripPlain(css);
  }
}
