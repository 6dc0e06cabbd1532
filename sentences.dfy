/** The sentence splitter re.split(r"(?<=\.) ", text): the text is cut at
    every space that directly follows a period, and those spaces are
    dropped. The regular-expression engine is not modelled; the cut is
    written out character by character. */
module Sentences {
  import opened Text

  /** s has no period immediately followed by a space. */
  predicate NoBreak(s: string) {
    forall k :: 0 <= k < |s| - 1 ==> !(s[k] == '.' && s[k + 1] == ' ')
  }

  predicate EndsWithPeriod(s: string) {
    s != [] && s[|s| - 1] == '.'
  }

  /** The pieces re.split(r"(?<=\.) ", t) returns. The first piece is a
      prefix of t. */
  function Split(t: string): (ps: seq<string>)
    ensures |ps| >= 1
    ensures |ps[0]| <= |t| && ps[0] == t[..|ps[0]|]
    decreases |t|
  {
    if t == [] then [""]
    else if |t| >= 2 && t[0] == '.' && t[1] == ' ' then ["."] + Split(t[2..])
    else
      var rest := Split(t[1..]);
      [[t[0]] + rest[0]] + rest[1..]
  }

  /** Putting a character in front of the first of several pieces puts it
      in front of their join. */
  lemma JoinPrepend(c: char, ps: seq<string>, sep: string)
    requires |ps| >= 1
    ensures Join([[c] + ps[0]] + ps[1..], sep) == [c] + Join(ps, sep)
  {
    var qs := [[c] + ps[0]] + ps[1..];
    if |ps| > 1 {
      assert qs[1..] == ps[1..];
    }
  }

  /** The split loses nothing: joining the pieces with single spaces gives
      the text back. */
  lemma {:induction false} SplitJoin(t: string)
    ensures Join(Split(t), " ") == t
    decreases |t|
  {
    if t == [] {
    } else if |t| >= 2 && t[0] == '.' && t[1] == ' ' {
      SplitJoin(t[2..]);
      JoinCons(".", Split(t[2..]), " ");
      assert t == "." + " " + t[2..];
    } else {
      SplitJoin(t[1..]);
      JoinPrepend(t[0], Split(t[1..]), " ");
      assert t == [t[0]] + t[1..];
    }
  }

  /** Every piece but the last ends with a period, and no piece contains a
      period followed by a space. */
  lemma {:induction false} SplitShape(t: string)
    ensures forall k :: 0 <= k < |Split(t)| - 1 ==> EndsWithPeriod(Split(t)[k])
    ensures forall k :: 0 <= k < |Split(t)| ==> NoBreak(Split(t)[k])
    decreases |t|
  {
    var ps := Split(t);
    if t == [] {
    } else if |t| >= 2 && t[0] == '.' && t[1] == ' ' {
      SplitShape(t[2..]);
      assert ps[1..] == Split(t[2..]);
    } else {
      var rest := Split(t[1..]);
      SplitShape(t[1..]);
      var p := [t[0]] + rest[0];
      assert ps[1..] == rest[1..];
      assert NoBreak(p) by {
        forall k | 0 <= k < |p| - 1 ensures !(p[k] == '.' && p[k + 1] == ' ') {
          if k == 0 {
            assert p[1] == rest[0][0] == t[1];
          } else {
            assert p[k] == rest[0][k - 1] && p[k + 1] == rest[0][k];
          }
        }
      }
      if |ps| > 1 {
        assert EndsWithPeriod(rest[0]);
        assert p[|p| - 1] == rest[0][|rest[0]| - 1];
      }
    }
  }

  /** A period-free-of-breaks prefix that does not end the sentence joins
      the first piece of what follows it. */
  lemma {:induction false} SplitPrefixJoins(p: string, u: string)
    requires NoBreak(p)
    requires !(EndsWithPeriod(p) && u != [] && u[0] == ' ')
    ensures Split(p + u) == [p + Split(u)[0]] + Split(u)[1..]
    decreases |p|
  {
    var su := Split(u);
    if p == [] {
      assert p + u == u;
      assert p + su[0] == su[0];
      assert su == [su[0]] + su[1..];
    } else {
      var p', t := p[1..], p + u;
      assert t[1..] == p' + u;
      assert NoBreak(p') by {
        forall k | 0 <= k < |p'| - 1 ensures !(p'[k] == '.' && p'[k + 1] == ' ') {
          assert p'[k] == p[k + 1] && p'[k + 1] == p[k + 2];
        }
      }
      if p' != [] {
        assert p'[|p'| - 1] == p[|p| - 1];
      }
      SplitPrefixJoins(p', u);
      var rest := Split(t[1..]);
      assert rest == [p' + su[0]] + su[1..];
      assert !(|t| >= 2 && t[0] == '.' && t[1] == ' ') by {
        if |p| >= 2 {
          assert t[0] == p[0] && t[1] == p[1];
        } else if u != [] {
          assert t[0] == p[0] && t[1] == u[0];
        }
      }
      assert Split(t) == [[t[0]] + rest[0]] + rest[1..];
      assert [p[0]] + (p' + su[0]) == p + su[0];
    }
  }

  /** A break-free sentence ending in a period, followed by a space, is cut
      off as a piece of its own. */
  lemma {:induction false} SplitSentenceThenRest(p: string, v: string)
    requires NoBreak(p) && EndsWithPeriod(p)
    ensures Split(p + " " + v) == [p] + Split(v)
    decreases |p|
  {
    var t := p + " " + v;
    if |p| == 1 {
      assert t[0] == '.' && t[1] == ' ';
      assert t[2..] == v;
      assert p == ".";
    } else {
      var p' := p[1..];
      assert NoBreak(p') by {
        forall k | 0 <= k < |p'| - 1 ensures !(p'[k] == '.' && p'[k + 1] == ' ') {
          assert p'[k] == p[k + 1] && p'[k + 1] == p[k + 2];
        }
      }
      assert p'[|p'| - 1] == p[|p| - 1];
      assert t[1..] == p' + " " + v;
      assert t[0] == p[0] && t[1] == p[1];
      SplitSentenceThenRest(p', v);
      var rest := Split(t[1..]);
      assert rest == [p'] + Split(v);
      assert Split(t) == [[t[0]] + rest[0]] + rest[1..];
      assert [p[0]] + p' == p;
      assert rest[1..] == Split(v);
    }
  }

  /** The converse of SplitJoin: pieces shaped like the splitter's output
      (every piece but the last ends with a period, none contains a period
      followed by a space) are exactly what splitting their join returns. */
  lemma {:induction false} JoinSplit(ps: seq<string>)
    requires |ps| >= 1
    requires forall k :: 0 <= k < |ps| - 1 ==> EndsWithPeriod(ps[k])
    requires forall k :: 0 <= k < |ps| ==> NoBreak(ps[k])
    ensures Split(Join(ps, " ")) == ps
    decreases |ps|
  {
    if |ps| == 1 {
      SplitPrefixJoins(ps[0], "");
      assert ps[0] + "" == ps[0];
    } else {
      JoinSplit(ps[1..]);
      JoinCons(ps[0], ps[1..], " ");
      SplitSentenceThenRest(ps[0], Join(ps[1..], " "));
      assert ps == [ps[0]] + ps[1..];
    }
  }

  /** The three sentences of the chunking example. */
  lemma ExampleSplit()
    ensures Split("Hello world. This is a test. Bye.") == ["Hello world.", "This is a test.", "Bye."]
  {
    var a, b, c := "Hello world.", "This is a test.", "Bye.";
    var ps := [a, b, c];
    ExampleUnbroken();
    assert forall k :: 0 <= k < |ps| ==> NoBreak(ps[k]);
    assert EndsWithPeriod(a) && EndsWithPeriod(b);
    ExampleJoin();
    JoinSplit(ps);
  }

  /** The example sentences joined with single spaces. */
  lemma ExampleJoin()
    ensures Join(["Hello world.", "This is a test.", "Bye."], " ") == "Hello world. This is a test. Bye."
  {
    var a, b, c := "Hello world.", "This is a test.", "Bye.";
    var ps := [a, b, c];
    assert ps[1..] == [b, c] && [b, c][1..] == [c];
    assert Join([b, c], " ") == b + " " + c;
    assert Join(ps, " ") == a + " " + (b + " " + c);
  }

  /** None of the example sentences contains a period followed by a space. */
  lemma ExampleUnbroken()
    ensures NoBreak("Hello world.") && NoBreak("This is a test.") && NoBreak("Bye.")
  {
    assert NoBreak("Hello world.");
    assert NoBreak("This is a test.");
  }
}
