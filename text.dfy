/** The string primitives the scripts borrow from Python: whitespace as
    str.isspace() sees it, str.strip(), str.split() with no argument,
    sep.join(parts), and the chapter normaliser built from them
    (text.replace("\n", " ") followed by " ".join(text.split())). */
module Text {

  /** Python's str.isspace() for one character: the set str.strip() and
      str.split() remove when called without an argument. */
  predicate IsSpace(c: char) {
    || ('\t' <= c <= '\r')
    || ('\U{1C}' <= c <= ' ')
    || c == '\U{85}' || c == '\U{A0}' || c == '\U{1680}'
    || ('\U{2000}' <= c <= '\U{200A}')
    || c == '\U{2028}' || c == '\U{2029}' || c == '\U{202F}' || c == '\U{205F}' || c == '\U{3000}'
  }

  predicate NoSpace(s: string) {
    forall k :: 0 <= k < |s| ==> !IsSpace(s[k])
  }

  predicate AllSpace(s: string) {
    forall k :: 0 <= k < |s| ==> IsSpace(s[k])
  }

  /** Characters for which sp holds removed from both ends of s: the trim
      shared by str.strip() and int(), which differ only in the set of
      characters they skip. */
  function TrimBy(s: string, sp: char -> bool): (r: string)
    ensures r == [] || (!sp(r[0]) && !sp(r[|r| - 1]))
    decreases |s|
  {
    if s != [] && sp(s[0]) then TrimBy(s[1..], sp)
    else if s != [] && sp(s[|s| - 1]) then TrimBy(s[..|s| - 1], sp)
    else s
  }

  /** Trimming removes exactly the skipped characters around text whose ends
      are not skipped. */
  lemma {:induction false} TrimByPadded(pre: string, s: string, post: string, sp: char -> bool)
    requires forall k :: 0 <= k < |pre| ==> sp(pre[k])
    requires forall k :: 0 <= k < |post| ==> sp(post[k])
    requires s != [] && !sp(s[0]) && !sp(s[|s| - 1])
    ensures TrimBy(pre + s + post, sp) == s
    decreases |pre| + |post|
  {
    var t := pre + s + post;
    if pre != [] {
      assert t[1..] == pre[1..] + s + post;
      TrimByPadded(pre[1..], s, post, sp);
    } else if post != [] {
      assert t[0] == s[0];
      assert t[..|t| - 1] == pre + s + post[..|post| - 1];
      TrimByPadded(pre, s, post[..|post| - 1], sp);
    } else {
      assert t == s;
    }
  }

  /** Python's str.strip(): whitespace removed from both ends. */
  function Strip(s: string): (r: string)
    ensures r == [] || (!IsSpace(r[0]) && !IsSpace(r[|r| - 1]))
  {
    TrimBy(s, IsSpace)
  }

  /** Non-empty text with no whitespace at either end. */
  predicate Bare(s: string) {
    s != [] && !IsSpace(s[0]) && !IsSpace(s[|s| - 1])
  }

  /** Text with no whitespace at its ends is its own strip. */
  lemma StripPlain(s: string)
    requires Bare(s)
    ensures Strip(s) == s
  {
  }

  /** Strip(s) is the infix of s that starts at i, and everything in s
      before and after that infix is whitespace. */
  predicate StripsAt(s: string, i: nat) {
    var r := Strip(s);
    i + |r| <= |s| && r == s[i..i + |r|] && AllSpace(s[..i]) && AllSpace(s[i + |r|..])
  }

  lemma StripsAtFront(s: string, i: nat)
    requires s != [] && IsSpace(s[0]) && StripsAt(s[1..], i)
    ensures StripsAt(s, i + 1)
  {
    var t, r := s[1..], Strip(s);
    assert r == Strip(t);
    assert r == s[i + 1..i + 1 + |r|];
    assert s[..i + 1] == [s[0]] + t[..i];
    AllSpaceAppend([s[0]], t[..i]);
    assert s[i + 1 + |r|..] == t[i + |r|..];
  }

  lemma StripsAtBack(s: string, i: nat)
    requires s != [] && !IsSpace(s[0]) && IsSpace(s[|s| - 1]) && StripsAt(s[..|s| - 1], i)
    ensures StripsAt(s, i)
  {
    var p, r := s[..|s| - 1], Strip(s);
    assert r == Strip(p);
    var e := i + |r|;
    assert e <= |p|;
    assert r == s[i..e];
    assert s[..i] == p[..i];
    assert s == p + [s[|s| - 1]];
    assert s[e..] == p[e..] + [s[|s| - 1]];
    AllSpaceAppend(p[e..], [s[|s| - 1]]);
  }

  lemma AllSpaceAppend(a: string, b: string)
    requires AllSpace(a) && AllSpace(b)
    ensures AllSpace(a + b)
  {
    forall k | 0 <= k < |a + b| ensures IsSpace((a + b)[k]) {
      if k < |a| {
        assert (a + b)[k] == a[k];
      } else {
        assert (a + b)[k] == b[k - |a|];
      }
    }
  }

  /** Strip removes only whitespace: its result is an infix of s and what
      lies on either side of it is whitespace. */
  lemma {:induction false} StripInfix(s: string)
    ensures exists i: nat :: StripsAt(s, i)
    decreases |s|
  {
    if s != [] && IsSpace(s[0]) {
      StripInfix(s[1..]);
      var i: nat :| StripsAt(s[1..], i);
      StripsAtFront(s, i);
    } else if s != [] && IsSpace(s[|s| - 1]) {
      StripInfix(s[..|s| - 1]);
      var i: nat :| StripsAt(s[..|s| - 1], i);
      StripsAtBack(s, i);
    } else {
      assert s[0..0 + |s|] == s;
      assert StripsAt(s, 0);
    }
  }

  /** str.strip() removes exactly the whitespace around text whose ends
      are not whitespace. */
  lemma StripPadded(pre: string, s: string, post: string)
    requires AllSpace(pre) && AllSpace(post)
    requires s != [] && !IsSpace(s[0]) && !IsSpace(s[|s| - 1])
    ensures Strip(pre + s + post) == s
  {
    TrimByPadded(pre, s, post, IsSpace);
  }

  /** A word as str.split() yields it: non-empty, free of whitespace. */
  predicate IsWord(w: string) {
    w != [] && NoSpace(w)
  }

  /** The length of the whitespace-free prefix of s. */
  function WordLength(s: string): (n: nat)
    ensures n <= |s|
    ensures NoSpace(s[..n])
    ensures n < |s| ==> IsSpace(s[n])
  {
    if s == [] || IsSpace(s[0]) then 0 else 1 + WordLength(s[1..])
  }

  /** Python's s.split() with no argument: the maximal whitespace-free runs
      of s, in order. */
  function Words(s: string): (ws: seq<string>)
    ensures forall k :: 0 <= k < |ws| ==> IsWord(ws[k])
    decreases |s|
  {
    if s == [] then []
    else if IsSpace(s[0]) then Words(s[1..])
    else
      var n := WordLength(s);
      [s[..n]] + Words(s[n..])
  }

  /** Python's sep.join(parts). */
  function Join(parts: seq<string>, sep: string): string {
    if parts == [] then ""
    else if |parts| == 1 then parts[0]
    else parts[0] + sep + Join(parts[1..], sep)
  }

  /** The concatenation of parts, in order (Python's "".join(parts)). */
  function Concat(parts: seq<string>): string
    decreases |parts|
  {
    if parts == [] then "" else Concat(parts[..|parts| - 1]) + parts[|parts| - 1]
  }

  lemma ConcatSingle(x: string)
    ensures Concat([x]) == x
  {
    assert [x][..0] == [];
  }

  lemma {:induction false} ConcatAppend(a: seq<string>, b: seq<string>)
    ensures Concat(a + b) == Concat(a) + Concat(b)
    decreases |b|
  {
    if b == [] {
      assert a + b == a;
    } else {
      var b', x := b[..|b| - 1], b[|b| - 1];
      assert (a + b)[..|a + b| - 1] == a + b';
      assert (a + b)[|a + b| - 1] == x;
      ConcatAppend(a, b');
      assert Concat(a + b) == Concat(a) + Concat(b') + x;
    }
  }

  /** Python's s.replace("\n", " "). */
  function ReplaceNewlines(s: string): string {
    seq(|s|, k requires 0 <= k < |s| => if s[k] == '\n' then ' ' else s[k])
  }

  /** The chapter normaliser: " ".join(s.replace("\n", " ").split()). */
  function Normalise(s: string): string {
    Join(Words(ReplaceNewlines(s)), " ")
  }

  /** What a normalised chapter looks like: the only whitespace is the plain
      space, there is none at either end, and no two spaces are adjacent. */
  predicate IsNormal(t: string) {
    && (forall k :: 0 <= k < |t| && IsSpace(t[k]) ==> t[k] == ' ')
    && (t != [] ==> t[0] != ' ' && t[|t| - 1] != ' ')
    && (forall k :: 0 <= k < |t| - 1 ==> !DoubleSpace(t, k))
  }

  /** Two spaces in a row at position k. */
  predicate DoubleSpace(t: string, k: int)
    requires 0 <= k < |t| - 1
  {
    t[k] == ' ' && t[k + 1] == ' '
  }

  lemma JoinCons(w: string, ws: seq<string>, sep: string)
    requires ws != []
    ensures Join([w] + ws, sep) == w + sep + Join(ws, sep)
  {
    assert ([w] + ws)[1..] == ws;
  }

  /** WordLength is pinned down by its two defining facts. */
  lemma WordLengthIs(s: string, n: nat)
    requires n <= |s| && NoSpace(s[..n]) && (n < |s| ==> IsSpace(s[n]))
    ensures WordLength(s) == n
  {
    var m := WordLength(s);
    assert forall k :: 0 <= k < n ==> s[..n][k] == s[k];
    assert forall k :: 0 <= k < m ==> s[..m][k] == s[k];
  }

  /** Joining words with single spaces yields a normal string that starts
      with the first word. */
  lemma {:induction false} JoinWordsIsNormal(ws: seq<string>)
    requires forall k :: 0 <= k < |ws| ==> IsWord(ws[k])
    ensures IsNormal(Join(ws, " "))
    ensures ws != [] ==> Join(ws, " ") != [] && !IsSpace(Join(ws, " ")[0])
  {
    if |ws| == 1 {
      assert Join(ws, " ") == ws[0];
    } else if |ws| > 1 {
      var w := ws[0];
      JoinWordsIsNormal(ws[1..]);
      var j := Join(ws[1..], " ");
      var t := w + " " + j;
      assert Join(ws, " ") == t;
      assert forall k :: 0 <= k < |w| ==> t[k] == w[k];
      assert t[|w|] == ' ';
      assert forall k :: |w| < k < |t| ==> t[k] == j[k - |w| - 1];
      forall k | 0 <= k < |t| - 1
        ensures !DoubleSpace(t, k)
      {
        if k < |w| {
          assert !IsSpace(t[k]);
        } else if k == |w| {
          assert t[k + 1] == j[0];
        } else {
          assert t[k] == j[k - |w| - 1] && t[k + 1] == j[k - |w|];
          assert !DoubleSpace(j, k - |w| - 1);
        }
      }
    }
  }

  /** Splitting a space-joined list of words gives the words back. */
  lemma {:induction false} WordsOfJoin(ws: seq<string>)
    requires forall k :: 0 <= k < |ws| ==> IsWord(ws[k])
    ensures Words(Join(ws, " ")) == ws
  {
    if |ws| == 1 {
      var w := ws[0];
      WordLengthIs(w, |w|);
      assert w[..|w|] == w && w[|w|..] == [];
    } else if |ws| > 1 {
      var w := ws[0];
      var j := Join(ws[1..], " ");
      var t := w + " " + j;
      assert Join(ws, " ") == t;
      assert t[..|w|] == w;
      WordLengthIs(t, |w|);
      assert t[|w|..] == " " + j;
      assert (" " + j)[1..] == j;
      WordsOfJoin(ws[1..]);
      assert ws == [w] + ws[1..];
    }
  }

  lemma ReplaceNewlinesFrom(s: string, i: nat)
    requires i <= |s|
    ensures ReplaceNewlines(s)[i..] == ReplaceNewlines(s[i..])
  {
  }

  /** The newline replacement does not change the words. */
  lemma {:induction false} WordsIgnoreNewlines(s: string)
    ensures Words(ReplaceNewlines(s)) == Words(s)
    decreases |s|
  {
    var r := ReplaceNewlines(s);
    if s == [] {
    } else if IsSpace(s[0]) {
      assert IsSpace(r[0]);
      ReplaceNewlinesFrom(s, 1);
      WordsIgnoreNewlines(s[1..]);
    } else {
      var n := WordLength(s);
      assert r[..n] == s[..n] by {
        forall k | 0 <= k < n ensures r[k] == s[k] {
          assert s[..n][k] == s[k];
        }
      }
      WordLengthIs(r, n);
      ReplaceNewlinesFrom(s, n);
      WordsIgnoreNewlines(s[n..]);
    }
  }

  /** After the first word of a normal string comes exactly one space and
      then another normal string that starts with a word. */
  lemma NormalTail(t: string, n: nat)
    requires IsNormal(t) && t != [] && n == WordLength(t) && n < |t|
    ensures t[n] == ' ' && n + 1 < |t| && !IsSpace(t[n + 1])
    ensures IsNormal(t[n + 1..])
  {
    assert t[n] == ' ';
    assert n + 1 < |t|;
    assert !DoubleSpace(t, n);
    var u := t[n + 1..];
    forall k | 0 <= k < |u| ensures u[k] == t[n + 1 + k] && (IsSpace(u[k]) ==> u[k] == ' ') {
      assert u[k] == t[n + 1 + k];
    }
    forall k | 0 <= k < |u| - 1 ensures !DoubleSpace(u, k) {
      assert !DoubleSpace(t, n + 1 + k);
      assert u[k] == t[n + 1 + k] && u[k + 1] == t[n + 1 + k + 1];
    }
  }

  lemma WordsAfterFirst(t: string, n: nat)
    requires t != [] && !IsSpace(t[0]) && n == WordLength(t) && n < |t|
    ensures Words(t) == [t[..n]] + Words(t[n + 1..])
  {
    assert t[n..][1..] == t[n + 1..];
  }

  /** A normal string is the space-join of its own words. */
  lemma {:induction false} NormalIsJoinOfWords(t: string)
    requires IsNormal(t)
    ensures Join(Words(t), " ") == t
    ensures t != [] ==> Words(t) != []
    decreases |t|
  {
    if t != [] {
      var n := WordLength(t);
      assert !IsSpace(t[0]) by {
        assert t[0] != ' ';
      }
      assert Words(t) == [t[..n]] + Words(t[n..]);
      if n == |t| {
        assert t[..n] == t && t[n..] == [];
        assert Words(t) == [t];
      } else {
        NormalTail(t, n);
        NormalIsJoinOfWords(t[n + 1..]);
        WordsAfterFirst(t, n);
        JoinAfterFirst(t, n, Words(t[n + 1..]));
      }
    }
  }

  /** The inductive step of NormalIsJoinOfWords: the first word, a space,
      and the join of the words after it give the whole string back. */
  lemma JoinAfterFirst(t: string, n: nat, ws: seq<string>)
    requires n + 1 < |t| && t[n] == ' '
    requires ws != [] && Join(ws, " ") == t[n + 1..]
    ensures Join([t[..n]] + ws, " ") == t
  {
    JoinCons(t[..n], ws, " ");
    assert [t[n]] == " ";
    assert t == t[..n] + [t[n]] + t[n + 1..];
  }

  /** The normaliser's output contains no newline, no leading, trailing or
      doubled space, and keeps the words of its input in order. */
  lemma NormaliseIsNormal(s: string)
    ensures IsNormal(Normalise(s))
    ensures '\n' !in Normalise(s)
    ensures Words(Normalise(s)) == Words(s)
  {
    var ws := Words(ReplaceNewlines(s));
    JoinWordsIsNormal(ws);
    WordsOfJoin(ws);
    WordsIgnoreNewlines(s);
    assert IsSpace('\n');
  }

  /** A string that is already normal is left unchanged. */
  lemma NormalIsFixpoint(t: string)
    requires IsNormal(t)
    ensures Normalise(t) == t
  {
    assert IsSpace('\n');
    assert ReplaceNewlines(t) == t;
    NormalIsJoinOfWords(t);
  }

  /** Normalising twice is normalising once. */
  lemma NormaliseIdempotent(s: string)
    ensures Normalise(Normalise(s)) == Normalise(s)
  {
    NormaliseIsNormal(s);
    NormalIsFixpoint(Normalise(s));
  }
}
