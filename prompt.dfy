/** The interactive chapter prompt `get_input` of epub_mp3.py and the
    integer conversion it relies on. The keyboard is replaced by a finite
    sequence of attempted answers, consumed in order. */
module Prompt {
  import opened Results
  import opened Text

  predicate IsDigit(c: char) {
    '0' <= c <= '9'
  }

  /** Decimal digits with single underscores allowed between two digits, as
      int() accepts them after the sign. */
  predicate DigitGroups(d: string) {
    && d != []
    && IsDigit(d[0]) && IsDigit(d[|d| - 1])
    && (forall k :: 0 <= k < |d| ==> IsDigit(d[k]) || d[k] == '_')
    && (forall k :: 0 <= k < |d| - 1 ==> !DoubleUnderscore(d, k))
  }

  /** Two underscores in a row at position k. */
  predicate DoubleUnderscore(d: string, k: int)
    requires 0 <= k < |d| - 1
  {
    d[k] == '_' && d[k + 1] == '_'
  }

  /** The value of a digit string, underscores skipped. */
  function DigitsValue(d: string): nat
    decreases |d|
  {
    if d == [] then 0
    else
      var c := d[|d| - 1];
      if IsDigit(c) then 10 * DigitsValue(d[..|d| - 1]) + (c as int - '0' as int)
      else DigitsValue(d[..|d| - 1])
  }

  /** The whitespace int() skips around a number: what str.isspace()
      accepts except the four separators U+001C..U+001F, which CPython's
      int() does not skip and so rejects. */
  predicate IntSpace(c: char) {
    IsSpace(c) && !('\U{1C}' <= c <= '\U{1F}')
  }

  predicate AllIntSpace(s: string) {
    forall k :: 0 <= k < |s| ==> IntSpace(s[k])
  }

  /** The surrounding whitespace int() ignores, removed. */
  function Trim(s: string): (r: string)
    ensures r == [] || (!IntSpace(r[0]) && !IntSpace(r[|r| - 1]))
  {
    TrimBy(s, IntSpace)
  }

  /** Text with no int() whitespace at its ends is its own trim. */
  lemma TrimPlain(s: string)
    requires s != [] && !IntSpace(s[0]) && !IntSpace(s[|s| - 1])
    ensures Trim(s) == s
  {
  }

  /** CPython's default limit on the digits int() converts from a string
      and str() writes (sys.int_info.default_max_str_digits). */
  const MaxStrDigits: nat := 4300

  /** The number of digit characters in d: underscores are not counted,
      leading zeros are. */
  function CountDigits(d: string): (c: nat)
    ensures c <= |d|
    decreases |d|
  {
    if d == [] then 0
    else CountDigits(d[..|d| - 1]) + (if IsDigit(d[|d| - 1]) then 1 else 0)
  }

  /** Python's int(x) on a string: surrounding whitespace is ignored, an
      optional sign, then underscore-grouped ASCII digits, at most
      MaxStrDigits of them; anything else is a ValueError (None). */
  function ParseInt(x: string): Option<int> {
    var t := Trim(x);
    if t == [] then None
    else
      var neg := t[0] == '-';
      var d := if t[0] == '-' || t[0] == '+' then t[1..] else t;
      var v: int := DigitsValue(d);
      if DigitGroups(d) && CountDigits(d) <= MaxStrDigits then Some(if neg then -v else v) else None
  }

  function DigitChar(v: nat): char
    requires v < 10
  {
    ('0' as int + v) as char
  }

  /** The decimal digits of n, most significant first: Python's str(n). */
  function Decimal(n: nat): string
    decreases n
  {
    if n < 10 then [DigitChar(n)] else Decimal(n / 10) + [DigitChar(n % 10)]
  }

  /** Python's str(n). CPython's str() raises ValueError past MaxStrDigits
      digits; the model applies Str only to numbers int() accepted, which
      never have that many (ParsedPrintable). */
  function Str(n: int): string {
    if n < 0 then "-" + Decimal(-n) else Decimal(n)
  }

  function Abs(n: int): nat {
    if n < 0 then -n else n
  }

  lemma {:induction false} DecimalDigits(n: nat)
    ensures DigitGroups(Decimal(n))
    ensures (forall k :: 0 <= k < |Decimal(n)| ==> IsDigit(Decimal(n)[k]))
    ensures DigitsValue(Decimal(n)) == n
    ensures CountDigits(Decimal(n)) == |Decimal(n)|
    decreases n
  {
    var d := Decimal(n);
    if n >= 10 {
      DecimalDigits(n / 10);
      assert d[..|d| - 1] == Decimal(n / 10);
    }
  }

  /** Round trip: int(str(n)) == n for every integer n of at most
      MaxStrDigits digits; a longer one is refused. */
  lemma ParseStr(n: int)
    ensures ParseInt(Str(n)) == if |Decimal(Abs(n))| <= MaxStrDigits then Some(n) else None
  {
    var d := Decimal(Abs(n));
    DecimalDigits(Abs(n));
    assert CountDigits(d) == |d| && DigitsValue(d) == Abs(n);
    if n < 0 {
      assert Str(n) == "-" + d;
      ParseDigits("-", d);
    } else {
      assert Str(n) == "" + d;
      ParseDigits("", d);
    }
  }

  /** A sign (or none) followed by well-formed digits parses to their value,
      unless there are more than MaxStrDigits digits. */
  lemma ParseDigits(sign: string, d: string)
    requires sign == "" || sign == "-"
    requires DigitGroups(d)
    ensures ParseInt(sign + d) == if CountDigits(d) <= MaxStrDigits
      then Some(if sign == "-" then -(DigitsValue(d) as int) else DigitsValue(d))
      else None
  {
    var s := sign + d;
    assert s[|s| - 1] == d[|d| - 1] && IsDigit(s[|s| - 1]);
    assert s[0] == '-' || s[0] == d[0];
    assert !IntSpace(s[0]) && !IntSpace(s[|s| - 1]);
    TrimPlain(s);
    if sign == "-" {
      assert s[0] == '-' && s[1..] == d;
    } else {
      assert s == d;
      assert s[0] != '-' && s[0] != '+';
    }
  }

  function Pow10(k: nat): (p: nat)
    ensures p >= 1
  {
    if k == 0 then 1 else 10 * Pow10(k - 1)
  }

  /** The digits of d, underscores skipped, hold a value below 10^CountDigits(d). */
  lemma {:induction false} DigitsValueBound(d: string)
    ensures DigitsValue(d) < Pow10(CountDigits(d))
    decreases |d|
  {
    if d != [] {
      DigitsValueBound(d[..|d| - 1]);
    }
  }

  /** A value below 10^k has at most k decimal digits (and always one). */
  lemma {:induction false} DecimalLength(v: nat, k: nat)
    requires v < Pow10(k)
    ensures |Decimal(v)| <= if k == 0 then 1 else k
    decreases v
  {
    if v >= 10 {
      assert k >= 2;
      assert v / 10 < Pow10(k - 1);
      DecimalLength(v / 10, k - 1);
    }
  }

  /** Every integer int() accepts has at most MaxStrDigits digits, so
      str() of it, as in the file name `ch{sel}.mp3`, does not raise. */
  lemma ParsedPrintable(x: string)
    ensures ParseInt(x).Some? ==> |Decimal(Abs(ParseInt(x).value))| <= MaxStrDigits
  {
    var t := Trim(x);
    if ParseInt(x).Some? {
      var d := if t[0] == '-' || t[0] == '+' then t[1..] else t;
      DigitsValueBound(d);
      DecimalLength(DigitsValue(d), CountDigits(d));
    }
  }

  /** Leading zeros count towards the limit: int() reads "0...01" as 1 only
      while the whole run has at most MaxStrDigits digits. */
  lemma ZerosThenOne(z: string)
    requires forall k :: 0 <= k < |z| ==> z[k] == '0'
    ensures ParseInt(z + "1") == if |z| < MaxStrDigits then Some(1) else None
  {
    var d := z + "1";
    ZerosCount(z);
    assert d[..|d| - 1] == z;
    assert CountDigits(d) == |z| + 1 && DigitsValue(d) == 1;
    forall k | 0 <= k < |d|
      ensures IsDigit(d[k])
    {
      if k < |z| {
        assert d[k] == z[k];
      }
    }
    assert DigitGroups(d);
    assert "" + d == d;
    ParseDigits("", d);
  }

  lemma {:induction false} ZerosCount(z: string)
    requires forall k :: 0 <= k < |z| ==> z[k] == '0'
    ensures CountDigits(z) == |z| && DigitsValue(z) == 0
    decreases |z|
  {
    if z != [] {
      ZerosCount(z[..|z| - 1]);
    }
  }

  /** Whitespace around an integer is ignored by int(). */
  lemma ParsePadded(pre: string, n: int, post: string)
    requires AllIntSpace(pre) && AllIntSpace(post)
    ensures ParseInt(pre + Str(n) + post) == ParseInt(Str(n))
    ensures |Decimal(Abs(n))| <= MaxStrDigits ==> ParseInt(pre + Str(n) + post) == Some(n)
  {
    var s, d := Str(n), Decimal(Abs(n));
    DecimalDigits(Abs(n));
    assert s[|s| - 1] == d[|d| - 1];
    assert s[0] == '-' || s[0] == d[0];
    TrimPadded(pre, s, post);
    TrimPlain(s);
    SameTrim(pre + s + post, s);
    ParseStr(n);
  }

  /** int() sees only the trimmed text. */
  lemma SameTrim(a: string, b: string)
    requires Trim(a) == Trim(b)
    ensures ParseInt(a) == ParseInt(b)
  {
  }

  /** Trimming removes exactly the surrounding whitespace int() skips. */
  lemma TrimPadded(pre: string, s: string, post: string)
    requires AllIntSpace(pre) && AllIntSpace(post)
    requires s != [] && !IntSpace(s[0]) && !IntSpace(s[|s| - 1])
    ensures Trim(pre + s + post) == s
  {
    TrimByPadded(pre, s, post, IntSpace);
  }

  /** A separator U+001C..U+001F before a number is whitespace to
      str.isspace() but makes int() fail. */
  lemma SeparatorNotSkipped(n: nat)
    ensures ParseInt("\U{1C}" + Str(n)) == None
  {
    var s := "\U{1C}" + Str(n);
    assert s[0] == '\U{1C}' && !IntSpace(s[0]);
    DecimalDigits(n);
    assert s[|s| - 1] == Decimal(n)[|Decimal(n)| - 1];
    assert Trim(s) == s;
    assert !DigitGroups(s) by {
      assert !IsDigit(s[0]);
    }
  }

  /** An answer the prompt accepts: a member of `other` as typed, or an
      integer in range. */
  datatype Answer = Word(text: string) | Number(n: int)

  /** One attempt judged as get_input judges it: membership in `other` is
      tested first, then int(x) must succeed and lie in lo..hi. */
  function Accept(x: string, lo: int, hi: int, other: seq<string>): Option<Answer> {
    if x in other then Some(Word(x))
    else
      match ParseInt(x)
      case None => None
      case Some(n) => if n < lo || n > hi then None else Some(Number(n))
  }

  /** The answer get_input returns for a sequence of attempts, and the
      attempts left for later prompts. */
  function Ask(attempts: seq<string>, lo: int, hi: int, other: seq<string>): (r: Result<(Answer, seq<string>)>)
    ensures r.Ok? ==> var (a, rest) := r.value;
      && (a.Word? ==> a.text in other)
      && (a.Number? ==> lo <= a.n <= hi)
      && |rest| < |attempts|
    ensures r.Err? ==> r.error == InputExhausted
    decreases |attempts|
  {
    if attempts == [] then Err(InputExhausted)
    else
      match Accept(attempts[0], lo, hi, other)
      case Some(a) => Ok((a, attempts[1..]))
      case None => Ask(attempts[1..], lo, hi, other)
  }

  /** The attempts left over are what follows the accepted one. */
  lemma {:induction false} AskConsumes(attempts: seq<string>, lo: int, hi: int, other: seq<string>)
    ensures var r := Ask(attempts, lo, hi, other);
      r.Ok? ==> r.value.1 == attempts[|attempts| - |r.value.1|..]
    decreases |attempts|
  {
    if attempts != [] && Accept(attempts[0], lo, hi, other).None? {
      AskConsumes(attempts[1..], lo, hi, other);
      var r := Ask(attempts, lo, hi, other);
      if r.Ok? {
        var rest := r.value.1;
        assert attempts[1..][|attempts[1..]| - |rest|..] == attempts[|attempts| - |rest|..];
      }
    }
  }

  /** The first accepted attempt is the answer; the ones before it were all
      rejected and are consumed with it. */
  lemma {:induction false} AskFirstAccepted(attempts: seq<string>, i: nat, lo: int, hi: int, other: seq<string>)
    requires i < |attempts| && Accept(attempts[i], lo, hi, other).Some?
    requires forall j :: 0 <= j < i ==> Accept(attempts[j], lo, hi, other).None?
    ensures Ask(attempts, lo, hi, other) == Ok((Accept(attempts[i], lo, hi, other).value, attempts[i + 1..]))
    decreases i
  {
    if i > 0 {
      assert Accept(attempts[0], lo, hi, other).None?;
      AskFirstAccepted(attempts[1..], i - 1, lo, hi, other);
      assert attempts[1..][i - 1 + 1..] == attempts[i + 1..];
    }
  }

  /** The prompt gives up only when every attempt was rejected. */
  lemma {:induction false} AskExhausted(attempts: seq<string>, lo: int, hi: int, other: seq<string>)
    ensures Ask(attempts, lo, hi, other).Err?
      <==> forall j :: 0 <= j < |attempts| ==> Accept(attempts[j], lo, hi, other).None?
    decreases |attempts|
  {
    if attempts != [] {
      AskExhausted(attempts[1..], lo, hi, other);
      if Accept(attempts[0], lo, hi, other).None? {
        forall j | 1 <= j < |attempts| ensures attempts[j] == attempts[1..][j - 1] {}
      }
    }
  }

  /** A member of `other` is returned as typed even when it also reads as an
      integer out of range or in range. */
  lemma OtherBeforeNumber(x: string, rest: seq<string>, lo: int, hi: int, other: seq<string>)
    requires x in other
    ensures Ask([x] + rest, lo, hi, other) == Ok((Word(x), rest))
  {
    assert ([x] + rest)[1..] == rest;
  }

  /** The loop of get_input: ask, return on the first valid answer,
      otherwise complain and ask again. */
  method GetInput(attempts: seq<string>, lo: int, hi: int, other: seq<string>) returns (r: Result<(Answer, seq<string>)>)
    ensures r == Ask(attempts, lo, hi, other)
  {
    var i := 0;
    while i < |attempts|
      invariant 0 <= i <= |attempts|
      invariant Ask(attempts, lo, hi, other) == Ask(attempts[i..], lo, hi, other)
    {
      var x := attempts[i];
      assert attempts[i..][1..] == attempts[i + 1..];
      if x in other {
        return Ok((Word(x), attempts[i + 1..]));
      }
      var v := ParseInt(x);
      if v.Some? && lo <= v.value <= hi {
        return Ok((Number(v.value), attempts[i + 1..]));
      }
      i := i + 1;
    }
    return Err(InputExhausted);
  }

  /** The start and end chapter selection of get_text in epub_mp3.py: a start
      in 0..count-1, then an end in start..count-1 where a blank answer
      means the start chapter alone. */
  function ChooseRange(attempts: seq<string>, count: int): (r: Result<(int, int)>)
    ensures r.Ok? ==> 0 <= r.value.0 <= r.value.1 < count
  {
    match Ask(attempts, 0, count - 1, [])
    case Err(e) => Err(e)
    case Ok((first, rest)) =>
      if first.Word? then assert false; Err(InputExhausted)
      else
        EndFor(first.n, Ask(rest, first.n, count - 1, [""]))
  }

  /** The selection once the end prompt has answered: a blank answer means
      the start chapter alone. */
  function EndFor(start: int, second: Result<(Answer, seq<string>)>): Result<(int, int)> {
    match second
    case Err(e) => Err(e)
    case Ok((answer, _)) => if answer.Word? then Ok((start, start)) else Ok((start, answer.n))
  }

  /** A failed start prompt fails the selection. */
  lemma ChooseRangeNoStart(attempts: seq<string>, count: int)
    requires Ask(attempts, 0, count - 1, []).Err?
    ensures ChooseRange(attempts, count) == Err(InputExhausted)
  {
  }

  /** Once the start prompt answers, it is a number and the end prompt
      reads the attempts left over. */
  lemma ChooseRangeStart(attempts: seq<string>, count: int)
    requires Ask(attempts, 0, count - 1, []).Ok?
    ensures var (first, rest) := Ask(attempts, 0, count - 1, []).value;
      && first.Number?
      && ChooseRange(attempts, count) == EndFor(first.n, Ask(rest, first.n, count - 1, [""]))
  {
    NoWordWithoutOther(attempts, 0, count - 1);
  }

  /** With no words allowed, every answer is a number. */
  lemma NoWordWithoutOther(attempts: seq<string>, lo: int, hi: int)
    ensures Ask(attempts, lo, hi, []).Ok? ==> Ask(attempts, lo, hi, []).value.0.Number?
  {
  }

  /** The two prompts of get_text in epub_mp3.py. */
  method AskRange(attempts: seq<string>, count: int) returns (r: Result<(int, int)>)
    ensures r == ChooseRange(attempts, count)
  {
    var first := GetInput(attempts, 0, count - 1, []);
    if first.Err? {
      ChooseRangeNoStart(attempts, count);
      return Err(first.error);
    }
    ChooseRangeStart(attempts, count);
    var start, rest := first.value.0.n, first.value.1;
    var second := GetInput(rest, start, count - 1, [""]);
    if second.Err? {
      return Err(second.error);
    }
    var end := if second.value.0.Word? then start else second.value.0.n;
    return Ok((start, end));
  }

  /** Pressing ENTER at the second prompt selects the start chapter alone. */
  lemma BlankEndIsStart(n: nat, count: int, rest: seq<string>)
    requires n < count && |Decimal(n)| <= MaxStrDigits
    ensures ChooseRange([Str(n), ""] + rest, count) == Ok((n, n))
  {
    var attempts := [Str(n), ""] + rest;
    ParseStr(n);
    assert Accept(Str(n), 0, count - 1, []) == Some(Number(n));
    assert attempts[1..] == [""] + rest;
    assert Ask(attempts, 0, count - 1, []) == Ok((Number(n), [""] + rest));
    assert ([""] + rest)[1..] == rest;
    assert Ask([""] + rest, n, count - 1, [""]) == Ok((Word(""), rest));
    ChooseRangeStart(attempts, count);
  }

  /** With no chapters there is no valid start, so every answer is refused. */
  lemma NoChaptersNoRange(attempts: seq<string>)
    ensures ChooseRange(attempts, 0) == Err(InputExhausted)
  {
  }
}
