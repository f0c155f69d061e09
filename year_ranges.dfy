/** Year windows and their textual form. The post-processing writes a window
    `range(start, stop)` as the inclusive string "start-(stop-1)"; the download
    script reads such a string back into a list of years with `str.split("-")`
    and Python's `int`. */
module YearRanges {
  import opened Results

  /** A Python `range(start, stop)` of calendar years, step 1. */
  datatype YearWindow = YearWindow(start: int, stop: int) {
    predicate Contains(y: int) {
      start <= y < stop
    }
  }

  /** `list(range(lo, hi))`. */
  function Range(lo: int, hi: int): (ys: seq<int>)
    ensures |ys| == if lo <= hi then hi - lo else 0
    ensures forall i :: 0 <= i < |ys| ==> ys[i] == lo + i
    decreases hi - lo
  {
    if hi <= lo then [] else Range(lo, hi - 1) + [hi - 1]
  }

  /** The years of a window, in increasing order. */
  function Years(w: YearWindow): seq<int>
  {
    Range(w.start, w.stop)
  }

  lemma YearsAreWindow(w: YearWindow, y: int)
    ensures y in Years(w) <==> w.Contains(y)
  {
    if w.Contains(y) {
      assert Years(w)[y - w.start] == y;
    }
  }

  // ---------------------------------------------------------------------------
  // Formatting: f"{start}-{stop - 1}"

  predicate IsDigit(c: char) {
    '0' <= c <= '9'
  }

  function DigitChar(d: nat): (c: char)
    requires d < 10
    ensures IsDigit(c) && DigitValue(c) == d
  {
    ('0' as int + d) as char
  }

  function DigitValue(c: char): nat
    requires IsDigit(c)
  {
    c as int - '0' as int
  }

  /** Decimal numeral of a natural number, without leading zeros. */
  function NatToString(n: nat): (s: string)
    ensures |s| > 0
    ensures forall i :: 0 <= i < |s| ==> IsDigit(s[i])
    decreases n
  {
    if n < 10 then [DigitChar(n)] else NatToString(n / 10) + [DigitChar(n % 10)]
  }

  /** Appending a digit to a positive number appends it to its numeral. */
  lemma NatToStringAppendDigit(m: nat, d: nat)
    requires 0 < m && d < 10
    ensures NatToString(10 * m + d) == NatToString(m) + [DigitChar(d)]
  {
    var n := 10 * m + d;
    assert n / 10 == m && n % 10 == d;
  }

  /** Python's `str(n)` for an int: a '-' sign before the numeral when
      negative. The sign is there exactly for negative numbers, and the
      digits after it spell the magnitude (see `IntToStringValue`). */
  function IntToString(n: int): (s: string)
    ensures |s| > 0
    ensures s[0] == '-' <==> n < 0
    ensures n < 0 ==> s[1..] == NatToString(-n)
    ensures n >= 0 ==> s == NatToString(n)
  {
    if n < 0 then
      "-" + NatToString(-n)
    else
      assert IsDigit(NatToString(n)[0]);
      NatToString(n)
  }

  /** The digits that `str(n)` writes after the optional sign have the value
      of n's magnitude. */
  lemma IntToStringValue(n: int)
    ensures var s := IntToString(n);
            && (n < 0 ==> DigitsValue(s[1..]) == -n)
            && (n >= 0 ==> DigitsValue(s) == n)
  {
    if n < 0 {
      DigitsValueOfNatToString(-n);
    } else {
      DigitsValueOfNatToString(n);
    }
  }

  /** The inclusive "start-end" attribute string of a window: the first
      year, a '-', and the last year, which is one before the window's
      exclusive stop. */
  function FormatYearRange(w: YearWindow): string
  {
    IntToString(w.start) + "-" + IntToString(w.stop - 1)
  }

  /** How the attribute string is laid out: `str(start)` as its prefix, the
      '-' right after it, and `str(stop - 1)` as the rest. */
  lemma FormatYearRangeLayout(w: YearWindow)
    ensures var r := FormatYearRange(w);
            var a := IntToString(w.start);
            && |r| == |a| + 1 + |IntToString(w.stop - 1)|
            && r[..|a|] == a && r[|a|] == '-' && r[|a| + 1..] == IntToString(w.stop - 1)
  {
    assert "-" == ['-'];
    ConcatAround(IntToString(w.start), '-', IntToString(w.stop - 1));
  }

  /** Where the pieces of `a + [m] + b` sit. */
  lemma ConcatAround(a: string, m: char, b: string)
    ensures var r := a + [m] + b;
            && |r| == |a| + 1 + |b|
            && r[..|a|] == a && r[|a|] == m && r[|a| + 1..] == b
  {
  }

  // ---------------------------------------------------------------------------
  // Splitting: str.split(sep)

  function Occurrences(s: string, c: char): nat
  {
    if |s| == 0 then 0 else Occurrences(s[..|s| - 1], c) + (if s[|s| - 1] == c then 1 else 0)
  }

  /** Inverse of `Split`: the parts with `sep` between them. */
  function Join(parts: seq<string>, sep: char): string
    requires |parts| > 0
  {
    if |parts| == 1 then parts[0] else Join(parts[..|parts| - 1], sep) + [sep] + parts[|parts| - 1]
  }

  /** Python's `s.split(sep)` for a one-character separator: the maximal
      separator-free pieces, empty ones included ("".split("-") == [""]). */
  function Split(s: string, sep: char): (parts: seq<string>)
    ensures |parts| == Occurrences(s, sep) + 1
    ensures forall i :: 0 <= i < |parts| ==> sep !in parts[i]
  {
    if |s| == 0 then [""]
    else
      var front := s[..|s| - 1];
      var c := s[|s| - 1];
      var ps := Split(front, sep);
      assert s == front + [c];
      if c == sep then ps + [""]
      else
        var k := |ps| - 1;
        var r := ps[..k] + [ps[k] + [c]];
        assert forall i :: 0 <= i < k ==> r[i] == ps[i];
        r
  }

  /** `Join` undoes `Split`: putting the separator back between the parts
      gives back the string. */
  lemma {:induction false} SplitJoin(s: string, sep: char)
    ensures Join(Split(s, sep), sep) == s
    decreases |s|
  {
    if |s| > 0 {
      var front := s[..|s| - 1];
      var c := s[|s| - 1];
      var ps := Split(front, sep);
      SplitJoin(front, sep);
      assert s == front + [c];
      if c == sep {
        JoinAppendEmpty(ps, sep);
      } else {
        JoinExtendLast(ps, sep, c);
      }
    }
  }

  lemma JoinAppendEmpty(ps: seq<string>, sep: char)
    requires |ps| > 0
    ensures Join(ps + [""], sep) == Join(ps, sep) + [sep]
  {
    var r := ps + [""];
    assert r[..|r| - 1] == ps;
  }

  lemma JoinExtendLast(ps: seq<string>, sep: char, c: char)
    requires |ps| > 0
    ensures Join(ps[..|ps| - 1] + [ps[|ps| - 1] + [c]], sep) == Join(ps, sep) + [c]
  {
    var k := |ps| - 1;
    var r := ps[..k] + [ps[k] + [c]];
    if k > 0 {
      assert r[..k] == ps[..k];
    }
  }

  lemma OccurrencesConcat(a: string, b: string, c: char)
    ensures Occurrences(a + b, c) == Occurrences(a, c) + Occurrences(b, c)
    decreases |b|
  {
    if |b| > 0 {
      assert (a + b)[..|a + b| - 1] == a + b[..|b| - 1];
      OccurrencesConcat(a, b[..|b| - 1], c);
    } else {
      assert a + b == a;
    }
  }

  lemma OccurrencesAbsent(s: string, c: char)
    requires c !in s
    ensures Occurrences(s, c) == 0
  {
    if |s| > 0 {
      assert c !in s[..|s| - 1];
      OccurrencesAbsent(s[..|s| - 1], c);
    }
  }

  /** Splitting "a<sep>b", where neither side contains the separator, gives
      exactly the two sides. */
  lemma SplitPair(a: string, b: string, sep: char)
    requires sep !in a && sep !in b
    ensures Split(a + [sep] + b, sep) == [a, b]
  {
    var e: string := [];
    SplitAppendFree(e, a, sep);
    assert e + a == a;
    assert Split(e, sep) == [e];
    assert Split(a, sep) == [a] by {
      assert [e][..0] + [e + a] == [a];
    }
    SplitAppendSep(a, sep);
    var ps := Split(a + [sep], sep);
    assert ps == [a, e];
    SplitAppendFree(a + [sep], b, sep);
    assert ps[..1] == [a] && ps[1] == e;
    assert e + b == b;
  }

  /** A separator at the end opens a new, empty part. */
  lemma SplitAppendSep(s: string, sep: char)
    ensures Split(s + [sep], sep) == Split(s, sep) + [""]
  {
    assert (s + [sep])[..|s|] == s;
  }

  /** Any other character at the end extends the last part. */
  lemma SplitAppendChar(s: string, c: char, sep: char)
    requires c != sep
    ensures var ps := Split(s, sep);
            Split(s + [c], sep) == ps[..|ps| - 1] + [ps[|ps| - 1] + [c]]
  {
    assert (s + [c])[..|s|] == s;
  }

  /** Separator-free text at the end extends the last part. */
  lemma {:induction false} SplitAppendFree(s: string, b: string, sep: char)
    requires sep !in b
    ensures var ps := Split(s, sep);
            Split(s + b, sep) == ps[..|ps| - 1] + [ps[|ps| - 1] + b]
    decreases |b|
  {
    var ps := Split(s, sep);
    var m := |ps| - 1;
    if |b| == 0 {
      assert s + b == s;
      assert ps[m] + b == ps[m];
      assert ps[..m] + [ps[m]] == ps;
    } else {
      var front := b[..|b| - 1];
      var c := b[|b| - 1];
      assert sep !in front;
      assert s + b == (s + front) + [c];
      SplitAppendFree(s, front, sep);
      SplitAppendChar(s + front, c, sep);
      ExtendLast(ps, Split(s + front, sep), front, c, b);
    }
  }

  /** Growing the last part by `front` and then by `c` grows it by `b`,
      which is `front + [c]`. */
  lemma ExtendLast(ps: seq<string>, qs: seq<string>, front: string, c: char, b: string)
    requires |ps| > 0 && b == front + [c]
    requires qs == ps[..|ps| - 1] + [ps[|ps| - 1] + front]
    ensures qs[..|qs| - 1] + [qs[|qs| - 1] + [c]] == ps[..|ps| - 1] + [ps[|ps| - 1] + b]
  {
    var m := |ps| - 1;
    assert qs[..m] == ps[..m];
    assert qs[m] + [c] == ps[m] + b;
  }

  // ---------------------------------------------------------------------------
  // Python's int(str) on base-10 text

  /** The ASCII characters that `int` strips from both ends. */
  predicate IsSpace(c: char) {
    c == ' ' || ('\t' <= c <= '\r') || ('\U{1C}' <= c <= '\U{1F}')
  }

  function StripStart(s: string): (t: string)
    ensures |t| <= |s|
    ensures |t| > 0 ==> !IsSpace(t[0])
  {
    if |s| > 0 && IsSpace(s[0]) then StripStart(s[1..]) else s
  }

  function StripEnd(s: string): (t: string)
    ensures |t| <= |s|
    ensures |t| > 0 ==> !IsSpace(t[|t| - 1])
  {
    if |s| > 0 && IsSpace(s[|s| - 1]) then StripEnd(s[..|s| - 1]) else s
  }

  /** What `StripStart` keeps is a suffix of its argument. */
  lemma {:induction false} StripStartIsSuffix(s: string)
    ensures StripStart(s) == s[|s| - |StripStart(s)|..]
    decreases |s|
  {
    if |s| > 0 && IsSpace(s[0]) {
      StripStartIsSuffix(s[1..]);
    }
  }

  /** What `StripEnd` keeps is a prefix of its argument. */
  lemma {:induction false} StripEndIsPrefix(s: string)
    ensures StripEnd(s) == s[..|StripEnd(s)|]
    decreases |s|
  {
    if |s| > 0 && IsSpace(s[|s| - 1]) {
      StripEndIsPrefix(s[..|s| - 1]);
    }
  }

  /** `s.strip()`: the text between leading and trailing whitespace. */
  function Strip(s: string): string
  {
    StripStart(StripEnd(s))
  }

  /** The value of a string of decimal digits; leading zeros are allowed. */
  function DigitsValue(s: string): nat
    requires forall i :: 0 <= i < |s| ==> IsDigit(s[i])
  {
    if |s| == 0 then 0 else DigitsValue(s[..|s| - 1]) * 10 + DigitValue(s[|s| - 1])
  }

  /** Python's `int(s)`: surrounding whitespace, then an optional sign, then
      digits with optional single underscores; anything else is a ValueError
      (None here). */
  function ParseInt(s: string): (r: Option<int>)
    ensures r.Some? ==> exists i :: 0 <= i < |s| && IsDigit(s[i])
    ensures |Strip(s)| == 0 ==> r.None?
    ensures r.Some? && r.value < 0 ==> exists i :: 0 <= i < |s| && s[i] == '-'
  {
    var t := Strip(s);
    ParseStrippedNeedsDigit(t);
    StripKeepsChars(s);
    ParseStripped(t)
  }

  lemma StripKeepsChars(s: string)
    ensures forall i :: 0 <= i < |Strip(s)| ==> Strip(s)[i] in s
  {
    var e := StripEnd(s);
    var t := StripStart(e);
    StripEndIsPrefix(s);
    StripStartIsSuffix(e);
    forall i | 0 <= i < |t|
      ensures t[i] in s
    {
      assert t[i] == e[|e| - |t| + i] == s[|e| - |t| + i];
    }
  }

  /** The numeral left once the whitespace is stripped: an optional sign, then
      the magnitude. */
  function ParseStripped(t: string): Option<int>
  {
    var signed := |t| > 0 && (t[0] == '+' || t[0] == '-');
    var magnitude := ParseDigits(if signed then t[1..] else t);
    if magnitude.None? then None
    else Some(if signed && t[0] == '-' then -(magnitude.value as int) else magnitude.value as int)
  }

  /** The magnitude `int` reads: decimal digits, where a single underscore
      may stand between two digits ("2_025" is 2025); None for anything else,
      an underscore at either end or two in a row included. Read from the
      right, one digit (and the underscore before it, if any) at a time. */
  function ParseDigits(body: string): Option<nat>
    decreases |body|
  {
    if |body| == 0 || !IsDigit(body[|body| - 1]) then None
    else
      var d := DigitValue(body[|body| - 1]);
      if |body| == 1 then Some(d)
      else
        var front := if body[|body| - 2] == '_' then body[..|body| - 2] else body[..|body| - 1];
        var v := ParseDigits(front);
        if v.None? then None else Some(v.value * 10 + d)
  }

  lemma ParseStrippedNeedsDigit(t: string)
    ensures ParseStripped(t).Some? ==> exists i :: 0 <= i < |t| && IsDigit(t[i])
    ensures |t| == 0 ==> ParseStripped(t).None?
    ensures ParseStripped(t).Some? && ParseStripped(t).value < 0 ==> exists i :: 0 <= i < |t| && t[i] == '-'
  {
    if ParseStripped(t).Some? {
      var signed := |t| > 0 && (t[0] == '+' || t[0] == '-');
      var body := if signed then t[1..] else t;
      assert IsDigit(body[|body| - 1]) && body[|body| - 1] == t[|t| - 1];
    }
  }

  /** A run of plain digits is its own magnitude. */
  lemma {:induction false} ParseDigitsOfDigits(digits: string)
    requires |digits| > 0 && forall i :: 0 <= i < |digits| ==> IsDigit(digits[i])
    ensures ParseDigits(digits) == Some(DigitsValue(digits))
    decreases |digits|
  {
    var front := digits[..|digits| - 1];
    if |digits| == 1 {
      assert front == [];
    } else {
      ParseDigitsOfDigits(front);
    }
  }

  /** What `ParseDigits` accepts starts and ends with a digit and holds
      nothing but digits and underscores. */
  lemma {:induction false} ParseDigitsAccepts(body: string)
    requires ParseDigits(body).Some?
    ensures |body| > 0 && IsDigit(body[0]) && IsDigit(body[|body| - 1])
    ensures forall i :: 0 <= i < |body| ==> IsDigit(body[i]) || body[i] == '_'
    decreases |body|
  {
    if |body| > 1 {
      var front := if body[|body| - 2] == '_' then body[..|body| - 2] else body[..|body| - 1];
      ParseDigitsAccepts(front);
      assert body[0] == front[0];
      assert forall i :: 0 <= i < |front| ==> body[i] == front[i];
    }
  }

  /** The year-range argument split at '-' into two integers, which give the
      inclusive list of years from the first to the second.
      Anything but exactly two integer parts is a ValueError. */
  function ParseYearRange(s: string): (r: Result<seq<int>>)
    ensures Occurrences(s, '-') != 1 ==> r == Err(MalformedYearRange)
    ensures r.Err? ==> r.error == MalformedYearRange
    ensures r.Ok? ==>
              var parts := Split(s, '-');
              && |parts| == 2
              && ParseInt(parts[0]).Some? && ParseInt(parts[1]).Some?
              && var a := ParseInt(parts[0]).value;
                 var b := ParseInt(parts[1]).value;
                 && |r.value| == (if a <= b then b - a + 1 else 0)
                 && forall i :: 0 <= i < |r.value| ==> r.value[i] == a + i
  {
    var parts := Split(s, '-');
    if |parts| != 2 then Err(MalformedYearRange)
    else
      var start := ParseInt(parts[0]);
      var end := ParseInt(parts[1]);
      if start.None? || end.None? then Err(MalformedYearRange)
      else Ok(Range(start.value, end.value + 1))
  }

  // ---------------------------------------------------------------------------
  // Round trip

  lemma {:induction false} DigitsValueOfNatToString(n: nat)
    ensures DigitsValue(NatToString(n)) == n
    decreases n
  {
    var s := NatToString(n);
    if n >= 10 {
      DigitsValueOfNatToString(n / 10);
      assert s[..|s| - 1] == NatToString(n / 10);
    } else {
      assert s[..0] == [];
    }
  }

  lemma ParseIntOfNatToString(n: nat)
    ensures ParseInt(NatToString(n)) == Some(n)
  {
    var s := NatToString(n);
    StripOfNonSpaceEnds(s);
    ParseIntOfStripped(s);
    ParseStrippedOfUnsigned(s);
    ParseDigitsOfDigits(s);
    DigitsValueOfNatToString(n);
  }


  /** `int(str(n)) == n` for every integer, negative ones included. */
  lemma ParseIntOfIntToString(n: int)
    ensures ParseInt(IntToString(n)) == Some(n)
  {
    if n >= 0 {
      ParseIntOfNatToString(n);
    } else {
      ParseIntOfNegative(n);
    }
  }

  lemma ParseIntOfNegative(n: int)
    requires n < 0
    ensures ParseInt(IntToString(n)) == Some(n)
  {
    var m: nat := -n;
    assert IntToString(n) == "-" + NatToString(m);
    ParseIntOfMinusDigits(NatToString(m));
    DigitsValueOfNatToString(m);
  }

  /** An explicit '+' before the numeral is accepted: `int("+" + str(n)) == n`. */
  lemma ParseIntOfPlusSign(n: nat)
    ensures ParseInt("+" + NatToString(n)) == Some(n)
  {
    ParseIntOfPlusDigits(NatToString(n));
    DigitsValueOfNatToString(n);
  }

  lemma ParseIntOfMinusDigits(digits: string)
    requires |digits| > 0 && forall i :: 0 <= i < |digits| ==> IsDigit(digits[i])
    ensures ParseInt("-" + digits) == Some(-(DigitsValue(digits) as int))
  {
    StripOfSigned('-', digits);
    ParseStrippedOfMinusDigits(digits);
    ParseIntOfStripped("-" + digits);
  }

  lemma ParseStrippedOfMinusDigits(digits: string)
    requires |digits| > 0 && forall i :: 0 <= i < |digits| ==> IsDigit(digits[i])
    ensures ParseStripped("-" + digits) == Some(-(DigitsValue(digits) as int))
  {
    ParseDigitsOfDigits(digits);
    ParseStrippedOfSign('-', digits);
  }

  lemma ParseIntOfPlusDigits(digits: string)
    requires |digits| > 0 && forall i :: 0 <= i < |digits| ==> IsDigit(digits[i])
    ensures ParseInt("+" + digits) == Some(DigitsValue(digits) as int)
  {
    StripOfSigned('+', digits);
    ParseStrippedOfPlusDigits(digits);
    ParseIntOfStripped("+" + digits);
  }

  lemma ParseStrippedOfPlusDigits(digits: string)
    requires |digits| > 0 && forall i :: 0 <= i < |digits| ==> IsDigit(digits[i])
    ensures ParseStripped("+" + digits) == Some(DigitsValue(digits) as int)
  {
    ParseDigitsOfDigits(digits);
    ParseStrippedOfSign('+', digits);
  }

  lemma StripOfSigned(sign: char, digits: string)
    requires sign == '+' || sign == '-'
    requires |digits| > 0 && forall i :: 0 <= i < |digits| ==> IsDigit(digits[i])
    ensures Strip([sign] + digits) == [sign] + digits
  {
    var s := [sign] + digits;
    assert s[0] == sign && s[|s| - 1] == digits[|digits| - 1];
    StripOfNonSpaceEnds(s);
  }

  lemma ParseIntOfStripped(s: string)
    requires Strip(s) == s
    ensures ParseInt(s) == ParseStripped(s)
  {
  }

  lemma ParseStrippedOfSign(sign: char, digits: string)
    requires sign == '+' || sign == '-'
    requires ParseDigits(digits).Some?
    ensures ParseStripped([sign] + digits)
         == Some(if sign == '-' then -(ParseDigits(digits).value as int) else ParseDigits(digits).value as int)
  {
    var s := [sign] + digits;
    assert s[1..] == digits;
  }

  lemma ParseStrippedOfUnsigned(t: string)
    requires |t| > 0 && t[0] != '+' && t[0] != '-'
    ensures ParseStripped(t) == if ParseDigits(t).None? then None else Some(ParseDigits(t).value as int)
  {
  }

  /** An underscore between two runs of digits is ignored:
      `int(x + "_" + y) == int(x + y)`. */
  lemma ParseIntIgnoresUnderscore(x: string, y: string)
    requires |x| > 0 && |y| > 0
    requires forall i :: 0 <= i < |x| ==> IsDigit(x[i])
    requires forall i :: 0 <= i < |y| ==> IsDigit(y[i])
    ensures ParseInt(x + "_" + y) == ParseInt(x + y)
  {
    var s := x + "_" + y;
    var t := x + y;
    assert s[0] == x[0] && s[|s| - 1] == y[|y| - 1];
    assert t[0] == x[0] && t[|t| - 1] == y[|y| - 1];
    StripOfNonSpaceEnds(s);
    StripOfNonSpaceEnds(t);
    ParseDigitsIgnoresUnderscore(x, y);
    ParseIntOfStripped(s);
    ParseIntOfStripped(t);
    ParseStrippedOfUnsigned(s);
    ParseStrippedOfUnsigned(t);
  }

  lemma StripOfNonSpaceEnds(s: string)
    requires |s| > 0 && !IsSpace(s[0]) && !IsSpace(s[|s| - 1])
    ensures Strip(s) == s
  {
  }

  lemma {:induction false} ParseDigitsIgnoresUnderscore(x: string, y: string)
    requires |x| > 0 && |y| > 0
    requires forall i :: 0 <= i < |x| ==> IsDigit(x[i])
    requires forall i :: 0 <= i < |y| ==> IsDigit(y[i])
    ensures ParseDigits(x + "_" + y) == ParseDigits(x + y)
    decreases |y|
  {
    var s := x + "_" + y;
    var t := x + y;
    assert s[|s| - 1] == t[|t| - 1] == y[|y| - 1];
    if |y| == 1 {
      assert s[|s| - 2] == '_' && s[..|s| - 2] == x;
      assert t[|t| - 2] == x[|x| - 1] && t[..|t| - 1] == x;
      ParseDigitsSameFront(s, t, |s| - 2, |t| - 1);
    } else {
      var y' := y[..|y| - 1];
      assert s[|s| - 2] == t[|t| - 2] == y[|y| - 2];
      assert s[..|s| - 1] == x + "_" + y';
      assert t[..|t| - 1] == x + y';
      ParseDigitsIgnoresUnderscore(x, y');
      ParseDigitsSameFront(s, t, |s| - 1, |t| - 1);
    }
  }

  /** Two strings ending in the same digit, whose fronts (what `ParseDigits`
      reads after that digit, skipping one '_') are read alike, are read alike. */
  lemma ParseDigitsSameFront(s: string, t: string, i: nat, j: nat)
    requires 2 <= |s| && 2 <= |t| && s[|s| - 1] == t[|t| - 1] && IsDigit(s[|s| - 1])
    requires i == (if s[|s| - 2] == '_' then |s| - 2 else |s| - 1)
    requires j == (if t[|t| - 2] == '_' then |t| - 2 else |t| - 1)
    requires ParseDigits(s[..i]) == ParseDigits(t[..j])
    ensures ParseDigits(s) == ParseDigits(t)
  {
  }

  /** `int()` ignores whitespace around the numeral: surrounding `s` with
      whitespace changes neither whether it parses nor its value. */
  lemma ParseIntIgnoresSurroundingSpace(before: string, s: string, after: string)
    requires forall i :: 0 <= i < |before| ==> IsSpace(before[i])
    requires forall i :: 0 <= i < |after| ==> IsSpace(after[i])
    ensures ParseInt(before + s + after) == ParseInt(s)
  {
    StripEndAppendSpace(before + s, after);
    StripOfPrependedSpace(before, s);
    assert ParseInt(before + s + after) == ParseStripped(Strip(s));
  }



  lemma {:induction false} StripEndAppendSpace(s: string, after: string)
    requires forall i :: 0 <= i < |after| ==> IsSpace(after[i])
    ensures StripEnd(s + after) == StripEnd(s)
    decreases |after|
  {
    if |after| == 0 {
      assert s + after == s;
    } else {
      var shorter := after[..|after| - 1];
      assert (s + after)[..|s + after| - 1] == s + shorter;
      StripEndAppendSpace(s, shorter);
    }
  }

  lemma {:induction false} StripStartPrependSpace(before: string, s: string)
    requires forall i :: 0 <= i < |before| ==> IsSpace(before[i])
    ensures StripStart(before + s) == StripStart(s)
    decreases |before|
  {
    if |before| == 0 {
      assert before + s == s;
    } else {
      assert (before + s)[1..] == before[1..] + s;
      StripStartPrependSpace(before[1..], s);
    }
  }

  lemma {:induction false} StripOfPrependedSpace(before: string, s: string)
    requires forall i :: 0 <= i < |before| ==> IsSpace(before[i])
    ensures Strip(before + s) == Strip(s)
    decreases |s|
  {
    if |s| == 0 {
      assert before + s == before;
      StripEndOfSpace(before);
    } else if IsSpace(s[|s| - 1]) {
      var shorter := s[..|s| - 1];
      assert (before + s)[..|before + s| - 1] == before + shorter;
      StripOfPrependedSpace(before, shorter);
    } else {
      StripStartPrependSpace(before, s);
    }
  }

  lemma {:induction false} StripEndOfSpace(s: string)
    requires forall i :: 0 <= i < |s| ==> IsSpace(s[i])
    ensures StripEnd(s) == ""
    decreases |s|
  {
    if |s| > 0 {
      StripEndOfSpace(s[..|s| - 1]);
    }
  }

  /** Writing a window as its attribute string and parsing that string back,
      as the download script does, gives exactly the window's years. */
  lemma FormatParseRoundTrip(w: YearWindow)
    requires 0 <= w.start && 1 <= w.stop
    ensures ParseYearRange(FormatYearRange(w)) == Ok(Years(w))
  {
    FormatOfNonNegative(w);
    ParseNumeralPair(w.start, w.stop);
  }

  /** "x-(stop-1)" parses back to the years from x up to, not including, stop. */
  lemma ParseNumeralPair(x: nat, stop: nat)
    requires 1 <= stop
    ensures ParseYearRange(NatToString(x) + ['-'] + NatToString(stop - 1)) == Ok(Range(x, stop))
  {
    NoMinusInNumeral(x);
    NoMinusInNumeral(stop - 1);
    ParseIntOfNatToString(x);
    ParseIntOfNatToString(stop - 1);
    ParsePairOfParts(NatToString(x), NatToString(stop - 1), x, stop - 1);
  }

  /** Two '-'-free parts that `int` reads as x and y, joined by '-', parse to
      the years from x to y inclusive. */
  lemma ParsePairOfParts(a: string, b: string, x: int, y: int)
    requires '-' !in a && '-' !in b
    requires ParseInt(a) == Some(x) && ParseInt(b) == Some(y)
    ensures ParseYearRange(a + ['-'] + b) == Ok(Range(x, y + 1))
  {
    SplitPair(a, b, '-');
    ParseTwoParts(a + ['-'] + b, x, y);
  }

  lemma FormatOfNonNegative(w: YearWindow)
    requires 0 <= w.start && 1 <= w.stop
    ensures FormatYearRange(w) == NatToString(w.start) + ['-'] + NatToString(w.stop - 1)
  {
    assert IntToString(w.start) == NatToString(w.start);
    assert IntToString(w.stop - 1) == NatToString(w.stop - 1);
  }

  lemma NoMinusInNumeral(n: nat)
    ensures '-' !in NatToString(n)
  {
    var s := NatToString(n);
    assert forall i :: 0 <= i < |s| ==> s[i] != '-';
  }

  lemma ParseTwoParts(s: string, x: int, y: int)
    requires |Split(s, '-')| == 2
    requires ParseInt(Split(s, '-')[0]) == Some(x) && ParseInt(Split(s, '-')[1]) == Some(y)
    ensures ParseYearRange(s) == Ok(Range(x, y + 1))
  {
  }

  /** The round trip needs non-negative endpoints: a negative endpoint puts a
      second '-' into the string, which then no longer splits into two parts. */
  lemma NegativeEndpointRejected(w: YearWindow)
    requires w.start < 0 || w.stop < 1
    ensures ParseYearRange(FormatYearRange(w)) == Err(MalformedYearRange)
  {
    var x := IntToString(w.start);
    var y := IntToString(w.stop - 1);
    OccurrencesAround(x, '-', y);
    if w.start < 0 {
      MinusInNegative(w.start);
    } else {
      MinusInNegative(w.stop - 1);
    }
    assert "-" == ['-'];
    assert Occurrences(FormatYearRange(w), '-') >= 2;
  }

  /** `str(n)` of a negative number holds a '-'. */
  lemma MinusInNegative(n: int)
    requires n < 0
    ensures Occurrences(IntToString(n), '-') >= 1
  {
    var d := NatToString(-n);
    assert IntToString(n) == ['-'] + d;
    OccurrencesConcat(['-'], d, '-');
    assert Occurrences(['-'], '-') == 1 by {
      assert ['-'][..0] == [];
    }
  }

  /** The separator between two strings adds one occurrence. */
  lemma OccurrencesAround(a: string, m: char, b: string)
    ensures Occurrences(a + [m] + b, m) == Occurrences(a, m) + 1 + Occurrences(b, m)
  {
    OccurrencesConcat(a + [m], b, m);
    OccurrencesConcat(a, [m], m);
    assert Occurrences([m], m) == 1 by {
      assert [m][..0] == [];
    }
  }
}
