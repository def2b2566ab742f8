/** The string operations of Python's standard library that the planner relies on:
    str.split() with no separator, str.split(':')[0], str.strip(), s[-2:],
    str(n) for an integer and int(s) for a decimal string. */
module Text {
  import opened Options

  /** The characters str.isspace() accepts, and so str.split() and str.strip() treat as
      whitespace: \t \n \x0b \x0c \r, \x1c to \x1f, space, \x85, \xa0, \u1680, \u2000 to
      \u200a, \u2028, \u2029, \u202f, \u205f and \u3000. */
  predicate IsWhitespace(c: char)
  {
    c == ' ' || ('\t' <= c <= '\r') || ('\U{1C}' <= c <= '\U{1F}')
    || c == '\U{85}' || c == '\U{A0}' || c == '\U{1680}' || ('\U{2000}' <= c <= '\U{200A}')
    || c == '\U{2028}' || c == '\U{2029}' || c == '\U{202F}' || c == '\U{205F}' || c == '\U{3000}'
  }

  predicate AllWhitespace(s: string)
  {
    forall i :: 0 <= i < |s| ==> IsWhitespace(s[i])
  }

  predicate IsDigit(c: char)
  {
    '0' <= c <= '9'
  }

  predicate NoWhitespace(s: string)
  {
    forall i :: 0 <= i < |s| ==> !IsWhitespace(s[i])
  }

  /** The longest prefix of s that holds no whitespace. */
  function Word(s: string): (w: string)
    ensures |w| <= |s| && w == s[..|w|]
    ensures NoWhitespace(w)
    ensures |w| == |s| || IsWhitespace(s[|w|])
    decreases |s|
  {
    if s == [] || IsWhitespace(s[0]) then [] else [s[0]] + Word(s[1..])
  }

  /** str.split(): the maximal runs of non-whitespace characters, in order. */
  function Split(s: string): (tokens: seq<string>)
    ensures forall t :: t in tokens ==> t != [] && NoWhitespace(t)
    decreases |s|
  {
    if s == [] then []
    else if IsWhitespace(s[0]) then Split(s[1..])
    else
      var w := Word(s);
      [w] + Split(s[|w|..])
  }

  /** A string without whitespace splits into itself alone. */
  lemma {:induction false} SplitWord(s: string)
    requires s != [] && NoWhitespace(s)
    ensures Split(s) == [s]
  {
    assert Word(s) == s;
  }

  /** A word followed by a space and more text splits into the word and the rest's tokens. */
  lemma {:induction false} SplitJoin(word: string, rest: string)
    requires word != [] && NoWhitespace(word)
    ensures Split(word + " " + rest) == [word] + Split(rest)
  {
    var s := word + " " + rest;
    WordBeforeSpace(word, rest);
    assert s[|word|..] == " " + rest;
    assert (" " + rest)[1..] == rest;
  }

  lemma {:induction false} WordBeforeSpace(word: string, rest: string)
    requires NoWhitespace(word)
    ensures Word(word + " " + rest) == word
    decreases |word|
  {
    if word != [] {
      assert (word + " " + rest)[1..] == word[1..] + " " + rest;
      WordBeforeSpace(word[1..], rest);
    }
  }

  /** Leading whitespace does not change the tokens. */
  lemma {:induction false} SplitSkipsWhitespace(ws: string, s: string)
    requires AllWhitespace(ws)
    ensures Split(ws + s) == Split(s)
    decreases |ws|
  {
    if ws == [] {
      assert ws + s == s;
    } else {
      assert (ws + s)[0] == ws[0];
      assert (ws + s)[1..] == ws[1..] + s;
      SplitSkipsWhitespace(ws[1..], s);
    }
  }

  /** A word followed by a run of whitespace is one token, and splitting goes on after the run.
      With SplitSkipsWhitespace and SplitWord this determines the tokens of every string. */
  lemma {:induction false} SplitWordRun(w: string, ws: string, s: string)
    requires w != [] && NoWhitespace(w)
    requires ws != [] && AllWhitespace(ws)
    ensures Split(w + ws + s) == [w] + Split(s)
  {
    var t := w + ws + s;
    assert t == w + [ws[0]] + (ws[1..] + s);
    WordBeforeWhitespace(w, ws[0], ws[1..] + s);
    assert t[|w|..] == ws + s;
    SplitSkipsWhitespace(ws, s);
  }

  lemma {:induction false} WordBeforeWhitespace(word: string, c: char, rest: string)
    requires NoWhitespace(word) && IsWhitespace(c)
    ensures Word(word + [c] + rest) == word
    decreases |word|
  {
    if word != [] {
      assert (word + [c] + rest)[1..] == word[1..] + [c] + rest;
      WordBeforeWhitespace(word[1..], c, rest);
    }
  }

  /** str.strip(): s without leading and trailing whitespace. */
  function Strip(s: string): (r: string)
    ensures |r| <= |s|
    ensures r != [] ==> !IsWhitespace(r[0]) && !IsWhitespace(r[|r| - 1])
    decreases |s|
  {
    if s == [] then []
    else if IsWhitespace(s[0]) then Strip(s[1..])
    else if IsWhitespace(s[|s| - 1]) then Strip(s[..|s| - 1])
    else s
  }

  /** r is s[a..b], with only whitespace before a and from b on. */
  ghost predicate TrimmedTo(s: string, r: string, a: int, b: int)
  {
    0 <= a <= b <= |s| && r == s[a..b] && AllWhitespace(s[..a]) && AllWhitespace(s[b..])
  }

  /** Strip removes whitespace from both ends and nothing else: the result is a slice of s with
      only whitespace before and after it. */
  lemma {:induction false} StripTrims(s: string)
    ensures exists a, b :: TrimmedTo(s, Strip(s), a, b)
    decreases |s|
  {
    if s == [] {
      assert TrimmedTo(s, Strip(s), 0, 0);
    } else if IsWhitespace(s[0]) {
      StripTrims(s[1..]);
      var a, b :| TrimmedTo(s[1..], Strip(s[1..]), a, b);
      TrimFront(s, Strip(s[1..]), a, b);
      assert Strip(s) == Strip(s[1..]);
      assert TrimmedTo(s, Strip(s), a + 1, b + 1);
    } else if IsWhitespace(s[|s| - 1]) {
      StripTrims(s[..|s| - 1]);
      var a, b :| TrimmedTo(s[..|s| - 1], Strip(s[..|s| - 1]), a, b);
      TrimBack(s, Strip(s[..|s| - 1]), a, b);
      assert Strip(s) == Strip(s[..|s| - 1]);
      assert TrimmedTo(s, Strip(s), a, b);
    } else {
      assert TrimmedTo(s, Strip(s), 0, |s|);
    }
  }

  lemma {:induction false} TrimFront(s: string, r: string, a: int, b: int)
    requires s != [] && IsWhitespace(s[0]) && TrimmedTo(s[1..], r, a, b)
    ensures TrimmedTo(s, r, a + 1, b + 1)
  {
    assert s[1..][a..b] == s[a + 1..b + 1];
    assert s[..a + 1] == [s[0]] + s[1..][..a];
    assert s[b + 1..] == s[1..][b..];
  }

  lemma {:induction false} TrimBack(s: string, r: string, a: int, b: int)
    requires s != [] && IsWhitespace(s[|s| - 1]) && TrimmedTo(s[..|s| - 1], r, a, b)
    ensures TrimmedTo(s, r, a, b)
  {
    var init := s[..|s| - 1];
    assert init[a..b] == s[a..b];
    assert init[..a] == s[..a];
    assert s[b..] == init[b..] + [s[|s| - 1]];
  }

  /** s.split(c)[0]: the text before the first occurrence of c, or all of s. */
  function BeforeFirst(s: string, c: char): (r: string)
    ensures |r| <= |s| && r == s[..|r|]
    ensures c !in r
    ensures |r| == |s| || s[|r|] == c
    decreases |s|
  {
    if s == [] || s[0] == c then [] else [s[0]] + BeforeFirst(s[1..], c)
  }

  /** s[-2:]: the last two characters, or all of a shorter s. */
  function LastTwo(s: string): (r: string)
  {
    if |s| >= 2 then s[|s| - 2..] else s
  }

  /** s.endswith(suffix) */
  predicate EndsWith(s: string, suffix: string)
  {
    |suffix| <= |s| && s[|s| - |suffix|..] == suffix
  }

  function DigitChar(d: nat): (c: char)
    requires d < 10
    ensures IsDigit(c)
  {
    ('0' as int + d) as char
  }

  function DigitValue(c: char): (d: nat)
    requires IsDigit(c)
    ensures d < 10 && DigitChar(d) == c
  {
    (c - '0') as nat
  }

  /** str(n) for n >= 0: decimal digits, no leading zero. */
  function NatToString(n: nat): (s: string)
    ensures s != [] && forall i :: 0 <= i < |s| ==> IsDigit(s[i])
    decreases n
  {
    if n < 10 then [DigitChar(n)] else NatToString(n / 10) + [DigitChar(n % 10)]
  }

  /** str(n) */
  function IntToString(n: int): string
  {
    if n < 0 then "-" + NatToString(-n) else NatToString(n)
  }

  predicate IsDigits(s: string)
  {
    s != [] && forall i :: 0 <= i < |s| ==> IsDigit(s[i])
  }

  /** The value of a string of decimal digits. */
  function DigitsValue(s: string): nat
    requires forall i :: 0 <= i < |s| ==> IsDigit(s[i])
    decreases |s|
  {
    if s == [] then 0 else DigitsValue(s[..|s| - 1]) * 10 + DigitValue(s[|s| - 1])
  }

  /** int(s) in base 10: surrounding whitespace, an optional sign, then at least one digit;
      anything else raises ValueError, modelled as None. */
  function ParseInt(s: string): (r: Option<int>)
  {
    var t := Strip(s);
    if t != [] && (t[0] == '-' || t[0] == '+') then
      if IsDigits(t[1..]) then
        Some(if t[0] == '-' then -(DigitsValue(t[1..]) as int) else DigitsValue(t[1..]))
      else None
    else if IsDigits(t) then Some(DigitsValue(t))
    else None
  }

  lemma {:induction false} DigitsValueOfNatToString(n: nat)
    ensures DigitsValue(NatToString(n)) == n
    decreases n
  {
    if n < 10 {
      assert NatToString(n) == [] + [DigitChar(n)];
      DigitsValueSnoc([], n);
    } else {
      DigitsValueOfNatToString(n / 10);
      DigitsValueSnoc(NatToString(n / 10), n % 10);
    }
  }

  /** Appending digit d multiplies the value by ten and adds d. */
  lemma {:induction false} DigitsValueSnoc(s: string, d: nat)
    requires forall i :: 0 <= i < |s| ==> IsDigit(s[i])
    requires d < 10
    ensures DigitsValue(s + [DigitChar(d)]) == DigitsValue(s) * 10 + d
  {
    assert (s + [DigitChar(d)])[..|s|] == s;
    assert DigitValue(DigitChar(d)) == d;
  }

  lemma {:induction false} StripNoWhitespace(s: string)
    requires forall i :: 0 <= i < |s| ==> IsDigit(s[i])
    ensures Strip(s) == s
  {
  }

  /** int(str(n)) == n */
  lemma {:induction false} ParseIntOfIntToString(n: int)
    ensures ParseInt(IntToString(n)) == Some(n)
  {
    DigitsValueOfNatToString(if n < 0 then -n else n);
    if n < 0 {
      ParseNegative(NatToString(-n));
    } else {
      ParseDigits(NatToString(n));
    }
  }

  lemma {:induction false} ParseNegative(d: string)
    requires IsDigits(d)
    ensures ParseInt("-" + d) == Some(-(DigitsValue(d) as int))
  {
    var t := "-" + d;
    assert t[1..] == d;
    assert t[|t| - 1] == d[|d| - 1];
    assert Strip(t) == t;
  }

  lemma {:induction false} ParseDigits(d: string)
    requires IsDigits(d)
    ensures ParseInt(d) == Some(DigitsValue(d) as int)
  {
    StripNoWhitespace(d);
  }
}
