/** The handful of Python `str` operations the modelled code relies on, over
    `seq<char>`: `split()`, `split(sep)`, `join`, `replace`, `startswith`,
    `in` on strings, `upper()`, `strip()`, `str(int)` and `int(str)`. */
module PyStrings {
  import opened Wrappers

  /** The characters `str.split()` and `str.strip()` treat as white space
      (the ASCII ones; see README for the Unicode ones left out). */
  predicate IsSpace(c: char) {
    c == ' ' || c == '\t' || c == '\n' || c == '\r' || c as int == 11 || c as int == 12
  }

  predicate IsDigit(c: char) { '0' <= c <= '9' }

  /** Every character of `s` is a decimal digit. */
  predicate AllDigits(s: string) {
    forall i :: 0 <= i < |s| ==> IsDigit(s[i])
  }

  /** `prefix` is a prefix of `s` (`s.startswith(prefix)`). */
  predicate StartsWith(s: string, prefix: string) {
    |prefix| <= |s| && s[..|prefix|] == prefix
  }

  /** `needle in hay` for two strings. */
  predicate IsSubstring(needle: string, hay: string)
    decreases |hay|
  {
    StartsWith(hay, needle) || (|hay| > 0 && IsSubstring(needle, hay[1..]))
  }

  // ---------------------------------------------------------------- split()

  /** Length of the run of non-space characters that starts `s`. */
  function WordLength(s: string): (n: nat)
    ensures n <= |s|
    ensures forall i :: 0 <= i < n ==> !IsSpace(s[i])
    ensures n < |s| ==> IsSpace(s[n])
  {
    if |s| == 0 || IsSpace(s[0]) then 0 else 1 + WordLength(s[1..])
  }

  /** `s.split()`: the maximal runs of non-space characters, in order. */
  function Words(s: string): (r: seq<string>)
    ensures forall k :: 0 <= k < |r| ==> |r[k]| > 0
    ensures forall k, i :: 0 <= k < |r| && 0 <= i < |r[k]| ==> !IsSpace(r[k][i])
    decreases |s|
  {
    if |s| == 0 then []
    else if IsSpace(s[0]) then Words(s[1..])
    else
      var n := WordLength(s);
      [s[..n]] + Words(s[n..])
  }

  /** A string without white space splits into itself alone. */
  lemma {:induction false} WordsOfWord(s: string)
    requires |s| > 0
    requires forall i :: 0 <= i < |s| ==> !IsSpace(s[i])
    ensures Words(s) == [s]
  {
    WordLengthAll(s);
    assert s[..|s|] == s;
    assert s[|s|..] == [];
    assert Words(s) == [s[..|s|]] + Words(s[|s|..]);
  }

  lemma {:induction false} WordLengthAll(s: string)
    requires forall i :: 0 <= i < |s| ==> !IsSpace(s[i])
    ensures WordLength(s) == |s|
    decreases |s|
  {
    if |s| > 0 {
      WordLengthAll(s[1..]);
    }
  }

  /** White space before the first word is skipped. */
  lemma {:induction false} WordsLeadingSpace(pad: string, s: string)
    requires forall k :: 0 <= k < |pad| ==> IsSpace(pad[k])
    ensures Words(pad + s) == Words(s)
    decreases |pad|
  {
    if |pad| > 0 {
      assert (pad + s)[0] == pad[0] && (pad + s)[1..] == pad[1..] + s;
      WordsLeadingSpace(pad[1..], s);
    } else {
      assert pad + s == s;
    }
  }

  /** A word followed by a space splits off as the first piece, and the
      rest is split as it stands. */
  lemma WordsCons(a: string, b: string)
    requires |a| > 0 && forall i :: 0 <= i < |a| ==> !IsSpace(a[i])
    ensures Words(a + " " + b) == [a] + Words(b)
  {
    var s := a + " " + b;
    WordLengthBeforeSpace(a, " " + b);
    assert s == a + (" " + b);
    assert s[..|a|] == a && s[|a|..] == " " + b;
    assert Words(s) == [a] + Words(" " + b);
    assert (" " + b)[1..] == b;
  }

  /** The first word ends at the first white space. */
  lemma {:induction false} WordLengthBeforeSpace(a: string, rest: string)
    requires forall i :: 0 <= i < |a| ==> !IsSpace(a[i])
    requires |rest| > 0 && IsSpace(rest[0])
    ensures WordLength(a + rest) == |a|
    decreases |a|
  {
    if |a| > 0 {
      assert (a + rest)[1..] == a[1..] + rest;
      WordLengthBeforeSpace(a[1..], rest);
    } else {
      assert a + rest == rest;
    }
  }

  // ------------------------------------------------------------ split(sep)

  /** `s.split(sep)` for a one-character separator: the pieces between
      separators, empty pieces included, so there is always one more piece
      than there are separators. */
  function SplitOn(s: string, sep: char): (r: seq<string>)
    ensures |r| >= 1
    ensures forall k, i :: 0 <= k < |r| && 0 <= i < |r[k]| ==> r[k][i] != sep
    decreases |s|
  {
    if |s| == 0 then [""]
    else
      var rest := SplitOn(s[1..], sep);
      if s[0] == sep then [""] + rest
      else [[s[0]] + rest[0]] + rest[1..]
  }

  /** `sep.join(parts)`. */
  function Join(sep: string, parts: seq<string>): string
  {
    if |parts| == 0 then ""
    else if |parts| == 1 then parts[0]
    else parts[0] + sep + Join(sep, parts[1..])
  }

  /** Splitting a string free of the separator gives the string itself. */
  lemma {:induction false} SplitOnFree(s: string, sep: char)
    requires sep !in s
    ensures SplitOn(s, sep) == [s]
    decreases |s|
  {
    if |s| > 0 {
      SplitOnFree(s[1..], sep);
      assert s == [s[0]] + s[1..];
    }
  }

  /** Splitting `a + [sep] + b` splits at that separator first. */
  lemma {:induction false} SplitOnAppend(a: string, b: string, sep: char)
    requires sep !in a
    ensures SplitOn(a + [sep] + b, sep) == [a] + SplitOn(b, sep)
    decreases |a|
  {
    if |a| == 0 {
      assert a + [sep] + b == [sep] + b;
      assert ([sep] + b)[1..] == b;
    } else {
      SplitOnAppend(a[1..], b, sep);
      assert (a + [sep] + b)[1..] == a[1..] + [sep] + b;
      assert a == [a[0]] + a[1..];
    }
  }

  // -------------------------------------------------------------- replace

  /** `s.replace(pat, repl)`: every non-overlapping occurrence of `pat`,
      scanning from the left, becomes `repl`. */
  function ReplaceAll(s: string, pat: string, repl: string): string
    requires |pat| > 0
    decreases |s|
  {
    if |s| < |pat| then s
    else if s[..|pat|] == pat then repl + ReplaceAll(s[|pat|..], pat, repl)
    else [s[0]] + ReplaceAll(s[1..], pat, repl)
  }

  /** Replacing a string that does not occur leaves `s` as it was. */
  lemma {:induction false} ReplaceAbsent(s: string, pat: string, repl: string)
    requires |pat| > 0
    requires !IsSubstring(pat, s)
    ensures ReplaceAll(s, pat, repl) == s
    decreases |s|
  {
    if |s| >= |pat| {
      ReplaceAbsent(s[1..], pat, repl);
      assert s == [s[0]] + s[1..];
    }
  }

  /** `s.replace(c, "")` for one character: every `c` removed. */
  function RemoveAll(s: string, c: char): (r: string)
    ensures c !in r
    ensures |r| <= |s|
  {
    if |s| == 0 then ""
    else if s[0] == c then RemoveAll(s[1..], c)
    else [s[0]] + RemoveAll(s[1..], c)
  }

  lemma {:induction false} RemoveAllAbsent(s: string, c: char)
    requires c !in s
    ensures RemoveAll(s, c) == s
  {
    if |s| > 0 {
      RemoveAllAbsent(s[1..], c);
    }
  }

  lemma {:induction false} RemoveAllConcat(a: string, b: string, c: char)
    ensures RemoveAll(a + b, c) == RemoveAll(a, c) + RemoveAll(b, c)
  {
    if |a| > 0 {
      assert (a + b)[1..] == a[1..] + b;
      RemoveAllConcat(a[1..], b, c);
    } else {
      assert a + b == b;
    }
  }

  // ---------------------------------------------------- upper() and strip()

  /** `c.upper()` for ASCII letters. */
  function UpperChar(c: char): char {
    if 'a' <= c <= 'z' then (c as int - 32) as char else c
  }

  /** `s.upper()` (ASCII letters only). */
  function Upper(s: string): (r: string)
    ensures |r| == |s|
    ensures forall i :: 0 <= i < |s| ==> r[i] == UpperChar(s[i])
  {
    if |s| == 0 then "" else [UpperChar(s[0])] + Upper(s[1..])
  }

  /** `s.lstrip()`. */
  function StripLeft(s: string): (r: string)
    ensures |r| <= |s|
    ensures |r| > 0 ==> !IsSpace(r[0])
  {
    if |s| > 0 && IsSpace(s[0]) then StripLeft(s[1..]) else s
  }

  /** `s.rstrip()`. */
  function StripRight(s: string): (r: string)
    ensures |r| <= |s|
    ensures |r| > 0 ==> !IsSpace(r[|r| - 1])
  {
    if |s| > 0 && IsSpace(s[|s| - 1]) then StripRight(s[..|s| - 1]) else s
  }

  /** `s.strip()`. */
  function Strip(s: string): string {
    StripRight(StripLeft(s))
  }

  // ------------------------------------------------------ str(int), int(s)

  function DigitChar(d: nat): char
    requires d < 10
  {
    ('0' as int + d) as char
  }

  function DigitValue(c: char): nat
    requires IsDigit(c)
  {
    c as int - '0' as int
  }

  /** `str(n)` for a natural number: its decimal digits, no leading zero. */
  function NatToString(n: nat): (r: string)
    ensures |r| > 0
    ensures forall i :: 0 <= i < |r| ==> IsDigit(r[i])
  {
    if n < 10 then [DigitChar(n)] else NatToString(n / 10) + [DigitChar(n % 10)]
  }

  /** `str(i)` for any integer. */
  function IntToString(i: int): string {
    if i < 0 then "-" + NatToString(-i) else NatToString(i)
  }

  /** The number a non-empty run of digits denotes. */
  function DigitsValue(s: string): nat
    requires forall i :: 0 <= i < |s| ==> IsDigit(s[i])
  {
    if |s| == 0 then 0 else DigitsValue(s[..|s| - 1]) * 10 + DigitValue(s[|s| - 1])
  }

  /** Reading back the digits `str` wrote gives the number. */
  lemma {:induction false} DigitsOfNat(n: nat)
    ensures DigitsValue(NatToString(n)) == n
  {
    var s := NatToString(n);
    if n >= 10 {
      DigitsOfNat(n / 10);
      assert s[..|s| - 1] == NatToString(n / 10);
    }
  }

  /** Zeros in front of a run of digits do not change the number it denotes. */
  lemma {:induction false} LeadingZeros(z: string, s: string)
    requires forall i :: 0 <= i < |z| ==> z[i] == '0'
    requires forall i :: 0 <= i < |s| ==> IsDigit(s[i])
    ensures AllDigits(z + s) && DigitsValue(z + s) == DigitsValue(s)
  {
    if |s| == 0 {
      assert z + s == z;
      if |z| > 0 {
        LeadingZeros(z[..|z| - 1], s);
        assert z[..|z| - 1] + s == z[..|z| - 1];
      }
    } else {
      var init := s[..|s| - 1];
      LeadingZeros(z, init);
      assert (z + s)[..|z + s| - 1] == z + init;
    }
  }

  /** `int(s)`: surrounding white space allowed, then an optional sign and at
      least one decimal digit; anything else is a ValueError. */
  function ParseInt(s: string): (r: Result<int>)
    ensures r.Err? ==> r.error == ValueError
  {
    var t := Strip(s);
    if |t| > 0 && (t[0] == '-' || t[0] == '+') then
      var body := t[1..];
      if |body| > 0 && forall i :: 0 <= i < |body| ==> IsDigit(body[i]) then
        Ok(if t[0] == '-' then -(DigitsValue(body) as int) else DigitsValue(body))
      else Err(ValueError)
    else if |t| > 0 && forall i :: 0 <= i < |t| ==> IsDigit(t[i]) then
      Ok(DigitsValue(t))
    else Err(ValueError)
  }

  /** `int(str(i)) == i`, also with white space in front. */
  lemma IntRoundTrip(i: int, pad: string)
    requires forall k :: 0 <= k < |pad| ==> IsSpace(pad[k])
    ensures ParseInt(pad + IntToString(i)) == Ok(i)
  {
    var s := IntToString(i);
    StripLeftSpaces(pad, s);
    StripRightDigitEnd(s);
    if i < 0 {
      DigitsOfNat(-i);
      assert s[1..] == NatToString(-i);
    } else {
      DigitsOfNat(i);
    }
  }

  lemma {:induction false} StripLeftSpaces(pad: string, s: string)
    requires forall k :: 0 <= k < |pad| ==> IsSpace(pad[k])
    requires |s| > 0 && !IsSpace(s[0])
    ensures StripLeft(pad + s) == s
  {
    if |pad| > 0 {
      assert (pad + s)[1..] == pad[1..] + s;
      StripLeftSpaces(pad[1..], s);
    } else {
      assert pad + s == s;
    }
  }

  /** `rstrip` removes exactly the trailing white space. */
  lemma {:induction false} StripRightSpaces(s: string, pad: string)
    requires forall k :: 0 <= k < |pad| ==> IsSpace(pad[k])
    requires |s| > 0 ==> !IsSpace(s[|s| - 1])
    ensures StripRight(s + pad) == s
    decreases |pad|
  {
    if |pad| > 0 {
      var shorter := pad[..|pad| - 1];
      assert (s + pad)[..|s + pad| - 1] == s + shorter;
      assert shorter == pad[..|pad| - 1];
      StripRightSpaces(s, shorter);
    } else {
      assert s + pad == s;
    }
  }

  lemma StripRightDigitEnd(s: string)
    requires |s| > 0 && !IsSpace(s[|s| - 1])
    ensures StripRight(s) == s
  {
  }
}
