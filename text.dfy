/** String helpers standing for the Python built-ins the scripts call:
    `str.strip`, `str.lower`, `str.split`, `int(...)` and the `{n:02}`
    format specifier.  Characters are Dafny `char`s; only the ASCII part of
    Python's case mapping and whitespace class is modelled. */
module Text {
  import opened Wrappers

  // ---------------------------------------------------------------------
  // Whitespace, strip, lower

  /** The ASCII characters for which Python's `str.isspace` holds. */
  predicate IsSpace(c: char) {
    c == ' ' || ('\t' <= c <= '\r') || ('\U{1C}' <= c <= '\U{1F}')
  }

  predicate AllSpace(s: string) {
    forall k :: 0 <= k < |s| ==> IsSpace(s[k])
  }

  predicate NoSpace(s: string) {
    forall k :: 0 <= k < |s| ==> !IsSpace(s[k])
  }

  /** Index of the first non-space character (or |s|). */
  function SkipSpaces(s: string, i: nat): (j: nat)
    requires i <= |s|
    ensures i <= j <= |s|
    ensures AllSpace(s[i..j])
    ensures j < |s| ==> !IsSpace(s[j])
    decreases |s| - i
  {
    if i == |s| || !IsSpace(s[i]) then i
    else
      var j := SkipSpaces(s, i + 1);
      assert s[i..j] == [s[i]] + s[i + 1..j];
      j
  }

  /** Index of the first space character at or after i (or |s|). */
  function SkipWord(s: string, i: nat): (j: nat)
    requires i <= |s|
    ensures i <= j <= |s|
    ensures NoSpace(s[i..j])
    ensures j < |s| ==> IsSpace(s[j])
    decreases |s| - i
  {
    if i == |s| || IsSpace(s[i]) then i
    else
      var j := SkipWord(s, i + 1);
      assert s[i..j] == [s[i]] + s[i + 1..j];
      j
  }

  /** Number of trailing characters to keep: the index just past the last
      non-space character of s[..n]. */
  function TrimEnd(s: string, n: nat): (j: nat)
    requires n <= |s|
    ensures j <= n
    ensures AllSpace(s[j..n])
    ensures j > 0 ==> !IsSpace(s[j - 1])
  {
    if n == 0 || !IsSpace(s[n - 1]) then n
    else
      var j := TrimEnd(s, n - 1);
      assert s[j..n] == s[j..n - 1] + [s[n - 1]];
      j
  }

  /** Python's `s.strip()`: the slice of s without leading and trailing
      whitespace. */
  function Strip(s: string): (r: string)
    ensures r != [] ==> !IsSpace(r[0]) && !IsSpace(r[|r| - 1])
  {
    var i := SkipSpaces(s, 0);
    var j := TrimEnd(s, |s|);
    if i == |s| then [] else s[i..j]
  }

  /** What `strip()` removes is whitespace at both ends. */
  lemma StripIsSlice(s: string)
    ensures exists i, j :: 0 <= i <= j <= |s| && Strip(s) == s[i..j] && AllSpace(s[..i]) && AllSpace(s[j..])
  {
    var i := SkipSpaces(s, 0);
    var j := TrimEnd(s, |s|);
    assert s[..i] == s[0..i];
    assert s[j..] == s[j..|s|];
    if i == |s| {
      assert [] == s[i..i];
    }
  }

  /** ASCII part of Python's `str.lower()`. */
  function LowerChar(c: char): char {
    if 'A' <= c <= 'Z' then (c as int + 32) as char else c
  }

  function Lower(s: string): (r: string)
    ensures |r| == |s|
    ensures forall k :: 0 <= k < |s| ==> r[k] == LowerChar(s[k])
  {
    seq(|s|, k requires 0 <= k < |s| => LowerChar(s[k]))
  }

  /** The "Not Usable" column test of both candidate selectors:
      `cell.strip().lower() == 'x'`. */
  predicate IsForcedSkip(cell: string) {
    Lower(Strip(cell)) == "x"
  }

  /** The forced-skip marker is exactly an 'x' or an 'X' surrounded by
      whitespace. */
  lemma ForcedSkipIff(cell: string)
    ensures IsForcedSkip(cell) <==> (Strip(cell) == "x" || Strip(cell) == "X")
  {
    var t := Strip(cell);
    if IsForcedSkip(cell) {
      assert |t| == 1 && LowerChar(t[0]) == 'x';
      assert t == [t[0]];
    }
  }

  // ---------------------------------------------------------------------
  // Splitting

  /** Python's `s.split()` with no argument, cut down to what the
      downloaders use: the first whitespace-separated token, if any. */
  function FirstToken(s: string): (r: Option<string>)
    ensures r.None? <==> AllSpace(s)
    ensures r.Some? ==> r.value != [] && NoSpace(r.value)
    ensures r.Some? ==> exists k :: 0 <= k && k + |r.value| <= |s| && AllSpace(s[..k])
                                    && s[k..k + |r.value|] == r.value
                                    && (k + |r.value| == |s| || IsSpace(s[k + |r.value|]))
  {
    var i := SkipSpaces(s, 0);
    if i == |s| then
      assert s[0..|s|] == s;
      None
    else
      var j := SkipWord(s, i);
      assert s[0..i] == s[..i];
      assert !AllSpace(s) by { assert !IsSpace(s[i]); }
      Some(s[i..j])
  }

  /** Index of the first occurrence of c in s, if any. */
  function IndexOf(s: string, c: char): (r: Option<nat>)
    ensures r.None? <==> c !in s
    ensures r.Some? ==> r.value < |s| && s[r.value] == c && c !in s[..r.value]
  {
    if s == [] then None
    else if s[0] == c then Some(0)
    else match IndexOf(s[1..], c)
      case None => None
      case Some(k) =>
        assert s[..k + 1] == [s[0]] + s[1..][..k];
        Some(k + 1)
  }

  /** Python's `s.split(sep)` for a one-character separator: the pieces
      between the separators, always at least one. */
  function SplitOn(s: string, sep: char): (r: seq<string>)
    ensures |r| >= 1
    ensures forall k :: 0 <= k < |r| ==> sep !in r[k]
    decreases |s|
  {
    match IndexOf(s, sep)
    case None => [s]
    case Some(k) => [s[..k]] + SplitOn(s[k + 1..], sep)
  }

  /** `sep.join(parts)` -- the inverse of SplitOn. */
  function Join(parts: seq<string>, sep: char): string
    requires |parts| >= 1
  {
    if |parts| == 1 then parts[0] else parts[0] + [sep] + Join(parts[1..], sep)
  }

  lemma {:induction false} JoinSplit(s: string, sep: char)
    ensures Join(SplitOn(s, sep), sep) == s
    decreases |s|
  {
    match IndexOf(s, sep)
    case None =>
    case Some(k) =>
      var rest := SplitOn(s[k + 1..], sep);
      var parts := [s[..k]] + rest;
      assert SplitOn(s, sep) == parts;
      assert parts[1..] == rest;
      JoinSplit(s[k + 1..], sep);
      assert Join(parts, sep) == s[..k] + [sep] + Join(rest, sep);
      assert s == s[..k] + [sep] + s[k + 1..];
  }

  lemma {:induction false} SplitJoin(parts: seq<string>, sep: char)
    requires |parts| >= 1
    requires forall k :: 0 <= k < |parts| ==> sep !in parts[k]
    ensures SplitOn(Join(parts, sep), sep) == parts
  {
    if |parts| == 1 {
    } else {
      var rest := Join(parts[1..], sep);
      var s := parts[0] + [sep] + rest;
      assert sep !in parts[0];
      IndexOfPrefix(parts[0], sep, rest);
      assert s[|parts[0]| + 1..] == rest;
      assert s[..|parts[0]|] == parts[0];
      SplitJoin(parts[1..], sep);
    }
  }

  lemma {:induction false} IndexOfPrefix(a: string, sep: char, b: string)
    requires sep !in a
    ensures IndexOf(a + [sep] + b, sep) == Some(|a|)
  {
    if a != [] {
      assert (a + [sep] + b)[1..] == a[1..] + [sep] + b;
      IndexOfPrefix(a[1..], sep, b);
    }
  }

  // ---------------------------------------------------------------------
  // Decimal numbers

  predicate IsDigit(c: char) { '0' <= c <= '9' }

  predicate AllDigits(s: string) {
    forall k :: 0 <= k < |s| ==> IsDigit(s[k])
  }

  function DigitChar(d: nat): (c: char)
    requires d < 10
    ensures IsDigit(c)
  {
    ('0' as int + d) as char
  }

  function DigitValue(c: char): (d: nat)
    requires IsDigit(c)
    ensures d < 10
  {
    c as int - '0' as int
  }

  /** The value of a string of decimal digits. */
  function DigitsValue(s: string): nat
    requires AllDigits(s)
  {
    if s == [] then 0 else DigitsValue(s[..|s| - 1]) * 10 + DigitValue(s[|s| - 1])
  }

  /** `str(n)` for a natural number: decimal, no leading zeros. */
  function NatToString(n: nat): (r: string)
    ensures r != [] && AllDigits(r)
    ensures n < 10 <==> |r| == 1
  {
    if n < 10 then [DigitChar(n)] else NatToString(n / 10) + [DigitChar(n % 10)]
  }

  lemma {:induction false} NatToStringValue(n: nat)
    ensures DigitsValue(NatToString(n)) == n
  {
    var r := NatToString(n);
    if n >= 10 {
      NatToStringValue(n / 10);
      assert r[..|r| - 1] == NatToString(n / 10);
    }
  }

  function Zeros(k: nat): (r: string)
    ensures |r| == k && AllDigits(r)
    ensures forall i :: 0 <= i < k ==> r[i] == '0'
  {
    seq(k, _ => '0')
  }

  /** The format specifier `{n:0w}` for a natural number: at least w
      characters, padded on the left with zeros. */
  function Pad(n: nat, w: nat): (r: string)
    ensures AllDigits(r) && |r| >= w
  {
    var d := NatToString(n);
    if |d| >= w then d else Zeros(w - |d|) + d
  }

  function Pow10(k: nat): (p: nat)
    ensures p >= 1
  {
    if k == 0 then 1 else 10 * Pow10(k - 1)
  }

  lemma {:induction false} NatToStringLength(n: nat, w: nat)
    requires w >= 1 && n < Pow10(w)
    ensures |NatToString(n)| <= w
  {
    if n >= 10 {
      assert w >= 2;
      NatToStringLength(n / 10, w - 1);
    }
  }

  lemma {:induction false} ZerosPrefixValue(k: nat, d: string)
    requires AllDigits(d)
    ensures AllDigits(Zeros(k) + d) && DigitsValue(Zeros(k) + d) == DigitsValue(d)
    decreases |d|
  {
    var s := Zeros(k) + d;
    if d == [] {
      assert s == Zeros(k);
      ZerosValue(k);
    } else {
      assert s[..|s| - 1] == Zeros(k) + d[..|d| - 1];
      ZerosPrefixValue(k, d[..|d| - 1]);
    }
  }

  lemma {:induction false} ZerosValue(k: nat)
    ensures DigitsValue(Zeros(k)) == 0
  {
    if k > 0 {
      assert Zeros(k)[..k - 1] == Zeros(k - 1);
      ZerosValue(k - 1);
    }
  }

  /** Zero padding is read back as the padded number, and a number below
      10^w fills exactly w characters. */
  lemma PadValue(n: nat, w: nat)
    ensures DigitsValue(Pad(n, w)) == n
    ensures w >= 1 && n < Pow10(w) ==> |Pad(n, w)| == w
  {
    var d := NatToString(n);
    NatToStringValue(n);
    if |d| < w { ZerosPrefixValue(w - |d|, d); }
    if w >= 1 && n < Pow10(w) { NatToStringLength(n, w); }
  }

  /** Python's `int(s)` for the forms the sheets contain: surrounding
      whitespace, an optional sign, then one or more decimal digits.
      Anything else raises ValueError, modelled as None. */
  function ParseInt(s: string): (r: Option<int>)
  {
    var t := Strip(s);
    if t == [] then None
    else if (t[0] == '-' || t[0] == '+') && |t| >= 2 && AllDigits(t[1..]) then
      var v: int := if t[0] == '-' then -(DigitsValue(t[1..]) as int) else DigitsValue(t[1..]);
      Some(v)
    else if AllDigits(t) then Some(DigitsValue(t))
    else None
  }

  /** `str(i)` for an integer. */
  function IntToString(i: int): string {
    if i < 0 then "-" + NatToString(-i) else NatToString(i)
  }

  lemma StripNoSpace(s: string)
    requires s != [] && !IsSpace(s[0]) && !IsSpace(s[|s| - 1])
    ensures Strip(s) == s
  {
    assert SkipSpaces(s, 0) == 0;
    assert TrimEnd(s, |s|) == |s|;
  }

  /** `int(str(i)) == i`. */
  lemma ParseIntToString(i: int)
    ensures ParseInt(IntToString(i)) == Some(i)
  {
    var t := IntToString(i);
    var d := NatToString(if i < 0 then -i else i);
    NatToStringValue(if i < 0 then -i else i);
    assert !IsSpace(d[|d| - 1]) by { assert IsDigit(d[|d| - 1]); }
    assert !IsSpace(d[0]) by { assert IsDigit(d[0]); }
    if i < 0 {
      assert t[1..] == d;
      assert t[|t| - 1] == d[|d| - 1];
    }
    StripNoSpace(t);
  }

  /** The digits and signs IntToString produces contain no separator. */
  lemma IntToStringNoComma(i: int)
    ensures ',' !in IntToString(i)
  {
    var d := NatToString(if i < 0 then -i else i);
    assert forall k :: 0 <= k < |d| ==> d[k] != ',' by {
      forall k | 0 <= k < |d| ensures d[k] != ',' { assert IsDigit(d[k]); }
    }
  }
}
