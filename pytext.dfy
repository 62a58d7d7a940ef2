/** The parts of Python's `str` and `int` that host parsing and the host key
    rely on: `str.isspace`, `str.strip()`, `str.split(sep)`, `int(s)` for a
    string `s`, and `str(n)` / `f"{n}"` for an integer `n`. */
module PyText {
  import opened Common

  /** Python's `str.isspace` for one character: the characters that
      `str.strip()` removes. */
  predicate IsSpace(c: char) {
    || '\t' <= c <= '\r'
    || '\U{1C}' <= c <= '\U{1F}'
    || c == ' '
    || c == '\U{85}'
    || c == '\U{A0}'
    || c == '\U{1680}'
    || '\U{2000}' <= c <= '\U{200A}'
    || c == '\U{2028}'
    || c == '\U{2029}'
    || c == '\U{202F}'
    || c == '\U{205F}'
    || c == '\U{3000}'
  }

  /** Which whitespace a trim removes: `str.strip()` removes every `isspace`
      character; `int()` skips the same set except the four ASCII separators
      U+001C..U+001F, which it rejects. */
  datatype Whitespace = StrSpace | IntSpace

  predicate IsWhite(ws: Whitespace, c: char) {
    IsSpace(c) && (ws == IntSpace ==> !('\U{1C}' <= c <= '\U{1F}'))
  }

  /** The first position at or after `i` that is not whitespace
      (`|s|` when there is none). */
  function SkipSpaces(ws: Whitespace, s: string, i: nat): (k: nat)
    requires i <= |s|
    ensures i <= k <= |s| && (k == |s| || !IsWhite(ws, s[k]))
    ensures forall j :: i <= j < k ==> IsWhite(ws, s[j])
    decreases |s| - i
  {
    if i < |s| && IsWhite(ws, s[i]) then SkipSpaces(ws, s, i + 1) else i
  }

  /** The end of `s[lo..i]` once its trailing whitespace is cut off. */
  function SkipSpacesBack(ws: Whitespace, s: string, lo: nat, i: nat): (k: nat)
    requires lo <= i <= |s|
    ensures lo <= k <= i && (k == lo || !IsWhite(ws, s[k - 1]))
    ensures forall j :: k <= j < i ==> IsWhite(ws, s[j])
    decreases i
  {
    if lo < i && IsWhite(ws, s[i - 1]) then SkipSpacesBack(ws, s, lo, i - 1) else i
  }

  /** The slice of `s` between its leading and its trailing whitespace of
      kind `ws`; neither end of the result is such whitespace. */
  function Trim(ws: Whitespace, s: string): (r: string)
    ensures r == [] || (!IsWhite(ws, r[0]) && !IsWhite(ws, r[|r| - 1]))
  {
    var lo := SkipSpaces(ws, s, 0);
    s[lo..SkipSpacesBack(ws, s, lo, |s|)]
  }

  /** `s.strip()`. */
  function Strip(s: string): (r: string)
    ensures r == [] || (!IsSpace(r[0]) && !IsSpace(r[|r| - 1]))
  {
    Trim(StrSpace, s)
  }

  /** A trim drops only whitespace and keeps the rest in place: the result
      is a slice of `s`, and the characters around it are whitespace. */
  lemma TrimSlice(ws: Whitespace, s: string) returns (lo: nat)
    ensures lo + |Trim(ws, s)| <= |s| && Trim(ws, s) == s[lo..lo + |Trim(ws, s)|]
    ensures forall i :: 0 <= i < lo ==> IsWhite(ws, s[i])
    ensures forall i :: lo + |Trim(ws, s)| <= i < |s| ==> IsWhite(ws, s[i])
  {
    lo := SkipSpaces(ws, s, 0);
  }

  /** A string whose ends are not whitespace is its own trim. */
  lemma TrimUnchanged(ws: Whitespace, s: string)
    requires s == [] || (!IsWhite(ws, s[0]) && !IsWhite(ws, s[|s| - 1]))
    ensures Trim(ws, s) == s
  {
  }

  /** `sep.join(parts)` for a one-character separator. */
  function Join(parts: seq<string>, sep: char): (r: string)
    decreases |parts|
  {
    if parts == [] then []
    else if |parts| == 1 then parts[0]
    else parts[0] + [sep] + Join(parts[1..], sep)
  }

  /** `s.split(sep)` for a one-character separator: at least one field,
      no field holds the separator, and joining the fields gives back `s`. */
  function Split(s: string, sep: char): (parts: seq<string>)
    ensures |parts| >= 1
    ensures forall i :: 0 <= i < |parts| ==> sep !in parts[i]
    ensures Join(parts, sep) == s
    decreases |s|
  {
    if s == [] then [[]]
    else
      var rest := Split(s[1..], sep);
      if s[0] == sep then
        assert [s[0]] + s[1..] == s;
        [[]] + rest
      else
        assert |rest| == 1 ==> [s[0]] + rest[0] == s;
        assert |rest| > 1 ==> Join(rest, sep) == rest[0] + [sep] + Join(rest[1..], sep);
        assert |rest| > 1 ==> s == [s[0]] + rest[0] + [sep] + Join(rest[1..], sep);
        [[s[0]] + rest[0]] + rest[1..]
  }

  lemma {:induction false} SplitNoSeparator(s: string, sep: char)
    requires sep !in s
    ensures Split(s, sep) == [s]
    decreases |s|
  {
    if s != [] {
      SplitNoSeparator(s[1..], sep);
      assert [s[0]] + s[1..] == s;
    }
  }

  lemma {:induction false} SplitFieldThenRest(p: string, sep: char, t: string)
    requires sep !in p
    ensures Split(p + [sep] + t, sep) == [p] + Split(t, sep)
    decreases |p|
  {
    if p == [] {
      assert p + [sep] + t == [sep] + t;
      assert (p + [sep] + t)[1..] == t;
    } else {
      SplitFieldThenRest(p[1..], sep, t);
      assert (p + [sep] + t)[1..] == p[1..] + [sep] + t;
      assert [p[0]] + p[1..] == p;
    }
  }

  /** `s.split(sep)` undoes `sep.join(parts)` when no part holds `sep`. */
  lemma {:induction false} SplitJoin(parts: seq<string>, sep: char)
    requires |parts| >= 1
    requires forall i :: 0 <= i < |parts| ==> sep !in parts[i]
    ensures Split(Join(parts, sep), sep) == parts
    decreases |parts|
  {
    if |parts| == 1 {
      SplitNoSeparator(parts[0], sep);
    } else {
      SplitJoin(parts[1..], sep);
      SplitFieldThenRest(parts[0], sep, Join(parts[1..], sep));
      assert [parts[0]] + parts[1..] == parts;
    }
  }

  predicate IsDigit(c: char) {
    '0' <= c <= '9'
  }

  predicate AllDigits(s: string) {
    forall i :: 0 <= i < |s| ==> IsDigit(s[i])
  }

  function DigitValue(c: char): (d: nat)
    requires IsDigit(c)
    ensures d < 10
  {
    (c as int - '0' as int) as nat
  }

  function DigitChar(d: nat): (c: char)
    requires d < 10
    ensures IsDigit(c) && DigitValue(c) == d
  {
    ('0' as int + d) as char
  }

  /** The value of a string of decimal digits, most significant first. */
  function DigitsValue(s: string): nat
    requires AllDigits(s)
    decreases |s|
  {
    if s == [] then 0 else DigitsValue(s[..|s| - 1]) * 10 + DigitValue(s[|s| - 1])
  }

  /** `int(s)` for a string: surrounding whitespace (of the kind `int()`
      skips), an optional sign and at least one ASCII digit; anything else
      raises (here: `None`). */
  function ParseInt(s: string): (r: Option<int>) {
    var t := Trim(IntSpace, s);
    if |t| >= 2 && (t[0] == '+' || t[0] == '-') && AllDigits(t[1..]) then
      var v: int := DigitsValue(t[1..]);
      Some(if t[0] == '-' then -v else v)
    else if |t| >= 1 && AllDigits(t) then
      Some(DigitsValue(t))
    else
      None
  }

  /** `int("\x1c5")` raises: U+001C is whitespace to `strip()` but not to
      `int()`. */
  lemma IntRejectsSeparator()
    ensures ParseInt("\U{1C}5") == None
  {
    var port := "\U{1C}5";
    TrimUnchanged(IntSpace, port);
    assert !IsDigit(port[0]);
  }

  /** A string `int()` accepts holds nothing but whitespace other than
      U+001C..U+001F, digits and sign characters. */
  lemma ParseIntCharacters(s: string, i: nat)
    requires ParseInt(s).Some? && i < |s|
    ensures IsWhite(IntSpace, s[i]) || IsDigit(s[i]) || s[i] == '+' || s[i] == '-'
  {
    var t := Trim(IntSpace, s);
    var lo := TrimSlice(IntSpace, s);
    if lo <= i < lo + |t| {
      assert s[i] == t[i - lo];
      if i > lo {
        assert t[1..][i - lo - 1] == s[i];
      }
    }
  }

  /** `str(n)` for a natural number: the shortest decimal digit string
      whose value is `n`. */
  function NatToString(n: nat): (r: string)
    ensures |r| >= 1 && AllDigits(r) && DigitsValue(r) == n
    ensures r[0] == '0' ==> r == "0"
  {
    if n < 10 then [DigitChar(n)]
    else
      var r := NatToString(n / 10) + [DigitChar(n % 10)];
      assert r[..|r| - 1] == NatToString(n / 10);
      r
  }

  /** `str(n)` for an integer: a minus sign before the digits of `-n` when
      `n` is negative. */
  function IntToString(n: int): (r: string)
    ensures |r| >= 1 && ':' !in r && ',' !in r
    ensures !IsSpace(r[0]) && !IsSpace(r[|r| - 1])
  {
    if n < 0 then "-" + NatToString(-n) else NatToString(n)
  }

  /** `int(str(n)) == n`. */
  lemma ParseIntRoundTrip(n: int)
    ensures ParseInt(IntToString(n)) == Some(n)
  {
    var s := IntToString(n);
    TrimUnchanged(IntSpace, s);
    if n < 0 {
      assert s[1..] == NatToString(-n);
    }
  }
}
