/**
 * Character classes and the small string operations the scripts use:
 * digit runs and `int(...)`, `str(...)` of a chunk id, `str.strip()`,
 * `str.lstrip("/")`, `startswith` and `endswith`.
 */
module Text {

  /** The character classes that occur in the scripts' regular expressions. */
  datatype CharClass =
    | Digit            // `\d` (ASCII digits only)
    | Space            // `\s` and what `str.strip()` removes (ASCII part)
    | LowerHex         // `[0-9a-f]`
    | NotDoubleQuote   // `[^"]`
    | NotQuote         // `[^"']`

  predicate In(c: char, cls: CharClass) {
    match cls
    case Digit => '0' <= c <= '9'
    case Space => 9 <= c as int <= 13 || 28 <= c as int <= 32
    case LowerHex => '0' <= c <= '9' || 'a' <= c <= 'f'
    case NotDoubleQuote => c != '"'
    case NotQuote => c != '"' && c != '\''
  }

  predicate AllIn(s: string, cls: CharClass) {
    forall i :: 0 <= i < |s| ==> In(s[i], cls)
  }

  predicate StartsWith(s: string, prefix: string) {
    |prefix| <= |s| && s[..|prefix|] == prefix
  }

  predicate EndsWith(s: string, suffix: string) {
    |suffix| <= |s| && s[|s| - |suffix|..] == suffix
  }

  /** Length of the longest prefix of `s` whose characters are all in `cls`. */
  function Span(s: string, cls: CharClass): (n: nat)
    ensures n <= |s|
    ensures AllIn(s[..n], cls)
    ensures n == |s| || !In(s[n], cls)
  {
    if s == [] || !In(s[0], cls) then 0
    else
      var n := 1 + Span(s[1..], cls);
      assert s[..n] == [s[0]] + s[1..][..n - 1];
      n
  }

  /** Length of the longest suffix of `s` whose characters are all in `cls`. */
  function RSpan(s: string, cls: CharClass): (n: nat)
    ensures n <= |s|
    ensures AllIn(s[|s| - n..], cls)
    ensures n == |s| || !In(s[|s| - 1 - n], cls)
  {
    if s == [] || !In(s[|s| - 1], cls) then 0
    else
      var init := s[..|s| - 1];
      var n := 1 + RSpan(init, cls);
      assert s[|s| - n..] == init[|init| - (n - 1)..] + [s[|s| - 1]];
      n
  }

  /** Python's `str.strip()`: drops leading and trailing whitespace. */
  function Strip(s: string): (r: string)
    ensures r == [] <==> AllIn(s, Space)
    ensures r != [] ==> !In(r[0], Space) && !In(r[|r| - 1], Space)
    ensures exists i :: 0 <= i <= |s| - |r| && s[i..i + |r|] == r
                        && AllIn(s[..i], Space) && AllIn(s[i + |r|..], Space)
  {
    var a := Span(s, Space);
    var t := s[a..];
    var b := RSpan(t, Space);
    var r := t[..|t| - b];
    StripParts(s, a, t, b, r);
    r
  }

  lemma {:induction false} StripParts(s: string, a: nat, t: string, b: nat, r: string)
    requires a == Span(s, Space) && t == s[a..] && b == RSpan(t, Space) && r == t[..|t| - b]
    ensures r == [] <==> AllIn(s, Space)
    ensures r != [] ==> !In(r[0], Space) && !In(r[|r| - 1], Space)
    ensures s[a..a + |r|] == r && AllIn(s[..a], Space) && AllIn(s[a + |r|..], Space)
  {
    StripPlaced(s, a, t, b, r, |t| - b);
    StripEmpty(s, a, t, b, r);
    if r != [] {
      assert r[0] == t[0] == s[a];
    }
  }

  /** The kept part sits right after the leading whitespace, and only whitespace follows it. */
  lemma {:induction false} StripPlaced(s: string, a: nat, t: string, b: nat, r: string, m: nat)
    requires a <= |s| && t == s[a..] && m + b == |t| && r == t[..m] && AllIn(t[m..], Space)
    ensures s[a..a + |r|] == r && AllIn(s[a + |r|..], Space)
  {
    SliceOfDrop(s, a, m);
  }

  lemma {:induction false} SliceOfDrop(s: string, a: nat, m: nat)
    requires a + m <= |s|
    ensures s[a..][..m] == s[a..a + m] && s[a..][m..] == s[a + m..]
  {
  }

  lemma {:induction false} StripEmpty(s: string, a: nat, t: string, b: nat, r: string)
    requires a == Span(s, Space) && t == s[a..] && b == RSpan(t, Space) && r == t[..|t| - b]
    ensures r == [] <==> AllIn(s, Space)
  {
    if r == [] {
      assert t == t[|t| - b..];
      assert s == s[..a] + t;
      AllInConcat(s[..a], t, Space);
    } else {
      assert a < |s| && !In(s[a], Space);
    }
  }

  lemma {:induction false} AllInConcat(x: string, y: string, cls: CharClass)
    requires AllIn(x, cls) && AllIn(y, cls)
    ensures AllIn(x + y, cls)
  {
    assert forall i :: 0 <= i < |x + y| ==> (x + y)[i] == if i < |x| then x[i] else y[i - |x|];
  }

  /** Python's `str.lstrip("/")`: drops every leading slash. */
  function LStripSlashes(s: string): (r: string)
    ensures r == [] || r[0] != '/'
  {
    if s != [] && s[0] == '/' then LStripSlashes(s[1..]) else s
  }

  /** What `lstrip("/")` removes is a run of slashes, and what it keeps is the rest of `s`. */
  lemma {:induction false} LStripSlashesRemovesSlashes(s: string)
    ensures var r := LStripSlashes(s);
      && |r| <= |s| && s[|s| - |r|..] == r
      && forall i :: 0 <= i < |s| - |r| ==> s[i] == '/'
  {
    if s != [] && s[0] == '/' {
      LStripSlashesRemovesSlashes(s[1..]);
      var r := LStripSlashes(s);
      assert s[1..][|s| - 1 - |r|..] == s[|s| - |r|..];
    }
  }

  function DigitChar(d: nat): char
    requires d < 10
  {
    ['0', '1', '2', '3', '4', '5', '6', '7', '8', '9'][d]
  }

  /** `str(n)` for a non-negative integer: its decimal digits. */
  function NatToString(n: nat): (r: string)
    ensures r != [] && AllIn(r, Digit)
    ensures r[0] == '0' ==> n == 0 && r == "0"
  {
    if n < 10 then [DigitChar(n)] else NatToString(n / 10) + [DigitChar(n % 10)]
  }

  /** `int(d)` for a run of ASCII digits. */
  function DigitsValue(d: string): nat
    requires AllIn(d, Digit)
  {
    if d == [] then 0
    else DigitsValue(d[..|d| - 1]) * 10 + (d[|d| - 1] as int - '0' as int)
  }

  /** Parsing the decimal form of a number gives the number back. */
  lemma {:induction false} DigitsValueOfNatToString(n: nat)
    ensures DigitsValue(NatToString(n)) == n
  {
    var s := NatToString(n);
    if n >= 10 {
      DigitsValueOfNatToString(n / 10);
      assert s[..|s| - 1] == NatToString(n / 10);
    }
  }

  /** Distinct numbers have distinct decimal forms. */
  lemma {:induction false} NatToStringInjective(m: nat, n: nat)
    requires NatToString(m) == NatToString(n)
    ensures m == n
  {
    DigitsValueOfNatToString(m);
    DigitsValueOfNatToString(n);
  }
}
