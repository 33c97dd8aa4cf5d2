/** The handful of Python string built-ins the validators rely on, restricted
    to ASCII: `str.isdigit`, `int`, `str(n)`, `str.lower`, `str.strip`,
    `str.split`, `str.join`, the `in` substring test and `repr` of a list of
    strings. */
module PyText {
  import opened Wrappers

  predicate IsAsciiDigit(c: char) {
    '0' <= c <= '9'
  }

  predicate AllDigits(s: string) {
    forall i :: 0 <= i < |s| ==> IsAsciiDigit(s[i])
  }

  /** `s.isdigit()`: non-empty and made of digits only. */
  predicate IsDigits(s: string) {
    |s| > 0 && AllDigits(s)
  }

  /** The number a digit string denotes, most significant digit first. */
  function DigitsValue(s: string): nat
    requires AllDigits(s)
    decreases |s|
  {
    if |s| == 0 then 0
    else DigitsValue(s[..|s| - 1]) * 10 + ((s[|s| - 1] as int) - ('0' as int))
  }

  /** `int(s)`: an optional sign followed by at least one digit; `None`
      stands for the `ValueError` Python raises otherwise. */
  function ParseInt(s: string): (r: Option<int>)
    ensures r.Some? <==> IsDigits(s) || (|s| >= 2 && (s[0] == '+' || s[0] == '-') && IsDigits(s[1..]))
    ensures IsDigits(s) ==> r == Some(DigitsValue(s))
    ensures r.Some? && r.value < 0 ==> s[0] == '-'
  {
    if IsDigits(s) then Some(DigitsValue(s))
    else if |s| >= 2 && s[0] == '-' && IsDigits(s[1..]) then Some(-(DigitsValue(s[1..]) as int))
    else if |s| >= 2 && s[0] == '+' && IsDigits(s[1..]) then Some(DigitsValue(s[1..]))
    else None
  }

  function DigitChar(d: nat): (c: char)
    requires d < 10
    ensures IsAsciiDigit(c)
  {
    (('0' as int) + d) as char
  }

  /** `str(n)` for a natural number. */
  function NatToString(n: nat): (s: string)
    ensures IsDigits(s)
    decreases n
  {
    if n < 10 then [DigitChar(n)] else NatToString(n / 10) + [DigitChar(n % 10)]
  }

  lemma {:induction false} DigitsValueOfNatToString(n: nat)
    ensures DigitsValue(NatToString(n)) == n
    decreases n
  {
    if n >= 10 {
      var s := NatToString(n / 10);
      DigitsValueOfNatToString(n / 10);
      assert (s + [DigitChar(n % 10)])[..|s|] == s;
    }
  }

  /** `int(str(n)) == n`: decimal rendering and parsing are inverse. */
  lemma ParseNatToString(n: nat)
    ensures ParseInt(NatToString(n)) == Some(n)
  {
    DigitsValueOfNatToString(n);
  }

  lemma NatToStringInjective(m: nat, n: nat)
    requires NatToString(m) == NatToString(n)
    ensures m == n
  {
    ParseNatToString(m);
    ParseNatToString(n);
  }

  function LowerChar(c: char): char {
    if 'A' <= c <= 'Z' then ((c as int) + 32) as char else c
  }

  /** `s.lower()` on ASCII letters. */
  function Lower(s: string): (r: string)
    ensures |r| == |s|
    ensures forall i :: 0 <= i < |s| ==> r[i] == LowerChar(s[i])
  {
    seq(|s|, i requires 0 <= i < |s| => LowerChar(s[i]))
  }

  /** `sub in s`: `sub` occurs as a contiguous part of `s`. */
  predicate Contains(s: string, sub: string)
    decreases |s|
  {
    sub <= s || (|s| > 0 && Contains(s[1..], sub))
  }

  lemma {:induction false} ContainsNeedsRoom(s: string, sub: string)
    requires |sub| > |s|
    ensures !Contains(s, sub)
    decreases |s|
  {
    if |s| > 0 {
      ContainsNeedsRoom(s[1..], sub);
    }
  }

  lemma {:induction false} ContainsInfix(a: string, sub: string, b: string)
    ensures Contains(a + sub + b, sub)
    decreases |a|
  {
    if |a| == 0 {
      assert a + sub + b == sub + b;
      assert sub <= sub + b;
    } else {
      assert (a + sub + b)[1..] == a[1..] + sub + b;
      ContainsInfix(a[1..], sub, b);
    }
  }

  /** Whatever a prefix contains, the whole text contains. */
  lemma {:induction false} ContainsInPrefix(prefix: string, s: string, sub: string)
    requires prefix <= s && Contains(prefix, sub)
    ensures Contains(s, sub)
    decreases |prefix|
  {
    if !(sub <= prefix) {
      assert prefix[1..] <= s[1..];
      ContainsInPrefix(prefix[1..], s[1..], sub);
    }
  }

  /** An occurrence of an occurrence is an occurrence. */
  lemma {:induction false} ContainsTransitive(s: string, mid: string, sub: string)
    requires Contains(s, mid) && Contains(mid, sub)
    ensures Contains(s, sub)
    decreases |s|
  {
    if mid <= s {
      ContainsInPrefix(mid, s, sub);
    } else {
      ContainsTransitive(s[1..], mid, sub);
    }
  }

  /** `sep.join(xs)`. */
  function Join(sep: string, xs: seq<string>): string
    decreases |xs|
  {
    if |xs| == 0 then ""
    else if |xs| == 1 then xs[0]
    else xs[0] + sep + Join(sep, xs[1..])
  }

  function IndexOf(s: string, c: char): (i: nat)
    requires c in s
    ensures i < |s| && s[i] == c && c !in s[..i]
    decreases |s|
  {
    if s[0] == c then 0 else 1 + IndexOf(s[1..], c)
  }

  /** `s.split(sep)` with a one-character separator: the pieces between
      consecutive separators, always at least one (possibly empty) piece. */
  function Split(s: string, sep: char): (parts: seq<string>)
    ensures |parts| >= 1
    ensures forall k :: 0 <= k < |parts| ==> sep !in parts[k]
    decreases |s|
  {
    if sep !in s then [s]
    else
      var i := IndexOf(s, sep);
      [s[..i]] + Split(s[i + 1..], sep)
  }

  /** Joining the pieces of a split with the separator gives the text back. */
  lemma {:induction false} JoinSplit(s: string, sep: char)
    ensures Join([sep], Split(s, sep)) == s
    decreases |s|
  {
    if sep in s {
      var i := IndexOf(s, sep);
      var rest := Split(s[i + 1..], sep);
      JoinSplit(s[i + 1..], sep);
      assert ([s[..i]] + rest)[1..] == rest;
      assert s[..i] + [sep] + s[i + 1..] == s;
    }
  }

  /** Python's `str.isspace` on the ASCII range. */
  predicate IsSpace(c: char) {
    c == ' ' || (9 <= c as int <= 13) || (28 <= c as int <= 31)
  }

  function LeadingSpaces(s: string): (n: nat)
    ensures n <= |s|
    ensures forall k :: 0 <= k < n ==> IsSpace(s[k])
    ensures n < |s| ==> !IsSpace(s[n])
    decreases |s|
  {
    if |s| == 0 || !IsSpace(s[0]) then 0 else 1 + LeadingSpaces(s[1..])
  }

  function TrailingStart(s: string): (n: nat)
    ensures n <= |s|
    ensures forall k :: n <= k < |s| ==> IsSpace(s[k])
    ensures n > 0 ==> !IsSpace(s[n - 1])
    decreases |s|
  {
    if |s| == 0 || !IsSpace(s[|s| - 1]) then |s| else TrailingStart(s[..|s| - 1])
  }

  /** `s.strip()`: `s` without its leading and trailing white space. */
  function Strip(s: string): (r: string)
    ensures |r| <= |s|
    ensures |r| > 0 ==> !IsSpace(r[0]) && !IsSpace(r[|r| - 1])
    ensures r == "" <==> forall k :: 0 <= k < |s| ==> IsSpace(s[k])
  {
    var i := LeadingSpaces(s);
    var t := s[i..];
    var j := TrailingStart(t);
    assert j > 0 ==> !IsSpace(s[i]);
    t[..j]
  }

  // ---- `repr` of strings ----

  /** The quote `repr` puts around a string: a single quote, unless the
      text holds a single quote and no double quote. */
  function ReprQuote(s: string): char {
    if '\'' in s && '"' !in s then '"' else '\''
  }

  function HexDigit(d: nat): (c: char)
    requires d < 16
  {
    if d < 10 then DigitChar(d) else (('a' as int) + d - 10) as char
  }

  predicate IsHexDigit(c: char) {
    IsAsciiDigit(c) || 'a' <= c <= 'f'
  }

  function HexValue(c: char): (d: nat)
    requires IsHexDigit(c)
    ensures d < 16
  {
    if IsAsciiDigit(c) then (c as int) - ('0' as int) else (c as int) - ('a' as int) + 10
  }

  lemma HexDigitValue(d: nat)
    requires d < 16
    ensures IsHexDigit(HexDigit(d)) && HexValue(HexDigit(d)) == d
  {
  }

  /** The characters `repr` writes as `\xhh`: the ASCII control
      characters other than tab, newline and carriage return. */
  predicate IsHexEscaped(c: char) {
    (c < ' ' || c as int == 0x7F) && c != '\t' && c != '\n' && c != '\r'
  }

  /** How `repr` writes one character inside quotes `quote`: the quote and
      the backslash are escaped, tab, newline and carriage return by name,
      other control characters in hexadecimal. */
  function EscapeChar(c: char, quote: char): (t: string)
    ensures |t| > 0
  {
    if c == quote || c == '\\' then ['\\', c]
    else if c == '\t' then "\\t"
    else if c == '\n' then "\\n"
    else if c == '\r' then "\\r"
    else if IsHexEscaped(c) then ['\\', 'x', HexDigit(c as int / 16), HexDigit(c as int % 16)]
    else [c]
  }

  function Escape(s: string, quote: char): string
    decreases |s|
  {
    if |s| == 0 then [] else EscapeChar(s[0], quote) + Escape(s[1..], quote)
  }

  /** `repr(s)` for a string. */
  function ReprString(s: string): (r: string)
    ensures |r| >= 2 && r[0] == ReprQuote(s) && r[|r| - 1] == ReprQuote(s)
  {
    [ReprQuote(s)] + Escape(s, ReprQuote(s)) + [ReprQuote(s)]
  }

  /** Reading the inside of a string literal back: the inverse of
      `Escape`. `None` is a malformed escape. */
  function Unescape(t: string): Option<string>
    decreases |t|
  {
    if |t| == 0 then Some([])
    else if t[0] != '\\' then
      match Unescape(t[1..])
      case Some(rest) => Some([t[0]] + rest)
      case None => None
    else if |t| < 2 then None
    else
      var named :=
        if t[1] == 't' then Some('\t') else if t[1] == 'n' then Some('\n') else if t[1] == 'r' then Some('\r')
        else if t[1] == '\\' || t[1] == '\'' || t[1] == '"' then Some(t[1])
        else None;
      if named.Some? then
        match Unescape(t[2..])
        case Some(rest) => Some([named.value] + rest)
        case None => None
      else if t[1] == 'x' && |t| >= 4 && IsHexDigit(t[2]) && IsHexDigit(t[3]) then
        match Unescape(t[4..])
        case Some(rest) => Some([(HexValue(t[2]) * 16 + HexValue(t[3])) as char] + rest)
        case None => None
      else None
  }

  /** One escaped character is read back as itself. */
  lemma UnescapeChar(c: char, quote: char, rest: string)
    requires quote == '\'' || quote == '"'
    ensures Unescape(EscapeChar(c, quote) + rest) ==
              match Unescape(rest) case Some(r) => Some([c] + r) case None => None
  {
    var t := EscapeChar(c, quote) + rest;
    if c == quote || c == '\\' || c == '\t' || c == '\n' || c == '\r' {
      assert t[2..] == rest;
    } else if IsHexEscaped(c) {
      HexDigitValue(c as int / 16);
      HexDigitValue(c as int % 16);
      assert t[4..] == rest;
      assert (HexValue(t[2]) * 16 + HexValue(t[3])) as char == c;
    } else {
      assert t[1..] == rest;
    }
  }

  /** `repr` loses nothing: the text between the quotes reads back as the
      original string. */
  lemma {:induction false} UnescapeEscape(s: string, quote: char)
    requires quote == '\'' || quote == '"'
    ensures Unescape(Escape(s, quote)) == Some(s)
    decreases |s|
  {
    if |s| > 0 {
      UnescapeEscape(s[1..], quote);
      UnescapeChar(s[0], quote, Escape(s[1..], quote));
      assert [s[0]] + s[1..] == s;
    }
  }

  /** Two strings with the same `repr` are equal. */
  lemma ReprStringInjective(s: string, t: string)
    requires ReprString(s) == ReprString(t)
    ensures s == t
  {
    var r := ReprString(s);
    assert ReprQuote(s) == r[0] == ReprQuote(t);
    var q := ReprQuote(s);
    assert Escape(s, q) == r[1..|r| - 1] == Escape(t, q);
    UnescapeEscape(s, q);
    UnescapeEscape(t, q);
  }

  /** A character `repr` writes as itself. */
  predicate IsPlainChar(c: char) {
    c != '\'' && c != '"' && c != '\\' && !(c < ' ') && c as int != 0x7F
  }

  /** Text without quotes, backslashes or control characters is written
      as it is, between single quotes. */
  lemma {:induction false} PlainRepr(s: string)
    requires forall k :: 0 <= k < |s| ==> IsPlainChar(s[k])
    ensures ReprString(s) == "'" + s + "'"
  {
    PlainEscape(s, '\'');
  }

  /** A character written as itself inside quotes `quote`. */
  predicate IsPlainFor(c: char, quote: char) {
    c != quote && c != '\\' && !(c < ' ') && c as int != 0x7F
  }

  lemma {:induction false} PlainEscape(s: string, quote: char)
    requires quote == '\'' || quote == '"'
    requires forall k :: 0 <= k < |s| ==> IsPlainFor(s[k], quote)
    ensures Escape(s, quote) == s
    decreases |s|
  {
    if |s| > 0 {
      PlainEscape(s[1..], quote);
      assert [s[0]] + s[1..] == s;
    }
  }

  /** Text holding a single quote, and otherwise no double quote, backslash
      or control character, is written as it is, between double quotes:
      `repr("O'Brien")` is `"O'Brien"`. */
  lemma DoubleQuotedRepr(s: string)
    requires '\'' in s
    requires forall k :: 0 <= k < |s| ==> IsPlainFor(s[k], '"')
    ensures ReprString(s) == "\"" + s + "\""
  {
    assert '"' !in s;
    PlainEscape(s, '"');
  }

  /** `repr(row)` for a list of strings, as an f-string writes it. */
  function ReprRow(row: seq<string>): string {
    "[" + Join(", ", seq(|row|, k requires 0 <= k < |row| => ReprString(row[k]))) + "]"
  }
}
