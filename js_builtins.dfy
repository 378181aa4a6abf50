/** The JavaScript built-ins the cleaning pipeline leans on, as Dafny functions:
    String.prototype.trim and trimStart, String.prototype.split with a string
    separator, Array.prototype.join, and the global parseInt of ECMA-262,
    section 19.2.5. JavaScript strings are modelled as `seq<char>`, a missing
    number (NaN) as `None`. */
module JsBuiltins {

  datatype Option<+T> = None | Some(value: T)

  /** The WhiteSpace and LineTerminator code points of ECMA-262 (sections 12.2
      and 12.3): what trim and parseInt strip. The space separators are the
      Unicode category Zs. */
  predicate IsJsWhitespace(c: char) {
    || c == '\t' || c == '\U{000B}' || c == '\U{000C}' || c == '\U{FEFF}'
    || c == '\n' || c == '\r' || c == '\U{2028}' || c == '\U{2029}'
    || c == ' ' || c == '\U{00A0}' || c == '\U{1680}' || ('\U{2000}' <= c <= '\U{200A}')
    || c == '\U{202F}' || c == '\U{205F}' || c == '\U{3000}'
  }

  predicate AllWhitespace(s: string) {
    forall i :: 0 <= i < |s| ==> IsJsWhitespace(s[i])
  }

  /** A string with nothing to trim at either end. */
  predicate IsTrimmed(s: string) {
    s == [] || (!IsJsWhitespace(s[0]) && !IsJsWhitespace(s[|s| - 1]))
  }

  /** String.prototype.trimStart: the suffix left after the leading white space. */
  function TrimStart(s: string): (r: string)
    ensures |r| <= |s| && r == s[|s| - |r|..]
    ensures AllWhitespace(s[..|s| - |r|])
    ensures r == [] || !IsJsWhitespace(r[0])
  {
    if s != [] && IsJsWhitespace(s[0]) then TrimStart(s[1..]) else s
  }

  /** String.prototype.trimEnd: the prefix left before the trailing white space. */
  function TrimEnd(s: string): (r: string)
    ensures |r| <= |s| && r == s[..|r|]
    ensures AllWhitespace(s[|r|..])
    ensures r == [] || !IsJsWhitespace(r[|r| - 1])
  {
    if s != [] && IsJsWhitespace(s[|s| - 1]) then TrimEnd(s[..|s| - 1]) else s
  }

  /** String.prototype.trim. */
  function Trim(s: string): (r: string)
    ensures |r| <= |s|
    ensures IsTrimmed(r)
  {
    TrimEnd(TrimStart(s))
  }

  lemma {:induction false} TrimStartOf(a: string, m: string)
    requires AllWhitespace(a)
    requires m == [] || !IsJsWhitespace(m[0])
    ensures TrimStart(a + m) == m
    decreases |a|
  {
    if a != [] {
      assert (a + m)[1..] == a[1..] + m;
      TrimStartOf(a[1..], m);
    } else {
      assert a + m == m;
    }
  }

  lemma {:induction false} TrimEndOf(m: string, b: string)
    requires AllWhitespace(b)
    requires m == [] || !IsJsWhitespace(m[|m| - 1])
    ensures TrimEnd(m + b) == m
    decreases |b|
  {
    if b != [] {
      assert (m + b)[..|m + b| - 1] == m + b[..|b| - 1];
      TrimEndOf(m, b[..|b| - 1]);
    } else {
      assert m + b == m;
    }
  }

  /** Trim is characterised by what it removes: white space only, at the two
      ends only, and up to the first and last character that is not. */
  lemma TrimCharacterisation(a: string, m: string, b: string)
    requires AllWhitespace(a) && AllWhitespace(b) && IsTrimmed(m)
    ensures Trim(a + m + b) == m
  {
    if m == [] {
      assert a + m + b == a + b;
      assert AllWhitespace(a + b);
      TrimStartOf(a + b, []);
      assert a + b + [] == a + b;
      TrimEndOf([], []);
    } else {
      assert a + m + b == a + (m + b);
      TrimStartOf(a, m + b);
      TrimEndOf(m, b);
    }
  }

  /** Trimming twice is trimming once. */
  lemma TrimIdempotent(s: string)
    ensures Trim(Trim(s)) == Trim(s)
  {
    var t := Trim(s);
    assert [] + t + [] == t;
    TrimCharacterisation([], t, []);
  }

  /** `sep` occurs in `s` starting at index `i`. */
  predicate OccursAt(s: string, sep: string, i: nat) {
    i + |sep| <= |s| && s[i..i + |sep|] == sep
  }

  predicate Contains(s: string, sep: string) {
    exists i: nat | i <= |s| :: OccursAt(s, sep, i)
  }

  /** String.prototype.indexOf(sep, from): the first occurrence at or after `from`. */
  function IndexOf(s: string, sep: string, from: nat): (r: Option<nat>)
    requires from <= |s|
    ensures r.Some? ==> from <= r.value && OccursAt(s, sep, r.value)
    ensures r.Some? ==> forall k :: from <= k < r.value ==> !OccursAt(s, sep, k)
    ensures r.None? ==> forall k :: from <= k ==> !OccursAt(s, sep, k)
    decreases |s| - from
  {
    if OccursAt(s, sep, from) then Some(from)
    else if from == |s| then None
    else IndexOf(s, sep, from + 1)
  }

  /** Array.prototype.join: the pieces with `sep` between neighbours. */
  function Join(pieces: seq<string>, sep: string): string
  {
    if |pieces| == 0 then ""
    else if |pieces| == 1 then pieces[0]
    else pieces[0] + sep + Join(pieces[1..], sep)
  }

  /** String.prototype.split with a non-empty string separator: the text
      between consecutive leftmost occurrences of `sep`. Joining the pieces
      back with `sep` gives the input again, so there is one more piece than
      separators consumed. */
  function Split(s: string, sep: string): (r: seq<string>)
    requires sep != []
    ensures |r| >= 1
    ensures Join(r, sep) == s
    ensures forall k :: 0 <= k < |r| ==> !Contains(r[k], sep)
    decreases |s|
  {
    match IndexOf(s, sep, 0)
    case None =>
      assert !Contains(s, sep);
      [s]
    case Some(i) =>
      var head := s[..i];
      var rest := Split(s[i + |sep|..], sep);
      assert !Contains(head, sep) by {
        forall k: nat | OccursAt(head, sep, k) ensures false {
          assert s[k..k + |sep|] == head[k..k + |sep|];
          assert OccursAt(s, sep, k);
        }
      }
      assert s == head + sep + s[i + |sep|..];
      [head] + rest
  }

  /** `p` is the text of `s` before the first occurrence of `sep`, or all of
      `s` when there is none. */
  predicate IsFirstPiece(p: string, s: string, sep: string)
  {
    && p <= s
    && !Contains(p, sep)
    && (if Contains(s, sep) then OccursAt(s, sep, |p|) else p == s)
  }

  /** The first piece of a split (`s.split(sep)[0]`) is the text before the
      first occurrence of `sep`, or all of `s` when there is none. */
  lemma SplitHead(s: string, sep: string)
    requires sep != []
    ensures IsFirstPiece(Split(s, sep)[0], s, sep)
  {
    var r := Split(s, sep);
    match IndexOf(s, sep, 0)
    case None =>
    case Some(i) =>
      assert OccursAt(s, sep, i);
  }

  /** For a two-character separator whose characters differ, such as ", "
      or "; ", the first piece is determined by the string. */
  lemma FirstPieceUnique(p: string, q: string, s: string, sep: string)
    requires |sep| == 2 && sep[0] != sep[1]
    requires IsFirstPiece(p, s, sep) && IsFirstPiece(q, s, sep)
    ensures p == q
  {
    if Contains(s, sep) {
      if |p| < |q| {
        EarlierOccurrence(p, q, s, sep);
        assert false;
      } else if |q| < |p| {
        EarlierOccurrence(q, p, s, sep);
        assert false;
      }
    }
  }

  /** When `sep` (two different characters) occurs where a prefix `p` of `s`
      ends, a longer prefix `q` either contains it or is not followed by it. */
  lemma EarlierOccurrence(p: string, q: string, s: string, sep: string)
    requires |sep| == 2 && sep[0] != sep[1]
    requires p <= s && q <= s && |p| < |q|
    requires OccursAt(s, sep, |p|)
    ensures Contains(q, sep) || !OccursAt(s, sep, |q|)
  {
    var i := |p|;
    if i + 2 <= |q| {
      assert q[i..i + 2] == s[i..i + 2];
      assert OccursAt(q, sep, i);
    }
  }

  /** A piece of a string that has no `sep` in it has none either. */
  lemma InfixOmits(s: string, sep: string, lo: nat, hi: nat)
    requires lo <= hi <= |s|
    requires !Contains(s, sep)
    ensures !Contains(s[lo..hi], sep)
  {
    forall k: nat | OccursAt(s[lo..hi], sep, k) ensures false {
      assert k + |sep| <= hi - lo;
      forall j | 0 <= j < |sep| ensures s[lo + k + j] == sep[j] {
        assert s[lo..hi][k..k + |sep|][j] == sep[j];
      }
      assert s[lo + k..lo + k + |sep|] == sep;
      assert OccursAt(s, sep, lo + k);
    }
  }

  /** The value of a letter or digit as a digit of radix up to 36;
      36 for every other character (a digit of no radix). */
  function DigitValue(c: char): (d: nat)
    ensures d <= 36
  {
    if '0' <= c <= '9' then c as int - '0' as int
    else if 'a' <= c <= 'z' then c as int - 'a' as int + 10
    else if 'A' <= c <= 'Z' then c as int - 'A' as int + 10
    else 36
  }

  /** The length of the longest prefix of `s` made of radix-`radix` digits. */
  function DigitPrefixLength(s: string, radix: nat): (n: nat)
    ensures n <= |s|
    ensures forall k :: 0 <= k < n ==> DigitValue(s[k]) < radix
    ensures n == |s| || DigitValue(s[n]) >= radix
  {
    if s != [] && DigitValue(s[0]) < radix then 1 + DigitPrefixLength(s[1..], radix) else 0
  }

  /** The number the digits `ds` denote in radix `radix`, most significant first. */
  function DigitsValue(ds: string, radix: nat): nat
  {
    if ds == [] then 0
    else DigitsValue(ds[..|ds| - 1], radix) * radix + DigitValue(ds[|ds| - 1])
  }

  /** The global parseInt(string) with no radix argument (ECMA-262, section
      19.2.5): skip leading white space, take an optional sign, switch to
      radix 16 after a "0x" or "0X" prefix, and read the longest run of
      digits; None (NaN) when that run is empty. */
  function ParseInt(s: string): Option<int>
  {
    var t := TrimStart(s);
    var negative := t != [] && t[0] == '-';
    var u := if t != [] && (t[0] == '+' || t[0] == '-') then t[1..] else t;
    match ParseMagnitude(u)
    case None => None
    case Some(m) => Some(Signed(negative, m))
  }

  function Signed(negative: bool, m: nat): int {
    if negative then 0 - m as int else m
  }

  /** Steps 6 to 10 of parseInt, after the sign: the radix prefix and the
      value of the digit run, None when the run is empty. */
  function ParseMagnitude(u: string): Option<nat>
  {
    var hex := |u| >= 2 && u[0] == '0' && (u[1] == 'x' || u[1] == 'X');
    var radix := if hex then 16 else 10;
    var v := if hex then u[2..] else u;
    var n := DigitPrefixLength(v, radix);
    if n == 0 then None else Some(DigitsValue(v[..n], radix))
  }

  /** The decimal numeral of a natural number, most significant digit first. */
  function DecimalDigits(n: nat): (r: string)
    ensures r != [] && forall k :: 0 <= k < |r| ==> DigitValue(r[k]) < 10
    ensures r[0] == '0' ==> n == 0
  {
    if n < 10 then ['0' + n as char]
    else DecimalDigits(n / 10) + ['0' + (n % 10) as char]
  }

  /** Number.prototype.toString for an integer: the decimal numeral, with a
      leading '-' when negative. */
  function ToDecimal(n: int): string
  {
    if n < 0 then "-" + DecimalDigits(-n) else DecimalDigits(n)
  }

  lemma {:induction false} DecimalDigitsValue(n: nat)
    ensures DigitsValue(DecimalDigits(n), 10) == n
  {
    var ds := DecimalDigits(n);
    if n >= 10 {
      DecimalDigitsValue(n / 10);
      assert ds[..|ds| - 1] == DecimalDigits(n / 10);
    }
  }

  lemma {:induction false} DigitPrefixOf(ds: string, rest: string, radix: nat)
    requires forall k :: 0 <= k < |ds| ==> DigitValue(ds[k]) < radix
    requires rest == [] || DigitValue(rest[0]) >= radix
    ensures DigitPrefixLength(ds + rest, radix) == |ds|
    decreases |ds|
  {
    if ds == [] {
      assert ds + rest == rest;
    } else {
      assert (ds + rest)[1..] == ds[1..] + rest;
      DigitPrefixOf(ds[1..], rest, radix);
    }
  }

  /** The unsigned part of a decimal numeral followed by text that cannot
      continue it: no hexadecimal prefix, and its digit run is the numeral. */
  lemma {:induction false} UnsignedNumeral(m: nat, rest: string)
    requires rest == [] || (DigitValue(rest[0]) >= 10 && rest[0] != 'x' && rest[0] != 'X')
    ensures ParseMagnitude(DecimalDigits(m) + rest) == Some(m)
  {
    var ds := DecimalDigits(m);
    var u := ds + rest;
    DecimalDigitsValue(m);
    DigitPrefixOf(ds, rest, 10);
    assert u[..|ds|] == ds;
    if |u| >= 2 && u[0] == '0' {
      assert m == 0 && |ds| == 1;
      assert u[1] == rest[0];
    }
  }

  /** parseInt reads back the numeral of any integer, and stops at the first
      character that cannot continue it: trailing text that does not start
      with a digit (or with the 'x' of a hexadecimal prefix) is ignored. */
  lemma {:induction false} ParseIntOfDecimal(n: int, rest: string)
    requires rest == [] || (DigitValue(rest[0]) >= 10 && rest[0] != 'x' && rest[0] != 'X')
    ensures ParseInt(ToDecimal(n) + rest) == Some(n)
  {
    if n < 0 {
      ParseIntOfNegative(n, rest);
    } else {
      ParseIntOfNonNegative(n, rest);
    }
  }

  lemma {:induction false} ParseIntOfNegative(n: int, rest: string)
    requires n < 0
    requires rest == [] || (DigitValue(rest[0]) >= 10 && rest[0] != 'x' && rest[0] != 'X')
    ensures ParseInt(ToDecimal(n) + rest) == Some(n)
  {
    var m: nat := -n;
    var u := DecimalDigits(m) + rest;
    calc {
      ParseInt(ToDecimal(n) + rest);
      { assert ToDecimal(n) + rest == ['-'] + u; }
      ParseInt(['-'] + u);
      { ParseIntAfterSign('-', u); UnsignedNumeral(m, rest); }
      Some(Signed(true, m));
      Some(n);
    }
  }

  lemma {:induction false} ParseIntOfNonNegative(n: nat, rest: string)
    requires rest == [] || (DigitValue(rest[0]) >= 10 && rest[0] != 'x' && rest[0] != 'X')
    ensures ParseInt(ToDecimal(n) + rest) == Some(n)
  {
    var ds := DecimalDigits(n);
    var u := ds + rest;
    UnsignedNumeral(n, rest);
    assert ToDecimal(n) + rest == u;
    assert u[0] == ds[0];
    ParseIntUnsigned(u);
  }

  lemma ParseIntAfterSign(c: char, u: string)
    requires c == '-' || c == '+'
    ensures ParseInt([c] + u) == match ParseMagnitude(u)
      case None => None
      case Some(m) => Some(Signed(c == '-', m))
  {
    var s := [c] + u;
    assert !IsJsWhitespace(s[0]);
    TrimStartOf([], s);
    assert [] + s == s;
    assert s[1..] == u;
  }

  lemma ParseIntUnsigned(u: string)
    requires u != [] && DigitValue(u[0]) < 10
    ensures ParseInt(u) == match ParseMagnitude(u)
      case None => None
      case Some(m) => Some(m as int)
  {
    assert '0' <= u[0] <= '9';
    assert TrimStart(u) == u by {
      TrimStartOf([], u);
      assert [] + u == u;
    }
  }

  /** A missing stat reads as NaN, never as 0: parseInt of text with no digit
      where one is expected is None. */
  lemma ParseIntOfNonNumeric(s: string)
    requires s == [] || (DigitValue(s[0]) >= 10 && !IsJsWhitespace(s[0]) && s[0] != '+' && s[0] != '-')
    ensures ParseInt(s) == None
  {
    assert TrimStart(s) == s by {
      TrimStartOf([], s);
      assert [] + s == s;
    }
    assert ParseMagnitude(s) == None by {
      assert s != [] ==> s[0] != '0';
    }
  }
}
