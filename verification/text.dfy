/**
  The Python string primitives the protocol engine is built from:
  `str.strip()`, `str.startswith`, `str.split(" ")`, `str(int)` and `int(str)`.
 */
module Text {
  import opened Wrappers

  /** The characters for which Python's `str.isspace()` holds; `str.strip()` and `int()` remove them. */
  predicate IsSpace(c: char) {
    || ('\t' <= c <= '\r')
    || ('\U{1C}' <= c <= ' ')
    || c == '\U{85}' || c == '\U{A0}' || c == '\U{1680}'
    || ('\U{2000}' <= c <= '\U{200A}')
    || c == '\U{2028}' || c == '\U{2029}' || c == '\U{202F}' || c == '\U{205F}' || c == '\U{3000}'
  }

  predicate IsDigit(c: char) {
    '0' <= c <= '9'
  }

  /** Python's `s.strip()`: whitespace is removed from both ends. */
  function Strip(s: string): (r: string)
    ensures |r| <= |s|
    ensures r == [] || (!IsSpace(r[0]) && !IsSpace(r[|r| - 1]))
  {
    if s != [] && IsSpace(s[0]) then Strip(s[1..])
    else if s != [] && IsSpace(s[|s| - 1]) then Strip(s[..|s| - 1])
    else s
  }

  /** The number of whitespace characters `s` starts with. */
  function LeadingSpace(s: string): (n: nat)
    ensures n <= |s|
  {
    if s != [] && IsSpace(s[0]) then 1 + LeadingSpace(s[1..]) else 0
  }

  /** `r` is the piece of `s` at offset `i`, and everything around it is whitespace. */
  predicate InfixAmidSpace(s: string, i: nat, r: string) {
    && i + |r| <= |s|
    && r == s[i..i + |r|]
    && (forall k :: 0 <= k < i ==> IsSpace(s[k]))
    && (forall k :: i + |r| <= k < |s| ==> IsSpace(s[k]))
  }

  /**
    `strip()` keeps one contiguous piece of `s`, starting after the leading
    whitespace, and everything it cuts off the back is whitespace too.
   */
  lemma {:induction false} StripKeepsInfix(s: string)
    ensures InfixAmidSpace(s, LeadingSpace(s), Strip(s))
  {
    if s != [] && IsSpace(s[0]) {
      StripKeepsInfix(s[1..]);
      InfixAfterSpace(s, LeadingSpace(s[1..]), Strip(s));
    } else if s != [] && IsSpace(s[|s| - 1]) {
      StripKeepsInfix(s[..|s| - 1]);
      InfixBeforeSpace(s, Strip(s));
    }
  }

  lemma InfixAfterSpace(s: string, i: nat, r: string)
    requires s != [] && IsSpace(s[0]) && InfixAmidSpace(s[1..], i, r)
    ensures InfixAmidSpace(s, i + 1, r)
  {
    var t := s[1..];
    assert forall k :: 1 <= k < |s| ==> s[k] == t[k - 1];
    assert s[i + 1..i + 1 + |r|] == t[i..i + |r|];
  }

  lemma InfixBeforeSpace(s: string, r: string)
    requires s != [] && IsSpace(s[|s| - 1]) && InfixAmidSpace(s[..|s| - 1], 0, r)
    ensures InfixAmidSpace(s, 0, r)
  {
    var t := s[..|s| - 1];
    assert forall k :: 0 <= k < |t| ==> s[k] == t[k];
    assert s[..|r|] == t[..|r|];
  }

  /** A string that neither starts nor ends with whitespace is left alone by `strip()`. */
  lemma StripUnchanged(s: string)
    requires s == [] || (!IsSpace(s[0]) && !IsSpace(s[|s| - 1]))
    ensures Strip(s) == s
  {
  }

  /** `strip()` is idempotent. */
  lemma StripIdempotent(s: string)
    ensures Strip(Strip(s)) == Strip(s)
  {
    StripUnchanged(Strip(s));
  }

  /** Regrouping a concatenation, stated over plain values so that it costs the solver nothing. */
  lemma AppendAssoc<T>(a: seq<T>, b: seq<T>, c: seq<T>)
    ensures (a + b) + c == a + (b + c)
  {
  }

  /** Python's `s.startswith(prefix)`. */
  predicate StartsWith(s: string, prefix: string) {
    |prefix| <= |s| && s[..|prefix|] == prefix
  }

  /** Position of the first occurrence of `c` in `s`. */
  function IndexOf(s: string, c: char): (r: Option<nat>)
    ensures r.Some? ==> r.value < |s| && s[r.value] == c && c !in s[..r.value]
    ensures r.None? ==> c !in s
  {
    if s == [] then None
    else if s[0] == c then Some(0)
    else match IndexOf(s[1..], c)
      case None => None
      case Some(i) => Some(i + 1)
  }

  /** Python's `s.split(sep)` for a one-character separator: every occurrence splits, empty pieces are kept. */
  function SplitOn(s: string, sep: char): (parts: seq<string>)
    ensures |parts| >= 1
    ensures forall p <- parts :: sep !in p
    decreases |s|
  {
    match IndexOf(s, sep)
    case None => [s]
    case Some(i) => [s[..i]] + SplitOn(s[i + 1..], sep)
  }

  /** Python's `sep.join(parts)`. */
  function Join(parts: seq<string>, sep: char): string
  {
    if |parts| == 0 then ""
    else if |parts| == 1 then parts[0]
    else parts[0] + [sep] + Join(parts[1..], sep)
  }

  /** Joining the pieces of a split gives back the original string. */
  lemma {:induction false} JoinSplit(s: string, sep: char)
    ensures Join(SplitOn(s, sep), sep) == s
    decreases |s|
  {
    match IndexOf(s, sep)
    case None =>
    case Some(i) =>
      var rest := SplitOn(s[i + 1..], sep);
      var parts := SplitOn(s, sep);
      assert parts == [s[..i]] + rest;
      assert parts[1..] == rest;
      JoinSplit(s[i + 1..], sep);
      assert Join(parts, sep) == s[..i] + [sep] + Join(rest, sep);
      assert s == s[..i] + [sep] + s[i + 1..];
  }

  /** Splitting a join of separator-free pieces gives back the pieces. */
  lemma {:induction false} SplitJoin(parts: seq<string>, sep: char)
    requires |parts| >= 1
    requires forall p <- parts :: sep !in p
    ensures SplitOn(Join(parts, sep), sep) == parts
  {
    if |parts| == 1 {
      assert parts[0] in parts;
      assert IndexOf(parts[0], sep).None?;
    } else {
      var s := Join(parts, sep);
      var p := parts[0];
      assert p in parts;
      assert forall q <- parts[1..] :: q in parts;
      assert s == p + [sep] + Join(parts[1..], sep);
      IndexOfAfterFree(p, sep, Join(parts[1..], sep));
      assert s[..|p|] == p;
      assert s[|p| + 1..] == Join(parts[1..], sep);
      SplitJoin(parts[1..], sep);
    }
  }

  /** In `p + [c] + t` with `c` not in `p`, the first `c` is right after `p`. */
  lemma {:induction false} IndexOfAfterFree(p: string, c: char, t: string)
    requires c !in p
    ensures IndexOf(p + [c] + t, c) == Some(|p|)
  {
    if p != [] {
      assert (p + [c] + t)[1..] == p[1..] + [c] + t;
      IndexOfAfterFree(p[1..], c, t);
    }
  }

  function DigitChar(d: nat): (c: char)
    requires d < 10
    ensures IsDigit(c)
  {
    ('0' as int + d) as char
  }

  /** Python's `str(n)` for a natural number: decimal digits, no leading zeros. */
  function NatToString(n: nat): string
  {
    if n < 10 then [DigitChar(n)] else NatToString(n / 10) + [DigitChar(n % 10)]
  }

  /** `str(n)` is a non-empty run of decimal digits. */
  lemma {:induction false} NatToStringDigits(n: nat)
    ensures |NatToString(n)| >= 1
    ensures forall k :: 0 <= k < |NatToString(n)| ==> IsDigit(NatToString(n)[k])
  {
    if n >= 10 {
      NatToStringDigits(n / 10);
      var s, t := NatToString(n), NatToString(n / 10);
      assert forall k :: 0 <= k < |t| ==> s[k] == t[k];
    }
  }

  /** Python's `str(x)` (and the `f"{x}"` format) for an integer. */
  function IntToString(x: int): (r: string)
    ensures |r| >= 1 && (r[0] == '-' <==> x < 0)
  {
    NatToStringDigits(if x < 0 then -x else x);
    if x < 0 then "-" + NatToString(-x) else NatToString(x)
  }

  /** `str(x)` is an optional minus sign and then decimal digits only. */
  lemma IntToStringShape(x: int)
    ensures var r := IntToString(x);
      && |r| >= 1 && (x < 0 <==> r[0] == '-')
      && forall k :: (if x < 0 then 1 else 0) <= k < |r| ==> IsDigit(r[k])
  {
    NatToStringDigits(if x < 0 then -x else x);
    var r := IntToString(x);
    if x < 0 {
      var t := NatToString(-x);
      assert forall k :: 1 <= k < |r| ==> r[k] == t[k - 1];
    }
  }

  /**
    The digits of an integer literal as `int()` accepts them: ASCII digits,
    with single underscores allowed between two digits.
   */
  predicate WellFormedDigits(d: string) {
    && |d| >= 1
    && IsDigit(d[0])
    && IsDigit(d[|d| - 1])
    && (forall k :: 0 <= k < |d| ==> IsDigit(d[k]) || d[k] == '_')
    && (forall k :: 0 <= k < |d| - 1 ==> d[k] == '_' ==> d[k + 1] != '_')
  }

  /** The value of a digit string, underscores skipped. */
  function DigitsValue(d: string): nat
    requires forall k :: 0 <= k < |d| ==> IsDigit(d[k]) || d[k] == '_'
  {
    if d == [] then 0
    else if d[|d| - 1] == '_' then DigitsValue(d[..|d| - 1])
    else
      assert IsDigit(d[|d| - 1]);
      DigitsValue(d[..|d| - 1]) * 10 + (d[|d| - 1] as int - '0' as int)
  }

  /**
    Well-formed digits and their value. `str()` of that value is the digits
    in standard form: underscores and leading zeros dropped.
   */
  function ParseDigits(d: string): (r: Option<nat>)
    ensures r.Some? ==> NatToString(r.value) == CanonicalUnsigned(d)
  {
    if WellFormedDigits(d) then
      UnsignedCanonical(d);
      Some(DigitsValue(d))
    else None
  }

  /** The characters of `d` other than underscores, in order. */
  function DropUnderscores(d: string): string
  {
    if d == [] then []
    else DropUnderscores(d[..|d| - 1]) + (if d[|d| - 1] == '_' then [] else [d[|d| - 1]])
  }

  /** `d` with its leading zeros dropped, keeping at least one character. */
  function DropLeadingZeros(d: string): string
  {
    if |d| > 1 && d[0] == '0' then DropLeadingZeros(d[1..]) else d
  }

  /** The standard form of a digit string: no underscores, no leading zeros. */
  function CanonicalUnsigned(d: string): string
  {
    DropLeadingZeros(DropUnderscores(d))
  }

  /**
    The standard form of a stripped integer token: a `+` sign dropped, the
    digits in standard form, and a `-` kept only in front of a non-zero value.
   */
  function CanonicalToken(t: string): string
  {
    if |t| > 0 && (t[0] == '+' || t[0] == '-') then
      var c := CanonicalUnsigned(t[1..]);
      if t[0] == '-' && c != "0" then "-" + c else c
    else CanonicalUnsigned(t)
  }

  /**
    Python's `int(s)` in base 10: surrounding whitespace is ignored, an optional
    sign, then the digits. `None` stands for the `ValueError` it raises.
   */
  function ParseInt(s: string): (r: Option<int>)
    ensures r.Some? ==> |Strip(s)| >= 1 && (r.value < 0 ==> Strip(s)[0] == '-')
  {
    ParseSigned(Strip(s))
  }

  /** An optional sign followed by well-formed digits. */
  function ParseSigned(t: string): Option<int>
  {
    if |t| > 0 && (t[0] == '+' || t[0] == '-') then
      match ParseDigits(t[1..])
      case None => None
      case Some(n) =>
        var v: int := if t[0] == '-' then -(n as int) else n;
        Some(v)
    else
      match ParseDigits(t)
      case None => None
      case Some(n) => Some(n)
  }

  lemma {:induction false} NatToStringValue(n: nat)
    ensures WellFormedDigits(NatToString(n))
    ensures DigitsValue(NatToString(n)) == n
  {
    NatToStringDigits(n);
    if n >= 10 {
      NatToStringValue(n / 10);
      var s := NatToString(n);
      assert s[..|s| - 1] == NatToString(n / 10);
    }
  }

  /** `int(str(x)) == x`: the integers the model formats are read back unchanged. */
  lemma ParseIntToString(x: int)
    ensures ParseInt(IntToString(x)) == Some(x)
  {
    var s := IntToString(x);
    assert Strip(s) == s by {
      IntToStringShape(x);
      StripUnchanged(s);
    }
    ParseSignedIntToString(x);
  }

  lemma ParseSignedIntToString(x: int)
    ensures ParseSigned(IntToString(x)) == Some(x)
  {
    if x < 0 {
      ParseSignedNegative(-x);
    } else {
      NatToStringValue(x);
    }
  }

  lemma ParseSignedNegative(n: nat)
    ensures ParseSigned("-" + NatToString(n)) == Some(-(n as int))
  {
    var s := "-" + NatToString(n);
    NatToStringValue(n);
    assert s[1..] == NatToString(n);
    assert ParseDigits(s[1..]) == Some(n);
  }

  /**
    What `int()` accepts and what it gives: after stripping, an optional sign,
    then well-formed digits; the value is the digits' value, negated after a
    minus sign. Every other token raises.
   */
  lemma ParseIntSpec(s: string)
    ensures var t := Strip(s);
      var b := if |t| > 0 && (t[0] == '+' || t[0] == '-') then 1 else 0;
      && (ParseInt(s).Some? <==> WellFormedDigits(t[b..]))
      && (ParseInt(s).Some? ==>
            ParseInt(s).value == if b == 1 && t[0] == '-' then -(DigitsValue(t[b..]) as int) else DigitsValue(t[b..]))
  {
    var t := Strip(s);
    if |t| > 0 && (t[0] == '+' || t[0] == '-') {
    } else {
      assert t[0..] == t;
    }
  }

  /**
    A digit string without underscores and without a leading zero is read
    back by `str()` unchanged: `str(int(d)) == d`.
   */
  lemma {:induction false} CanonicalDigits(d: string)
    requires |d| >= 1 && forall k :: 0 <= k < |d| ==> IsDigit(d[k])
    requires |d| == 1 || d[0] != '0'
    ensures NatToString(DigitsValue(d)) == d
  {
    if |d| > 1 {
      var init := d[..|d| - 1];
      CanonicalDigits(init);
      LeadingDigitPositive(init);
      var v := DigitsValue(d);
      var last := d[|d| - 1] as int - '0' as int;
      assert v == DigitsValue(init) * 10 + last;
      assert v / 10 == DigitsValue(init) && v % 10 == last;
      assert d == init + [d[|d| - 1]];
    }
  }

  /**
    `str(int(s))` is the stripped token in standard form, whatever form it was
    written in: `int("+0_07") == 7`, `int(" -0 ") == 0`, `int("-1_000") == -1000`.
   */
  lemma ParseIntCanonical(s: string)
    ensures ParseInt(s).Some? ==> IntToString(ParseInt(s).value) == CanonicalToken(Strip(s))
  {
    var t := Strip(s);
    if ParseInt(s).Some? && |t| > 0 && (t[0] == '+' || t[0] == '-') {
      var d := t[1..];
      assert WellFormedDigits(d);
      UnsignedCanonical(d);
    } else if ParseInt(s).Some? {
      assert WellFormedDigits(t);
      UnsignedCanonical(t);
    }
  }

  /**
    Well-formed digits in standard form are plain digits with no leading
    zero, keep their value, and read `"0"` exactly when that value is zero.
   */
  lemma UnsignedCanonical(d: string)
    requires WellFormedDigits(d)
    ensures var c := CanonicalUnsigned(d);
      && |c| >= 1 && (forall k :: 0 <= k < |c| ==> IsDigit(c[k]))
      && (|c| == 1 || c[0] != '0')
      && DigitsValue(c) == DigitsValue(d)
      && NatToString(DigitsValue(d)) == c
      && (c == "0" <==> DigitsValue(d) == 0)
  {
    DropUnderscoresValue(d);
    var e := DropUnderscores(d);
    DropLeadingZerosValue(e);
    var c := CanonicalUnsigned(d);
    CanonicalDigits(c);
    if c != "0" {
      assert c[0] != '0';
      LeadingDigitPositive(c);
    }
  }

  /** Dropping the underscores leaves digits of the same value, and some digit when the last one is. */
  lemma {:induction false} DropUnderscoresValue(d: string)
    requires forall k :: 0 <= k < |d| ==> IsDigit(d[k]) || d[k] == '_'
    ensures var e := DropUnderscores(d);
      && (forall k :: 0 <= k < |e| ==> IsDigit(e[k]))
      && DigitsValue(e) == DigitsValue(d)
      && (|d| >= 1 && IsDigit(d[|d| - 1]) ==> |e| >= 1)
  {
    if d != [] {
      var init := d[..|d| - 1];
      DropUnderscoresValue(init);
      var x := DropUnderscores(init);
      if d[|d| - 1] != '_' {
        var e := x + [d[|d| - 1]];
        assert e[..|e| - 1] == x;
      } else {
        assert DropUnderscores(d) == x + [] == x;
        assert DigitsValue(d) == DigitsValue(init);
      }
    }
  }

  /** Dropping leading zeros from plain digits keeps their value and leaves no leading zero. */
  lemma {:induction false} DropLeadingZerosValue(e: string)
    requires |e| >= 1 && forall k :: 0 <= k < |e| ==> IsDigit(e[k])
    ensures var c := DropLeadingZeros(e);
      && |c| >= 1 && (forall k :: 0 <= k < |c| ==> IsDigit(c[k]))
      && (|c| == 1 || c[0] != '0')
      && DigitsValue(c) == DigitsValue(e)
  {
    if |e| > 1 && e[0] == '0' {
      DropLeadingZerosValue(e[1..]);
      LeadingZeroValue(e);
    }
  }

  /** A leading zero adds nothing to the value of a digit string. */
  lemma {:induction false} LeadingZeroValue(e: string)
    requires |e| >= 1 && (forall k :: 0 <= k < |e| ==> IsDigit(e[k]) || e[k] == '_') && e[0] == '0'
    ensures DigitsValue(e) == DigitsValue(e[1..])
  {
    if |e| == 1 {
      assert e[..0] == [] && e[1..] == [];
    } else {
      var init := e[..|e| - 1];
      LeadingZeroValue(init);
      assert e[1..][..|e| - 2] == init[1..];
    }
  }

  /** Digits that start with a non-zero digit have a positive value. */
  lemma {:induction false} LeadingDigitPositive(d: string)
    requires |d| >= 1 && forall k :: 0 <= k < |d| ==> IsDigit(d[k])
    requires d[0] != '0'
    ensures DigitsValue(d) >= 1
  {
    if |d| > 1 {
      LeadingDigitPositive(d[..|d| - 1]);
    }
  }

  /** Tokens on which `int()` raises: empty, a letter, a trailing letter, a double underscore. */
  lemma ParseIntRejects()
    ensures ParseInt("") == None && ParseInt("x") == None
    ensures ParseInt("12a") == None && ParseInt("1__0") == None
  {
    RejectsPlain("x", 0);
    RejectsPlain("12a", 2);
    RejectsPlain("1__0", 1);
  }

  /** A token with no space at its ends and no sign, with a bad character at `k`, makes `int()` raise. */
  lemma RejectsPlain(t: string, k: nat)
    requires |t| >= 1 && !IsSpace(t[0]) && !IsSpace(t[|t| - 1]) && t[0] != '+' && t[0] != '-'
    requires k < |t| && (!(IsDigit(t[k]) || t[k] == '_') || (k + 1 < |t| && t[k] == '_' && t[k + 1] == '_'))
    ensures ParseInt(t) == None
  {
    StripUnchanged(t);
    ParseIntSpec(t);
    assert t[0..] == t;
  }

  /** `int("+5") == 5`: a plus sign is accepted. */
  lemma ParseIntPlus()
    ensures ParseInt("+5") == Some(5)
  {
    var t := "+5";
    assert !IsSpace(t[0]) && !IsSpace(t[|t| - 1]);
    StripUnchanged(t);
    ParseIntSpec(t);
    assert t[1..] == "5";
  }

  /** `int("1_0") == 10`: an underscore between digits is skipped. */
  lemma ParseIntUnderscore()
    ensures ParseInt("1_0") == Some(10)
  {
    var t := "1_0";
    assert !IsSpace(t[0]) && !IsSpace(t[|t| - 1]);
    StripUnchanged(t);
    ParseIntSpec(t);
    assert t[0..] == t;
    assert WellFormedDigits(t);
    assert t[..2] == "1_" && t[..2][..1] == "1" && "1"[..0] == "";
  }

  /** `int(" 0300 ") == 300`: surrounding spaces and leading zeros are accepted. */
  lemma ParseIntPadded()
    ensures ParseInt(" 0300 ") == Some(300)
  {
    var s, t := " 0300 ", "0300";
    assert Strip(s) == t by {
      assert s[1..] == "0300 " && "0300 "[..4] == t;
      assert IsSpace(s[0]) && IsSpace("0300 "[4]) && !IsSpace("0300 "[0]);
      assert !IsSpace(t[0]) && !IsSpace(t[|t| - 1]);
      StripUnchanged(t);
    }
    assert WellFormedDigits(t) && DigitsValue(t) == 300 by {
      assert t[..3] == "030" && "030"[..2] == "03" && "03"[..1] == "0" && "0"[..0] == "";
    }
    ParseIntSpec(s);
    assert t[0..] == t;
  }
}
