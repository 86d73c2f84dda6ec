/** Reading and printing 64-bit integers, lib/common/mlua.int64.c. */
module Int64Text {
  import opened Options
  import opened Int64Arith
  import opened Words

  // ----- Characters of the C locale -----

  predicate IsSpace(c: char) { c == ' ' || '\t' <= c <= '\r' }

  predicate IsDigit(c: char) { '0' <= c <= '9' }

  predicate IsAlnum(c: char) { IsDigit(c) || 'a' <= c <= 'z' || 'A' <= c <= 'Z' }

  function DigitValue(c: char): nat
    requires IsAlnum(c)
  {
    if IsDigit(c) then c as int - '0' as int
    else (if 'a' <= c <= 'z' then c as int - 'a' as int else c as int - 'A' as int) + 10
  }

  type CString = s: string | forall c | c in s :: c != '\0'

  /** The character at an index, with the terminator at the end. */
  function At(s: CString, i: nat): char {
    if i < |s| then s[i] else '\0'
  }

  // ----- What a text means -----

  function SkipSpaces(s: string): string {
    if s != "" && IsSpace(s[0]) then SkipSpaces(s[1..]) else s
  }

  function AlnumCount(s: string): (n: nat)
    ensures n <= |s| && forall i :: 0 <= i < n ==> IsAlnum(s[i])
    ensures n < |s| ==> !IsAlnum(s[n])
  {
    if s != "" && IsAlnum(s[0]) then 1 + AlnumCount(s[1..]) else 0
  }

  predicate AllAlnum(s: string) { forall i :: 0 <= i < |s| ==> IsAlnum(s[i]) }

  predicate DigitsOf(s: string, radix: nat)
    requires AllAlnum(s)
  {
    forall i :: 0 <= i < |s| ==> DigitValue(s[i]) < radix
  }

  /** The number a string of digits stands for. */
  function Positional(s: string, radix: nat): nat
    requires AllAlnum(s)
  {
    if s == "" then 0
    else Positional(s[..|s| - 1], radix) * radix + DigitValue(s[|s| - 1])
  }

  /** The radix that a prefix selects when none is given, and the length of the prefix. */
  function Prefix(s: string): (nat, nat) {
    if |s| < 2 || s[0] != '0' then (10, 0)
    else match s[1]
      case 'x' => (16, 2)
      case 'X' => (16, 2)
      case 'o' => (8, 2)
      case 'b' => (2, 2)
      case _ => (10, 0)
  }

  /** The sign, the radix and what follows: blanks, an optional sign, and an optional
      prefix if the base is 0. */
  function Head(s: string, base: nat): (bool, nat, string) {
    var signed := SkipSpaces(s);
    var negative := signed != "" && signed[0] == '-';
    var body := if negative || (signed != "" && signed[0] == '+') then signed[1..] else signed;
    var (radix, skip) := if base == 0 then Prefix(body) else (base, 0);
    (negative, radix, body[skip..])
  }

  /** A non-empty string of digits of the radix, then blanks. */
  function Number(s: string, radix: nat): Option<u64> {
    var n := AlnumCount(s);
    if n == 0 || !DigitsOf(s[..n], radix) || SkipSpaces(s[n..]) != "" then None
    else Some(Positional(s[..n], radix) % TWO64)
  }

  function Meaning(s: string, base: nat): Option<i64> {
    var (negative, radix, rest) := Head(s, base);
    match Number(rest, radix)
    case None => None
    case Some(v) => Some(Signed(if negative then (0 - v) % TWO64 else v))
  }

  // ----- The parser -----

  lemma {:induction false} SkipSpacesAll(s: string, i: nat)
    requires i <= |s| && forall j :: 0 <= j < i ==> IsSpace(s[j])
    ensures SkipSpaces(s) == SkipSpaces(s[i..])
  {
    if i > 0 {
      SkipSpacesAll(s[1..], i - 1);
      assert s[1..][i - 1..] == s[i..];
    } else {
      assert s[0..] == s;
    }
  }

  method SkipBlanks(s: CString, from: nat) returns (p: nat)
    requires from <= |s|
    ensures from <= p <= |s| && SkipSpaces(s[from..]) == s[p..]
  {
    p := from;
    while IsSpace(At(s, p))
      invariant from <= p <= |s| && forall j :: from <= j < p ==> IsSpace(s[j])
      decreases |s| - p
    {
      p := p + 1;
    }
    SkipSpacesAll(s[from..], p - from);
    assert s[from..][p - from..] == s[p..];
  }

  /** Lines 63-77. */
  method ReadHead(s: CString, base: nat) returns (neg: bool, radix: nat, p: nat)
    ensures p <= |s| && Head(s, base) == (neg, radix, s[p..])
  {
    assert s[0..] == s;
    p := SkipBlanks(s, 0);
    ghost var signed := s[p..];
    neg := At(s, p) == '-';
    if neg || At(s, p) == '+' {
      assert signed[1..] == s[p + 1..];
      p := p + 1;
    }
    ghost var body := s[p..];
    assert body[0..] == body;
    radix := base;
    if radix == 0 {
      if At(s, p) == '0' {
        match At(s, p + 1) {
          case 'x' => radix := 16;
          case 'X' => radix := 16;
          case 'o' => radix := 8;
          case 'b' => radix := 2;
          case _ =>
        }
        if radix != 0 {
          assert body[2..] == s[p + 2..];
          p := p + 2;
        }
      }
      if radix == 0 { radix := 10; }
    }
  }

  /** Lines 78-87. */
  method ReadDigits(s: CString, start: nat, radix: nat) returns (ok: bool, v: u64, p: nat)
    requires start <= |s|
    ensures start <= p <= |s|
    ensures ok <==> AlnumCount(s[start..]) > 0 && DigitsOf(s[start..][..AlnumCount(s[start..])], radix)
    ensures ok ==> p == start + AlnumCount(s[start..])
    ensures ok ==> v == Positional(s[start..][..AlnumCount(s[start..])], radix) % TWO64
  {
    ok, v, p := false, 0, start;
    ghost var t, n := s[start..], AlnumCount(s[start..]);
    if !IsAlnum(At(s, p)) { return; }
    while IsAlnum(At(s, p))
      invariant start <= p <= start + n
      invariant DigitsOf(t[..p - start], radix)
      invariant v == Positional(t[..p - start], radix) % TWO64
      decreases |s| - p
    {
      var digit := DigitValue(s[p]);
      ghost var i := p - start;
      assert s[p] == t[i] && i < n && t[..n][i] == t[i];
      if digit >= radix { return; }
      PositionalNext(t, i, radix);
      v := (v * radix + digit) % TWO64;
      p := p + 1;
    }
    assert p - start == n;
    ok := true;
  }

  lemma PositionalNext(t: string, i: nat, radix: nat)
    requires i < |t| && AllAlnum(t[..i + 1])
    ensures AllAlnum(t[..i])
    ensures ((Positional(t[..i], radix) % TWO64) * radix + DigitValue(t[i])) % TWO64
         == Positional(t[..i + 1], radix) % TWO64
  {
    assert t[..i + 1][i] == t[i];
    assert t[..i + 1][..i] == t[..i];
    forall j | 0 <= j < i ensures IsAlnum(t[..i][j]) { assert t[..i + 1][j] == t[j]; }
    var x := Positional(t[..i], radix);
    ModMul(x, radix);
    ModAddCongruent((x % TWO64) * radix, x * radix, DigitValue(t[i]));
  }

  lemma ModAddCongruent(x: int, y: int, d: int)
    requires x % TWO64 == y % TWO64
    ensures (x + d) % TWO64 == (y + d) % TWO64
  {
    ModAdd(y + d, (x - y) / TWO64);
  }

  /** mlua_string_to_int64() at line 62. */
  method Parse(s: CString, base: nat) returns (ok: bool, value: i64)
    requires base == 0 || 2 <= base <= 36
    ensures Meaning(s, base) == if ok then Some(value) else None
  {
    ok, value := false, 0;
    var neg, radix, start := ReadHead(s, base);
    var digits, v, p := ReadDigits(s, start, radix);
    if !digits { return; }
    assert s[start..][p - start..] == s[p..];
    p := SkipBlanks(s, p);
    if At(s, p) != '\0' { return; }
    return true, Signed(if neg then (0 - v) % TWO64 else v);
  }

  // ----- Printing and round trips -----

  function DigitChar(d: nat): char
    requires d < 36
  {
    if d < 10 then '0' + d as char else 'a' + (d - 10) as char
  }

  function Digits(n: nat, radix: nat): string
    requires 2 <= radix <= 36
  {
    if n < radix then [DigitChar(n)]
    else Digits(n / radix, radix) + [DigitChar(n % radix)]
  }

  /** mlua_int64_to_string() at line 58. */
  function ToDecimal(v: i64): string { SignedText(v, 10) }

  function SignedText(v: i64, radix: nat): string
    requires 2 <= radix <= 36
  {
    if v < 0 then "-" + Digits(0 - v, radix) else Digits(v, radix)
  }

  function Zeros(n: nat): string {
    if n == 0 then "" else "0" + Zeros(n - 1)
  }

  /** int64_hex() at line 229, for widths from 0 to 16. */
  function ToHex(v: i64, width: nat): string { PaddedText(Unsigned(v), width, 16) }

  function PaddedText(n: nat, width: nat, radix: nat): string
    requires 2 <= radix <= 36
  {
    var digits := Digits(n, radix);
    Zeros(if |digits| < width then width - |digits| else 0) + digits
  }

  lemma DigitCharRead(d: nat)
    requires d < 36
    ensures IsAlnum(DigitChar(d)) && DigitValue(DigitChar(d)) == d
    ensures DigitChar(d) == '0' <==> d == 0
  {
  }

  /** `s` consists of digits of the radix and stands for `n`. */
  predicate Reads(s: string, radix: nat, n: nat) {
    AllAlnum(s) && DigitsOf(s, radix) && Positional(s, radix) == n
  }

  lemma ReadsMore(s: string, radix: nat, n: nat, c: char)
    requires Reads(s, radix, n) && IsAlnum(c) && DigitValue(c) < radix
    ensures Reads(s + [c], radix, n * radix + DigitValue(c))
  {
    var t := s + [c];
    forall i | 0 <= i < |t| ensures IsAlnum(t[i]) && DigitValue(t[i]) < radix {
      if i < |s| { assert t[i] == s[i]; }
    }
    assert t[..|t| - 1] == s;
  }

  lemma {:induction false} DigitsRead(n: nat, radix: nat)
    requires 2 <= radix <= 36
    ensures Reads(Digits(n, radix), radix, n) && Digits(n, radix) != ""
    ensures if n == 0 then Digits(n, radix) == "0" else Digits(n, radix)[0] != '0'
    decreases n
  {
    if n < radix {
      DigitCharRead(n);
      assert Reads("", radix, 0);
      ReadsMore("", radix, 0, DigitChar(n));
      assert "" + [DigitChar(n)] == [DigitChar(n)];
    } else {
      var q, d := n / radix, n % radix;
      QuotientSmaller(n, radix);
      DigitsRead(q, radix);
      DigitCharRead(d);
      ReadsMore(Digits(q, radix), radix, q, DigitChar(d));
    }
  }

  lemma QuotientSmaller(n: nat, radix: nat)
    requires 2 <= radix <= n
    ensures 0 < n / radix < n && (n / radix) * radix + n % radix == n
  {
    DivBounds(n, radix);
  }

  lemma {:induction false} ZerosRead(n: nat, radix: nat)
    requires radix > 0
    ensures Reads(Zeros(n), radix, 0)
  {
    if n > 0 {
      ZerosEnd(n - 1);
      ZerosRead(n - 1, radix);
      ReadsMore(Zeros(n - 1), radix, 0, '0');
    }
  }

  lemma {:induction false} PaddedRead(n: nat, s: string, radix: nat)
    requires AllAlnum(s) && DigitsOf(s, radix) && radix > 0
    ensures Reads(Zeros(n) + s, radix, Positional(s, radix))
    decreases |s|
  {
    if s == "" {
      ZerosRead(n, radix);
      assert Zeros(n) + s == Zeros(n);
    } else {
      var init, c := s[..|s| - 1], s[|s| - 1];
      assert AllAlnum(init) && DigitsOf(init, radix);
      PaddedRead(n, init, radix);
      ReadsMore(Zeros(n) + init, radix, Positional(init, radix), c);
      assert Zeros(n) + s == (Zeros(n) + init) + [c];
    }
  }

  lemma {:induction false} ZerosEnd(n: nat)
    ensures "0" + Zeros(n) == Zeros(n) + "0"
  {
    if n > 0 {
      ZerosEnd(n - 1);
      assert "0" + Zeros(n) == "0" + (Zeros(n - 1) + "0") == Zeros(n) + "0";
    }
  }

  lemma {:induction false} AllCounted(s: string)
    requires AllAlnum(s)
    ensures AlnumCount(s) == |s|
  {
    if s != "" {
      assert AllAlnum(s[1..]);
      AllCounted(s[1..]);
    }
  }

  lemma NumberOfDigits(s: string, radix: nat)
    requires s != "" && AllAlnum(s) && DigitsOf(s, radix)
    ensures Number(s, radix) == Some(Positional(s, radix) % TWO64)
  {
    AllCounted(s);
    assert s[..|s|] == s && s[|s|..] == "";
  }

  lemma HeadOfDigits(digits: string, base: nat)
    requires base > 0 && digits != "" && AllAlnum(digits)
    ensures Head(digits, base) == (false, base, digits)
    ensures Head("+" + digits, base) == (false, base, digits)
    ensures Head("-" + digits, base) == (true, base, digits)
  {
    assert IsAlnum(digits[0]);
    assert digits[0..] == digits && ("+" + digits)[1..] == digits && ("-" + digits)[1..] == digits;
  }

  /** A digit string in the given base, with an optional sign, reads as its positional
      value modulo 2^64, negated after a minus sign. */
  lemma DigitStringMeans(digits: string, base: nat, n: nat)
    requires 2 <= base <= 36 && digits != "" && Reads(digits, base, n)
    ensures Meaning(digits, base) == Some(Wrap(n))
    ensures Meaning("+" + digits, base) == Some(Wrap(n))
    ensures Meaning("-" + digits, base) == Some(Wrap(0 - n))
  {
    NumberOfDigits(digits, base);
    HeadOfDigits(digits, base);
    NegateWraps(n);
  }

  lemma NegateWraps(n: nat)
    ensures (0 - n % TWO64) % TWO64 == (0 - n) % TWO64
  {
    ModAdd(0 - n, n / TWO64);
  }

  /** Base 0 means base 10 unless the digits start with 0. */
  lemma NoPrefix(digits: string, sign: string)
    requires digits != "" && AllAlnum(digits) && (digits[0] == '0' ==> |digits| == 1)
    requires sign == "" || sign == "-"
    ensures Meaning(sign + digits, 0) == Meaning(sign + digits, 10)
  {
    var s := sign + digits;
    assert IsAlnum(digits[0]);
    assert s[0] == if sign == "" then digits[0] else '-';
    assert SkipSpaces(s) == s;
    assert s[|sign|..] == digits && s[0..] == s;
    assert Prefix(digits) == (10, 0);
  }

  /** What any printed number reads as, whatever the padding. */
  lemma PrintedMeans(n: nat, radix: nat, pad: nat)
    requires 2 <= radix <= 36
    ensures Meaning(Zeros(pad) + Digits(n, radix), radix) == Some(Wrap(n))
    ensures Meaning(Digits(n, radix), radix) == Some(Wrap(n))
    ensures Meaning("-" + Digits(n, radix), radix) == Some(Wrap(0 - n))
  {
    var digits := Digits(n, radix);
    DigitsRead(n, radix);
    DigitStringMeans(digits, radix, n);
    PaddedRead(pad, digits, radix);
    DigitStringMeans(Zeros(pad) + digits, radix, n);
  }

  lemma PrintedInBase0(n: nat, radix: nat, sign: string)
    requires radix == 10 && (sign == "" || sign == "-")
    ensures Meaning(sign + Digits(n, radix), 0) == Meaning(sign + Digits(n, radix), radix)
  {
    DigitsRead(n, radix);
    NoPrefix(Digits(n, radix), sign);
  }

  lemma SignedTextMeans(v: i64, radix: nat)
    requires 2 <= radix <= 36
    ensures Meaning(SignedText(v, radix), radix) == Some(v)
  {
    WrapSmall(v);
    PrintedMeans(if v < 0 then 0 - v else v, radix, 0);
  }

  lemma SignedTextInBase0(v: i64, radix: nat)
    requires radix == 10
    ensures Meaning(SignedText(v, radix), 0) == Meaning(SignedText(v, radix), radix)
  {
    if v < 0 {
      PrintedInBase0(0 - v, radix, "-");
    } else {
      PrintedInBase0(v, radix, "");
      assert "" + Digits(v, radix) == Digits(v, radix);
    }
  }

  /** Reading the decimal text of a value gives the value back. */
  lemma DecimalRoundTrip(v: i64, base: nat)
    requires base == 0 || base == 10
    ensures Meaning(ToDecimal(v), base) == Some(v)
  {
    SignedTextMeans(v, 10);
    SignedTextInBase0(v, 10);
  }

  lemma WrapUnsigned(v: i64)
    ensures Wrap(Unsigned(v)) == v
  {
  }

  lemma PaddedTextMeans(n: nat, width: nat, radix: nat)
    requires 2 <= radix <= 36
    ensures Meaning(PaddedText(n, width, radix), radix) == Some(Wrap(n))
  {
    var len := |Digits(n, radix)|;
    PrintedMeans(n, radix, if len < width then width - len else 0);
  }

  /** Reading the hexadecimal text of a value in base 16 gives the value back. */
  lemma HexRoundTrip(v: i64, width: nat)
    ensures Meaning(ToHex(v, width), 16) == Some(v)
  {
    PaddedTextMeans(Unsigned(v), width, 16);
    WrapUnsigned(v);
  }

  /** Different values have different texts. */
  lemma DecimalIsInjective(v: i64, w: i64)
    requires ToDecimal(v) == ToDecimal(w)
    ensures v == w
  {
    DecimalRoundTrip(v, 10);
    DecimalRoundTrip(w, 10);
  }
}
