/** Which texts the parser of 64-bit integers accepts, and what the printers write, as a grammar. */
module Int64Grammar {
  import opened Options
  import opened Int64Arith
  import opened Int64Text
  import opened Words

  predicate Blank(s: string) { forall i :: 0 <= i < |s| ==> IsSpace(s[i]) }

  predicate SignText(s: string) { s == "" || s == "+" || s == "-" }

  /** Only base 0 has prefixes; only the one of hexadecimal texts may be in upper case. */
  predicate PrefixText(pre: string, base: nat, radix: nat) {
    if base != 0 then pre == "" && radix == base
    else
      || (pre == "" && radix == 10) || ((pre == "0x" || pre == "0X") && radix == 16)
      || (pre == "0o" && radix == 8) || (pre == "0b" && radix == 2)
  }

  predicate DigitText(s: string, radix: nat) { s != "" && AllAlnum(s) && DigitsOf(s, radix) }

  /** The parts of a text. */
  datatype Parts = Parts(lead: string, sign: string, pre: string, digits: string, trail: string) {
    function Text(): string { lead + (sign + (pre + (digits + trail))) }
  }

  predicate Spells(p: Parts, base: nat, radix: nat) {
    && Blank(p.lead) && SignText(p.sign) && PrefixText(p.pre, base, radix) && DigitText(p.digits, radix)
    && Blank(p.trail)
  }

  function Value(p: Parts, radix: nat): int
    requires AllAlnum(p.digits)
  {
    if p.sign == "-" then 0 - Positional(p.digits, radix) else Positional(p.digits, radix)
  }

  // ----- What is spelled is read -----

  lemma {:induction false} SkipsBlanks(lead: string, s: string)
    requires Blank(lead) && (s == "" || !IsSpace(s[0]))
    ensures SkipSpaces(lead + s) == s
    decreases |lead|
  {
    if lead == "" {
      assert lead + s == s;
    } else {
      SkipsBlanks(lead[1..], s);
      assert (lead + s)[1..] == lead[1..] + s;
    }
  }

  lemma {:induction false} CountsDigits(digits: string, trail: string)
    requires AllAlnum(digits) && Blank(trail)
    ensures AlnumCount(digits + trail) == |digits|
    decreases |digits|
  {
    if digits == "" {
      assert digits + trail == trail;
    } else {
      assert AllAlnum(digits[1..]);
      CountsDigits(digits[1..], trail);
      assert (digits + trail)[1..] == digits[1..] + trail;
    }
  }

  lemma NumberIsSpelled(digits: string, trail: string, radix: nat)
    requires DigitText(digits, radix) && Blank(trail)
    ensures Number(digits + trail, radix) == Some(Positional(digits, radix) % TWO64)
  {
    CountsDigits(digits, trail);
    SkipsBlanks(trail, "");
    assert trail + "" == trail;
    assert (digits + trail)[..|digits|] == digits && (digits + trail)[|digits|..] == trail;
  }

  lemma PrefixIsSpelled(pre: string, digits: string, trail: string, radix: nat)
    requires PrefixText(pre, 0, radix) && DigitText(digits, radix) && Blank(trail)
    ensures Prefix(pre + (digits + trail)) == (radix, |pre|)
    ensures (pre + (digits + trail))[|pre|..] == digits + trail
  {
    var body := pre + (digits + trail);
    if pre == "" {
      assert body == digits + trail && body[0] == digits[0];
      if |body| > 1 { assert body[1] == if |digits| > 1 then digits[1] else trail[0]; }
    }
  }

  lemma HeadIsSpelled(p: Parts, base: nat, radix: nat)
    requires Spells(p, base, radix)
    ensures Head(p.Text(), base) == (p.sign == "-", radix, p.digits + p.trail)
  {
    var body := p.pre + (p.digits + p.trail);
    assert body != "" && !IsSpace(body[0]) && body[0] != '-' && body[0] != '+' by {
      assert body[0] == if p.pre == "" then p.digits[0] else p.pre[0];
    }
    SkipsBlanks(p.lead, p.sign + body);
    assert p.sign == "" ==> p.sign + body == body;
    assert p.sign != "" ==> (p.sign + body)[1..] == body;
    if base == 0 {
      PrefixIsSpelled(p.pre, p.digits, p.trail, radix);
    } else {
      assert body == p.digits + p.trail && body[0..] == body;
    }
  }

  /** A text of blanks, a sign, a prefix, digits and blanks means the value of its digits modulo
      2^64, negated after a minus sign. */
  lemma SpelledMeans(p: Parts, base: nat, radix: nat)
    requires (base == 0 || 2 <= base <= 36) && Spells(p, base, radix)
    ensures Meaning(p.Text(), base) == Some(Wrap(Value(p, radix)))
  {
    HeadIsSpelled(p, base, radix);
    NumberIsSpelled(p.digits, p.trail, radix);
    NegateWraps(Positional(p.digits, radix));
  }

  // ----- What is read is spelled -----

  lemma {:induction false} BlanksBefore(s: string) returns (lead: string)
    ensures s == lead + SkipSpaces(s) && Blank(lead)
    ensures SkipSpaces(s) == "" || !IsSpace(SkipSpaces(s)[0])
    decreases |s|
  {
    if s != "" && IsSpace(s[0]) {
      var rest := BlanksBefore(s[1..]);
      lead := [s[0]] + rest;
      assert s == [s[0]] + s[1..];
    } else {
      lead := "";
    }
  }

  lemma NumberSplits(s: string, radix: nat) returns (digits: string, trail: string)
    requires Number(s, radix).Some?
    ensures s == digits + trail && DigitText(digits, radix) && Blank(trail)
  {
    var n := AlnumCount(s);
    digits := s[..n];
    trail := BlanksBefore(s[n..]);
    assert trail + "" == trail == s[n..];
  }

  lemma PrefixSplits(body: string, base: nat) returns (pre: string, radix: nat)
    ensures PrefixText(pre, base, radix) && |pre| <= |body| && body == pre + body[|pre|..]
    ensures (radix, |pre|) == if base == 0 then Prefix(body) else (base, 0)
  {
    radix, pre := base, "";
    if base == 0 {
      radix := Prefix(body).0;
      pre := body[..Prefix(body).1];
      if |pre| == 2 { assert pre == [body[0], body[1]]; }
    }
  }

  lemma SignSplits(signed: string) returns (sign: string)
    ensures SignText(sign) && |sign| <= |signed| && signed == sign + signed[|sign|..]
    ensures sign != "" <==> signed != "" && (signed[0] == '-' || signed[0] == '+')
    ensures sign == "-" <==> signed != "" && signed[0] == '-'
  {
    sign := if signed != "" && (signed[0] == '-' || signed[0] == '+') then [signed[0]] else "";
  }

  /** Every text that has a meaning is spelled like that. */
  lemma MeaningIsSpelled(s: string, base: nat) returns (p: Parts, radix: nat)
    requires Meaning(s, base).Some?
    ensures p.Text() == s && Spells(p, base, radix)
  {
    var lead := BlanksBefore(s);
    var signed := SkipSpaces(s);
    var sign := SignSplits(signed);
    var body := signed[|sign|..];
    assert body == if sign != "" then signed[1..] else signed;
    var pre;
    pre, radix := PrefixSplits(body, base);
    var digits, trail := NumberSplits(body[|pre|..], radix);
    p := Parts(lead, sign, pre, digits, trail);
  }

  /** The parser accepts exactly the texts of the grammar, and gives them their value. */
  lemma AcceptsIff(s: string, base: nat, v: i64)
    requires base == 0 || 2 <= base <= 36
    ensures Meaning(s, base) == Some(v)
      <==> exists p: Parts, radix: nat :: p.Text() == s && Spells(p, base, radix) && Wrap(Value(p, radix)) == v
  {
    if Meaning(s, base).Some? {
      var p, radix := MeaningIsSpelled(s, base);
      SpelledMeans(p, base, radix);
    }
    forall p: Parts, radix: nat | p.Text() == s && Spells(p, base, radix) && Wrap(Value(p, radix)) == v
      ensures Meaning(s, base) == Some(v)
    {
      SpelledMeans(p, base, radix);
    }
  }

  // ----- What is printed -----

  const LETTERS: string := "0123456789abcdefghijklmnopqrstuvwxyz"

  /** The digits are the characters of the usual alphabet. */
  lemma DigitsAreLetters(d: nat)
    requires d < 36
    ensures DigitChar(d) == LETTERS[d] && IsAlnum(LETTERS[d]) && DigitValue(LETTERS[d]) == d
  {
  }

  predicate Lower(s: string) { forall i :: 0 <= i < |s| ==> IsDigit(s[i]) || 'a' <= s[i] <= 'f' }

  lemma {:induction false} DigitsAreLower(n: nat, radix: nat)
    requires 2 <= radix <= 16
    ensures Lower(Digits(n, radix))
    decreases n
  {
    if n >= radix {
      QuotientSmaller(n, radix);
      DigitsAreLower(n / radix, radix);
    }
  }

  lemma {:induction false} ZerosLength(n: nat)
    ensures |Zeros(n)| == n && forall i :: 0 <= i < n ==> Zeros(n)[i] == '0'
  {
    if n > 0 { ZerosLength(n - 1); }
  }

  /** A hexadecimal text is in lower case, as wide as asked for or wider, and has zeros in front
      only to be as wide. */
  lemma HexIsCanonical(v: i64, width: nat)
    ensures var s := ToHex(v, width);
      && Lower(s) && |s| >= width && s != ""
      && (|s| > width && |s| > 1 ==> s[0] != '0')
  {
    var digits := Digits(Unsigned(v), 16);
    DigitsRead(Unsigned(v), 16);
    DigitsAreLower(Unsigned(v), 16);
    ZerosLength(if |digits| < width then width - |digits| else 0);
  }

  /** A decimal text has a minus sign exactly for negative values, and no zeros in front. */
  lemma DecimalIsCanonical(v: i64)
    ensures var s := ToDecimal(v);
      && s != "" && (s[0] == '-' <==> v < 0)
      && var digits := if v < 0 then s[1..] else s;
      && digits != "" && (forall i :: 0 <= i < |digits| ==> IsDigit(digits[i]))
      && (|digits| > 1 ==> digits[0] != '0')
  {
    var n: nat := if v < 0 then 0 - v else v;
    DigitsRead(n, 10);
    assert v < 0 ==> ToDecimal(v)[1..] == Digits(n, 10);
    assert forall i :: 0 <= i < |Digits(n, 10)| ==> DigitValue(Digits(n, 10)[i]) < 10;
  }
}
