/** Decimal numbers as text, as the version files and the account file hold them. */
module Decimal {
  import opened Basics

  function DigitChar(d: nat): char
    requires d < 10
  {
    ('0' as int + d) as char
  }

  predicate IsDigit(c: char) {
    '0' <= c <= '9'
  }

  function ToString(n: nat): (r: string)
    ensures r != "" && forall i :: 0 <= i < |r| ==> IsDigit(r[i])
  {
    if n < 10 then [DigitChar(n)] else ToString(n / 10) + [DigitChar(n % 10)]
  }

  predicate IsSpace(c: char) {
    c == ' ' || '\t' <= c <= '\r'
  }

  function SkipSpaces(s: string): string {
    if s != "" && IsSpace(s[0]) then SkipSpaces(s[1..]) else s
  }

  /** The number the leading digits spell, after `n` has been read. */
  function ReadDigits(s: string, n: nat): nat
    decreases |s|
  {
    if s == "" || !IsDigit(s[0]) then n else ReadDigits(s[1..], n * 10 + (s[0] as int - '0' as int))
  }

  /** A sign and digits after any blanks, whatever follows them; None where the library throws. */
  datatype Read = Read(negative: bool, magnitude: nat)

  function ReadNumber(s: string): Option<Read> {
    var t := SkipSpaces(s);
    var signed := t != "" && (t[0] == '-' || t[0] == '+');
    var digits := if signed then t[1..] else t;
    if digits == "" || !IsDigit(digits[0]) then None
    else Some(Read(signed && t[0] == '-', ReadDigits(digits, 0)))
  }

  /** std::stoll: a 64-bit signed number, or an exception. */
  function Stoll(s: string): Option<int> {
    match ReadNumber(s)
    case None => None
    case Some(r) =>
      var value := if r.negative then -(r.magnitude as int) else r.magnitude;
      if -0x8000_0000_0000_0000 <= value < 0x8000_0000_0000_0000 then Some(value) else None
  }

  /** std::stoull: a 64-bit unsigned number, a negative one wrapped, or an exception. */
  function Stoull(s: string): Option<nat> {
    match ReadNumber(s)
    case None => None
    case Some(r) =>
      if r.magnitude >= 0x1_0000_0000_0000_0000 then None
      else if r.negative && r.magnitude != 0 then Some(0x1_0000_0000_0000_0000 - r.magnitude)
      else Some(r.magnitude)
  }

  lemma {:induction false} ReadOneMore(s: string, c: char, n: nat)
    requires IsDigit(c) && forall i :: 0 <= i < |s| ==> IsDigit(s[i])
    ensures ReadDigits(s + [c], n) == ReadDigits(s, n) * 10 + (c as int - '0' as int)
    decreases |s|
  {
    if s == "" {
      assert ([c])[1..] == "";
    } else {
      assert (s + [c])[1..] == s[1..] + [c];
      ReadOneMore(s[1..], c, n * 10 + (s[0] as int - '0' as int));
    }
  }

  lemma {:induction false} ReadPrinted(n: nat)
    ensures ReadDigits(ToString(n), 0) == n
  {
    if n < 10 {
      assert ToString(n)[1..] == "";
    } else {
      ReadPrinted(n / 10);
      ReadOneMore(ToString(n / 10), DigitChar(n % 10), 0);
    }
  }

  /** What is printed reads back, within the width of the type. */
  lemma PrintedReads(n: nat)
    ensures n < 0x8000_0000_0000_0000 ==> Stoll(ToString(n)) == Some(n)
    ensures n < 0x1_0000_0000_0000_0000 ==> Stoull(ToString(n)) == Some(n)
  {
    ReadPrinted(n);
    assert IsDigit(ToString(n)[0]);
  }

  lemma {:induction false} SpacesSkipped(spaces: string, text: string)
    requires forall i :: 0 <= i < |spaces| ==> IsSpace(spaces[i])
    requires text == "" || !IsSpace(text[0])
    ensures SkipSpaces(spaces + text) == text
  {
    if spaces == "" {
      assert spaces + text == text;
    } else {
      assert (spaces + text)[1..] == spaces[1..] + text;
      SpacesSkipped(spaces[1..], text);
    }
  }

  lemma {:induction false} DigitsEnd(digits: string, rest: string, n: nat)
    requires forall i :: 0 <= i < |digits| ==> IsDigit(digits[i])
    requires rest == "" || !IsDigit(rest[0])
    ensures ReadDigits(digits + rest, n) == ReadDigits(digits, n)
    decreases |digits|
  {
    if digits == "" {
      assert digits + rest == rest;
    } else {
      assert (digits + rest)[1..] == digits[1..] + rest;
      DigitsEnd(digits[1..], rest, n * 10 + (digits[0] as int - '0' as int));
    }
  }

  lemma SignedReads(sign: string, digits: string, rest: string)
    requires sign == "" || sign == "+" || sign == "-"
    requires digits != "" && forall i :: 0 <= i < |digits| ==> IsDigit(digits[i])
    requires rest == "" || !IsDigit(rest[0])
    ensures ReadNumber(sign + (digits + rest)) == Some(Read(sign == "-", ReadDigits(digits, 0)))
  {
    var t := sign + (digits + rest);
    assert t[0] == if sign == "" then digits[0] else sign[0];
    assert SkipSpaces(t) == t;
    if sign == "" {
      assert t == digits + rest;
    } else {
      assert t[1..] == digits + rest;
    }
    assert (digits + rest)[0] == digits[0];
    DigitsEnd(digits, rest, 0);
  }

  /**
   Blanks, a sign, a number and anything behind it: the number with its sign, or an exception when the type
   cannot hold it. The unsigned reading takes a minus sign as counting down from the top.
   */
  lemma NumberReads(spaces: string, sign: string, n: nat, rest: string)
    requires forall i :: 0 <= i < |spaces| ==> IsSpace(spaces[i])
    requires sign == "" || sign == "+" || sign == "-"
    requires rest == "" || !IsDigit(rest[0])
    ensures var text := spaces + (sign + (ToString(n) + rest));
            var value: int := if sign == "-" then -(n as int) else n;
            Stoll(text) == (if -0x8000_0000_0000_0000 <= value <= 0x7FFF_FFFF_FFFF_FFFF then Some(value) else None) &&
            (n > 0xFFFF_FFFF_FFFF_FFFF ==> Stoull(text) == None) &&
            (n <= 0xFFFF_FFFF_FFFF_FFFF ==>
               Stoull(text) == Some(if value < 0 then 0x1_0000_0000_0000_0000 - n else n))
  {
    var digits := ToString(n);
    var t := sign + (digits + rest);
    assert t[0] == if sign == "" then digits[0] else sign[0];
    assert IsDigit(digits[0]);
    SpacesSkipped(spaces, t);
    assert SkipSpaces(t) == t;
    SignedReads(sign, digits, rest);
    ReadPrinted(n);
  }

  /** Without a digit after blanks and sign there is no number. */
  lemma NoNumberReads(spaces: string, sign: string, rest: string)
    requires forall i :: 0 <= i < |spaces| ==> IsSpace(spaces[i])
    requires sign == "" || sign == "+" || sign == "-"
    requires rest == "" || (!IsDigit(rest[0]) && (sign == "" ==> !IsSpace(rest[0]) && rest[0] !in {'+', '-'}))
    ensures Stoll(spaces + (sign + rest)) == None && Stoull(spaces + (sign + rest)) == None
  {
    var t := sign + rest;
    assert t != "" ==> t[0] == if sign == "" then rest[0] else sign[0];
    SpacesSkipped(spaces, t);
    assert SkipSpaces(t) == t;
    assert sign != "" ==> t[1..] == rest;
  }
}
