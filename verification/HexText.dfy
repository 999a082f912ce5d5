/**
 Ids as hexadecimal text: the two copies of TryHexText, in friend_structs.cpp and baas_parsing.cpp,
 and TryCatalogId. Numbers are kept to 64 bits as the code's are.
 */
module HexText {
  import opened Basics

  const WORD := 0x1_0000_0000_0000_0000

  predicate IsHex(c: char) {
    '0' <= c <= '9' || 'a' <= c <= 'f' || 'A' <= c <= 'F'
  }

  function Nibble(c: char): (r: nat)
    requires IsHex(c)
    ensures r < 16
  {
    if c <= '9' then c as nat - '0' as nat
    else if c <= 'F' then c as nat - 'A' as nat + 10
    else c as nat - 'a' as nat + 10
  }

  /** Past the leading spaces. */
  function Spaceless(text: string): string {
    if text != "" && text[0] == ' ' then Spaceless(text[1..]) else text
  }

  function Unsigned(text: string): string {
    if text != "" && text[0] == '+' then text[1..] else text
  }

  function Unprefixed(text: string): string {
    if |text| >= 2 && text[0] == '0' && (text[1] == 'x' || text[1] == 'X') then text[2..] else text
  }

  /** The sixteen digits in order, small and capital, and nothing else. */
  lemma NibbleExactly(c: char)
    ensures IsHex(c) <==> c in "0123456789abcdef" || c in "0123456789ABCDEF"
    ensures forall k :: 0 <= k < 16 && (c == "0123456789abcdef"[k] || c == "0123456789ABCDEF"[k]) ==>
              IsHex(c) && Nibble(c) == k
  {
    var small, capital := "0123456789abcdef", "0123456789ABCDEF";
    assert forall k :: 0 <= k < 10 ==> small[k] as int == '0' as int + k && capital[k] == small[k];
    assert forall k :: 10 <= k < 16 ==> small[k] as int == 'a' as int + k - 10;
    assert forall k :: 10 <= k < 16 ==> capital[k] as int == 'A' as int + k - 10;
    if '0' <= c <= '9' {
      assert small[c as int - '0' as int] == c;
    } else if 'a' <= c <= 'f' {
      assert small[c as int - 'a' as int + 10] == c;
    } else if 'A' <= c <= 'F' {
      assert capital[c as int - 'A' as int + 10] == c;
    }
  }

  /** Where the digits start. */
  function Body(text: string): string {
    Unprefixed(Unsigned(Spaceless(text)))
  }

  /** How many hexadecimal digits lead. */
  function Digits(t: string): (r: nat)
    ensures r <= |t| && forall i :: 0 <= i < r ==> IsHex(t[i])
    ensures r < |t| ==> !IsHex(t[r])
  {
    if t == "" || !IsHex(t[0]) then 0 else 1 + Digits(t[1..])
  }

  predicate AllHex(s: string) {
    forall i :: 0 <= i < |s| ==> IsHex(s[i])
  }

  /** The number the digits spell, of any size. */
  function Value(s: string): nat
    requires AllHex(s)
  {
    if s == "" then 0 else Value(s[..|s| - 1]) * 16 + Nibble(s[|s| - 1])
  }

  /** One to sixteen digits; whatever follows them is not looked at. */
  function ReadHex(text: string): Option<nat> {
    var t := Body(text);
    if Digits(t) == 0 || Digits(t) > 16 then None else Some(Value(t[..Digits(t)]))
  }

  // ---- Sizes ----

  function Pow16(n: nat): (r: nat)
    ensures r > 0
  {
    if n == 0 then 1 else 16 * Pow16(n - 1)
  }

  lemma {:induction false} ValueBelow(s: string)
    requires AllHex(s)
    ensures Value(s) < Pow16(|s|)
  {
    if s != "" {
      ValueBelow(s[..|s| - 1]);
    }
  }

  lemma {:induction false} PowGrows(m: nat, n: nat)
    requires m <= n
    ensures Pow16(m) <= Pow16(n)
    decreases n - m
  {
    if m < n {
      PowGrows(m, n - 1);
    }
  }

  lemma PowSixteen()
    ensures Pow16(16) == WORD
  {
    assert Pow16(4) == 0x1_0000;
    assert Pow16(8) == 0x1_0000_0000;
    assert Pow16(12) == 0x1_0000_0000_0000;
  }

  lemma SixteenFit(s: string)
    requires AllHex(s) && |s| <= 16
    ensures Value(s) < WORD
  {
    ValueBelow(s);
    PowGrows(|s|, 16);
    PowSixteen();
  }

  lemma Remainder(m: nat, r: nat)
    requires r < WORD
    ensures (m * WORD + r) % WORD == r
  {
  }

  lemma NibbleFits(r: nat, d: nat, x: nat, nibble: nat)
    requires r < WORD && x == d * WORD + r && x % 16 == 0 && nibble < 16
    ensures r + nibble < WORD
  {
  }

  lemma Wraps(q: nat, x: nat, nibble: nat)
    requires nibble < 16 && x % 16 == 0
    ensures x % WORD + nibble == (q * WORD + x + nibble) % WORD
  {
    var d, r := x / WORD, x % WORD;
    assert x == d * WORD + r;
    NibbleFits(r, d, x, nibble);
    Remainder(q + d, r + nibble);
  }

  lemma ShiftWraps(before: nat, nibble: nat)
    requires nibble < 16
    ensures before % WORD * 16 % WORD + nibble == (before * 16 + nibble) % WORD
  {
    var q, r := before / WORD, before % WORD;
    assert before == q * WORD + r;
    assert r * 16 % 16 == 0;
    Wraps(q * 16, r * 16, nibble);
  }

  lemma ParsedStep(t: string, digits: nat, parsed: nat)
    requires digits < |t| && AllHex(t[..digits]) && IsHex(t[digits]) && parsed == Value(t[..digits]) % WORD
    ensures AllHex(t[..digits + 1])
    ensures parsed * 16 % WORD + Nibble(t[digits]) == Value(t[..digits + 1]) % WORD
  {
    assert t[..digits + 1][..digits] == t[..digits];
    assert forall i :: 0 <= i < digits ==> t[..digits][i] == t[i];
    ShiftWraps(Value(t[..digits]), Nibble(t[digits]));
  }

  // ---- The code ----

  method Start(text: string) returns (t: string)
    ensures t == Body(text)
  {
    t := text;
    while t != "" && t[0] == ' '
      invariant Spaceless(t) == Spaceless(text)
      decreases |t|
    {
      t := t[1..];
    }
    if t != "" && t[0] == '+' {
      t := t[1..];
    }
    if |t| >= 2 && t[0] == '0' && (t[1] == 'x' || t[1] == 'X') {
      t := t[2..];
    }
  }

  lemma {:induction false} DigitsAre(t: string, k: nat)
    requires k <= |t| && AllHex(t[..k]) && (k < |t| ==> !IsHex(t[k]))
    ensures Digits(t) == k
  {
    if k > 0 {
      assert t[..k][0] == t[0];
      assert t[1..][..k - 1] == t[..k][1..];
      DigitsAre(t[1..], k - 1);
    }
  }

  /** The copy of friend_structs.cpp: shifts every digit in, however many, then counts them. */
  method TryHexText(text: string) returns (value: Option<nat>)
    ensures value == ReadHex(text)
    ensures value.Some? ==> value.value < WORD
  {
    var t := Start(text);
    var digits, parsed := 0, 0;
    while digits < |t| && IsHex(t[digits])
      invariant digits <= |t| && AllHex(t[..digits]) && parsed == Value(t[..digits]) % WORD
    {
      ParsedStep(t, digits, parsed);
      parsed := parsed * 16 % WORD + Nibble(t[digits]);
      digits := digits + 1;
    }
    DigitsAre(t, digits);
    if digits == 0 || digits > 16 {
      return None;
    }
    SixteenFit(t[..digits]);
    return Some(parsed);
  }

  lemma OneDigitMore(t: string, i: nat, n: nat)
    requires i < n <= |t| && n <= 16 && AllHex(t[..n])
    ensures AllHex(t[..i]) && IsHex(t[i]) && AllHex(t[..i + 1])
    ensures Value(t[..i]) * 16 % WORD + Nibble(t[i]) == Value(t[..i + 1])
  {
    assert t[..n][i] == t[i];
    assert forall j :: 0 <= j < i ==> t[..n][j] == t[j];
    assert t[..i + 1][..i] == t[..i];
    SixteenFit(t[..i + 1]);
  }

  /** The copy of baas_parsing.cpp: counts the digits first. */
  method TryHexTextCounted(text: string) returns (value: Option<nat>)
    ensures value == ReadHex(text)
    ensures value.Some? ==> value.value < WORD
  {
    var t := Start(text);
    var digits := 0;
    while digits < |t| && IsHex(t[digits])
      invariant digits <= |t| && AllHex(t[..digits])
    {
      digits := digits + 1;
    }
    DigitsAre(t, digits);
    if digits == 0 || digits > 16 {
      return None;
    }
    var parsed := 0;
    for i := 0 to digits
      invariant AllHex(t[..i]) && parsed == Value(t[..i])
    {
      OneDigitMore(t, i, digits);
      parsed := parsed * 16 % WORD + Nibble(t[i]);
    }
    SixteenFit(t[..digits]);
    return Some(parsed);
  }

  function ReadCatalogId(id: string): Option<(nat, nat)> {
    if |id| != 32 then None
    else
      match (ReadHex(id[..16]), ReadHex(id[16..]))
      case (Some(high), Some(low)) => Some((high, low))
      case _ => None
  }

  method TryCatalogId(id: string) returns (halves: Option<(nat, nat)>)
    ensures halves == ReadCatalogId(id)
  {
    if |id| != 32 {
      return None;
    }
    var high := TryHexText(id[..16]);
    if high.None? {
      return None;
    }
    var low := TryHexText(id[16..]);
    if low.None? {
      return None;
    }
    return Some((high.value, low.value));
  }

  // ---- What may stand around the digits ----

  lemma {:induction false} SpacesGo(spaces: string, text: string)
    requires forall i :: 0 <= i < |spaces| ==> spaces[i] == ' '
    requires text == "" || text[0] != ' '
    ensures Spaceless(spaces + text) == text
  {
    if spaces == "" {
      assert spaces + text == text;
    } else {
      assert (spaces + text)[1..] == spaces[1..] + text;
      SpacesGo(spaces[1..], text);
    }
  }

  lemma SignGoes(sign: string, text: string)
    requires sign == "" || sign == "+"
    requires text == "" || text[0] != '+'
    ensures Unsigned(sign + text) == text
  {
    assert sign + text == if sign == "" then text else ['+'] + text;
  }

  lemma PrefixGoes(prefix: string, text: string)
    requires prefix == "" || prefix == "0x" || prefix == "0X"
    requires prefix == "" ==> !(|text| >= 2 && text[0] == '0' && text[1] in {'x', 'X'})
    ensures Unprefixed(prefix + text) == text
  {
    if prefix == "" {
      assert prefix + text == text;
    } else {
      assert (prefix + text)[2..] == text;
    }
  }

  /**
   Spaces, one plus sign and one 0x may stand in front of the digits, and anything behind them; one to
   sixteen digits are the number they spell, no digit or more than sixteen are refused.
   */
  lemma DecoratedReads(spaces: string, sign: string, prefix: string, digits: string, rest: string)
    requires forall i :: 0 <= i < |spaces| ==> spaces[i] == ' '
    requires (sign == "" || sign == "+") && (prefix == "" || prefix == "0x" || prefix == "0X")
    requires AllHex(digits) && (rest != "" ==> !IsHex(rest[0]) && (digits == "" ==> rest[0] !in {' ', '+'}))
    requires prefix == "" ==> !(digits == "0" && rest != "" && rest[0] in {'x', 'X'})
    ensures ReadHex(spaces + (sign + (prefix + (digits + rest)))) ==
            if 1 <= |digits| <= 16 then Some(Value(digits)) else None
  {
    var t := digits + rest;
    assert t != "" ==> t[0] == if digits == "" then rest[0] else digits[0];
    assert |t| >= 2 ==> t[1] == if digits == "" then rest[1] else if |digits| == 1 then rest[0] else digits[1];
    assert prefix + t != "" ==> (prefix + t)[0] == if prefix == "" then t[0] else '0';
    assert sign + (prefix + t) != "" ==>
        (sign + (prefix + t))[0] == if sign == "" then (prefix + t)[0] else '+';
    SpacesGo(spaces, sign + (prefix + t));
    SignGoes(sign, prefix + t);
    PrefixGoes(prefix, t);
    Cuts(digits, rest);
    assert rest != "" ==> t[|digits|] == rest[0];
    DigitsAre(t, |digits|);
  }

  // ---- Printed ids come back ----

  function DigitChar(d: nat): (c: char)
    requires d < 16
    ensures IsHex(c) && Nibble(c) == d && c != 'x' && c != 'X'
  {
    if d < 10 then ('0' as int + d) as char else ('a' as int + d - 10) as char
  }

  /** The last `n` hexadecimal digits of a number, as {:016x} prints them. */
  function Printed(v: nat, n: nat): (r: string)
    ensures |r| == n && AllHex(r) && 'x' !in r && 'X' !in r
  {
    if n == 0 then "" else Printed(v / 16, n - 1) + [DigitChar(v % 16)]
  }

  lemma {:induction false} PrintedSpells(v: nat, n: nat)
    requires v < Pow16(n)
    ensures Value(Printed(v, n)) == v
  {
    if n > 0 {
      PrintedSpells(v / 16, n - 1);
      var s := Printed(v, n);
      assert s[..|s| - 1] == Printed(v / 16, n - 1);
    }
  }

  /** Every 64-bit id, printed with sixteen digits, reads back, whatever follows but another digit. */
  lemma PrintedIdReads(v: nat, rest: string)
    requires v < WORD && (rest != "" ==> !IsHex(rest[0]))
    ensures ReadHex(Printed(v, 16) + rest) == Some(v)
  {
    var digits := Printed(v, 16);
    var s := digits + rest;
    PowSixteen();
    PrintedSpells(v, 16);
    assert IsHex(digits[0]) && s[0] == digits[0];
    assert digits[1] in digits && s[1] == digits[1];
    assert Body(s) == s;
    Cuts(digits, rest);
    assert rest != "" ==> s[16] == rest[0];
    DigitsAre(s, 16);
  }

  /** A catalog id printed from its halves gives both back. */
  lemma CatalogIdRoundTrip(high: nat, low: nat)
    requires high < WORD && low < WORD
    ensures ReadCatalogId(Printed(high, 16) + Printed(low, 16)) == Some((high, low))
  {
    var a, b := Printed(high, 16), Printed(low, 16);
    Cuts(a, b);
    PrintedIdReads(high, "");
    PrintedIdReads(low, "");
    assert a + "" == a && b + "" == b;
  }
}
