/**
 The texts the appField parser accepts, as RFC 8259 writes its grammar down: which spellings a string, a
 number, a value and a document have. The parser reads a text exactly when it is one of them.
 */
module JsonGrammar {
  import opened Basics
  import opened Utf8
  import opened Json

  // ---- One character of a string ----

  /** A hexadecimal digit of either case. */
  predicate Hex(b: Byte, d: nat) {
    (d < 10 && b as int == 0x30 + d) || (10 <= d < 16 && (b as int == 0x41 + d - 10 || b as int == 0x61 + d - 10))
  }

  ghost predicate Quad(t: Bytes, n: nat) {
    |t| == 4 &&
    exists a: nat, b: nat, c: nat, d: nat ::
      Hex(t[0], a) && Hex(t[1], b) && Hex(t[2], c) && Hex(t[3], d) && n == a * 0x1000 + b * 0x100 + c * 0x10 + d
  }

  /** The letters that stand for one byte behind a backslash. */
  predicate Short(letter: Byte, b: Byte) {
    (letter == b && b in [0x22, 0x5C, 0x2F]) || (letter == 0x62 && b == 0x08) || (letter == 0x66 && b == 0x0C) ||
    (letter == 0x6E && b == 0x0A) || (letter == 0x72 && b == 0x0D) || (letter == 0x74 && b == 0x09)
  }

  predicate Plain(c: Scalar) {
    c >= 0x20 && c != 0x22 && c != 0x5C
  }

  ghost predicate Itself(t: Bytes, bytes: Bytes) {
    t == bytes && exists c: Scalar :: Plain(c) && t == Encode(c)
  }

  predicate Escaped(t: Bytes, bytes: Bytes) {
    |t| == 2 && t[0] == 0x5C && |bytes| == 1 && Short(t[1], bytes[0])
  }

  /** A number behind \u that is no surrogate. */
  ghost predicate Numbered(t: Bytes, bytes: Bytes) {
    |t| == 6 && t[0] == 0x5C && t[1] == 0x75 &&
    exists c: Scalar :: c < 0x1_0000 && Quad(t[2..], c) && bytes == Encode(c)
  }

  /** The two surrogates of a number above them. */
  ghost predicate Doubled(t: Bytes, bytes: Bytes) {
    |t| == 12 && t[0] == 0x5C && t[1] == 0x75 && t[6] == 0x5C && t[7] == 0x75 &&
    exists high: nat, low: nat :: Quad(t[2..6], high) && Quad(t[8..], low) && Paired(high, low, bytes)
  }

  predicate Paired(high: nat, low: nat, bytes: Bytes) {
    0xD800 <= high < 0xDC00 && 0xDC00 <= low < 0xE000 &&
    bytes == Encode(0x1_0000 + (high - 0xD800) * 0x400 + (low - 0xDC00))
  }

  /** A spelling of one character of a string (section 7 of RFC 8259). */
  ghost predicate SpellsOne(t: Bytes, bytes: Bytes) {
    Itself(t, bytes) || Escaped(t, bytes) || Numbered(t, bytes) || Doubled(t, bytes)
  }

  lemma HexExactly(b: Byte, d: nat)
    ensures HexValue(b) == Some(d) <==> Hex(b, d)
  {
  }

  lemma QuadExactly(s: Bytes, n: nat)
    ensures Hex4(s) == Some(n) <==> |s| >= 4 && Quad(s[..4], n)
  {
    if |s| >= 4 {
      if Hex4(s) == Some(n) {
        HexExactly(s[0], HexValue(s[0]).value);
        HexExactly(s[1], HexValue(s[1]).value);
        HexExactly(s[2], HexValue(s[2]).value);
        HexExactly(s[3], HexValue(s[3]).value);
      }
      if Quad(s[..4], n) {
        QuadIsRead(s, n);
      }
    }
  }

  lemma QuadIsRead(s: Bytes, n: nat)
    requires |s| >= 4 && Quad(s[..4], n)
    ensures Hex4(s) == Some(n)
  {
    var a: nat, b: nat, c: nat, d: nat :|
      Hex(s[0], a) && Hex(s[1], b) && Hex(s[2], c) && Hex(s[3], d) && n == a * 0x1000 + b * 0x100 + c * 0x10 + d;
    HexExactly(s[0], a);
    HexExactly(s[1], b);
    HexExactly(s[2], c);
    HexExactly(s[3], d);
  }

  // ---- The parser's pieces are the spellings ----

  lemma EscapeIsPiece(s: Bytes, piece: Piece)
    requires |s| >= 2 && s[0] == BACKSLASH && s[1] != 0x75
    ensures ParsePiece(s) == Some(piece) <==> piece.length == 2 && Escaped(s[..2], piece.bytes)
  {
    if piece.length == 2 && Escaped(s[..2], piece.bytes) {
      assert piece.bytes == [piece.bytes[0]];
    }
  }

  lemma NumberedIsPiece(s: Bytes, bytes: Bytes)
    requires |s| >= 6 && s[0] == BACKSLASH && s[1] == 0x75
    ensures ParsePiece(s) == Some(Piece(bytes, 6)) <==> Numbered(s[..6], bytes)
  {
    assert s[2..][..4] == s[..6][2..];
    if Hex4(s[2..]).Some? {
      QuadExactly(s[2..], Hex4(s[2..]).value);
    }
    if Numbered(s[..6], bytes) {
      var c: Scalar :| c < 0x1_0000 && Quad(s[..6][2..], c) && bytes == Encode(c);
      QuadExactly(s[2..], c);
    }
  }

  lemma DoubledIsPiece(s: Bytes, bytes: Bytes)
    requires |s| >= 12 && s[0] == BACKSLASH && s[1] == 0x75
    ensures ParsePiece(s) == Some(Piece(bytes, 12)) <==> Doubled(s[..12], bytes)
  {
    assert s[2..][..4] == s[..12][2..6] && s[8..][..4] == s[..12][8..];
    if Hex4(s[2..]).Some? && Hex4(s[8..]).Some? {
      var high, low := Hex4(s[2..]).value, Hex4(s[8..]).value;
      QuadExactly(s[2..], high);
      QuadExactly(s[8..], low);
      PairIsPiece(s, bytes, high, low);
    }
    if Doubled(s[..12], bytes) {
      var high: nat, low: nat :| Quad(s[..12][2..6], high) && Quad(s[..12][8..], low) && Paired(high, low, bytes);
      QuadExactly(s[2..], high);
      QuadExactly(s[8..], low);
    }
  }

  lemma PairIsPiece(s: Bytes, bytes: Bytes, high: nat, low: nat)
    requires |s| >= 12 && s[0] == BACKSLASH && s[1] == 0x75 && Hex4(s[2..]) == Some(high) && Hex4(s[8..]) == Some(low)
    ensures ParsePiece(s) == Some(Piece(bytes, 12)) <==> s[6] == BACKSLASH && s[7] == 0x75 && Paired(high, low, bytes)
  {
  }

  lemma UnicodeLength(s: Bytes)
    requires |s| >= 2 && s[0] == BACKSLASH && s[1] == 0x75 && ParsePiece(s).Some?
    ensures ParsePiece(s).value.length == 6 || ParsePiece(s).value.length == 12
  {
  }

  lemma ItselfIsPiece(s: Bytes, piece: Piece)
    requires s != [] && s[0] != BACKSLASH && s[0] != QUOTE
    ensures ParsePiece(s) == Some(piece) <==> piece.length <= |s| && Itself(s[..piece.length], piece.bytes)
  {
    if ParsePiece(s) == Some(piece) {
      WholeIsEncoded(s);
      assert Plain(DecodeFront(s));
    }
    if piece.length <= |s| && Itself(s[..piece.length], piece.bytes) {
      var c: Scalar :| Plain(c) && s[..piece.length] == Encode(c);
      EncodedIsWhole(c, s[piece.length..]);
      assert s == Encode(c) + s[piece.length..];
      assert s[0] == Encode(c)[0];
    }
  }

  /** One character of a string is taken exactly in one of its spellings. */
  lemma PieceExactly(s: Bytes, piece: Piece)
    requires s != [] && s[0] != QUOTE
    ensures ParsePiece(s) == Some(piece) <==> piece.length <= |s| && SpellsOne(s[..piece.length], piece.bytes)
  {
    if s[0] != BACKSLASH {
      ItselfIsPiece(s, piece);
    } else {
      if piece.length <= |s| {
        NoBackslashItself(s, piece);
      }
      if |s| >= 2 && s[1] != 0x75 {
        EscapeIsPiece(s, piece);
      } else if |s| >= 2 {
        if ParsePiece(s).Some? {
          UnicodeLength(s);
        }
        if |s| >= 6 {
          NumberedIsPiece(s, piece.bytes);
        }
        if |s| >= 12 {
          DoubledIsPiece(s, piece.bytes);
        }
      }
    }
  }

  lemma NoBackslashItself(s: Bytes, piece: Piece)
    requires s != [] && s[0] == BACKSLASH && piece.length <= |s|
    ensures !Itself(s[..piece.length], piece.bytes)
  {
  }

  // ---- A whole string ----

  /** One character after another, in some spelling of each. */
  ghost predicate Spelt(one: (Bytes, Bytes) -> bool, t: Bytes, bytes: Bytes)
    decreases |t|
  {
    if t == [] then bytes == []
    else
      exists n: nat, m: nat ::
        0 < n <= |t| && m <= |bytes| && one(t[..n], bytes[..m]) && Spelt(one, t[n..], bytes[m..])
  }

  ghost function One(): (Bytes, Bytes) -> bool {
    (t: Bytes, bytes: Bytes) => SpellsOne(t, bytes)
  }

  ghost predicate SpellsText(t: Bytes, bytes: Bytes) {
    Spelt(One(), t, bytes)
  }

  lemma SpellingStarts(t: Bytes, bytes: Bytes)
    requires SpellsOne(t, bytes) && t != []
    ensures t[0] != QUOTE
  {
    if Itself(t, bytes) {
      var c: Scalar :| Plain(c) && t == Encode(c);
    }
  }

  lemma BodyStep(s: Bytes, one: (Bytes, Bytes) -> bool, n: nat, bytes: Bytes)
    requires one == One() && 0 < n <= |s| && one(s[..n], bytes)
    ensures ParseStringBody(s) ==
            match ParseStringBody(s[n..])
            case None => None
            case Some(more) => Some(Parsed(bytes + more.item, more.rest))
    ensures s[0] != QUOTE
  {
    SpellingStarts(s[..n], bytes);
    PieceExactly(s, Piece(bytes, n));
  }

  lemma BodyStarts(s: Bytes, one: (Bytes, Bytes) -> bool) returns (piece: Piece)
    requires one == One() && ParseStringBody(s).Some? && s[0] != QUOTE
    ensures 0 < piece.length <= |s| && one(s[..piece.length], piece.bytes)
    ensures ParseStringBody(s[piece.length..]).Some?
    ensures var p, more := ParseStringBody(s).value, ParseStringBody(s[piece.length..]).value;
            p.item == piece.bytes + more.item && p.rest == more.rest
  {
    piece := ParsePiece(s).value;
    PieceExactly(s, piece);
  }

  lemma FrontOf(s: Bytes, n: nat, one: (Bytes, Bytes) -> bool, bytes: Bytes)
    returns (k: nat, front: Bytes, more: Bytes)
    requires 0 < n <= |s| && Spelt(one, s[..n], bytes)
    ensures 0 < k <= n && one(s[..k], front) && Spelt(one, s[k..][..n - k], more) && bytes == front + more
  {
    var t := s[..n];
    var i: nat, m: nat :|
      0 < i <= n && m <= |bytes| && one(t[..i], bytes[..m]) && Spelt(one, t[i..], bytes[m..]);
    k, front, more := i, bytes[..m], bytes[m..];
    assert t[..i] == s[..i] && t[i..] == s[i..][..n - i];
  }

  lemma Later(s: Bytes, k: nat, n: nat)
    requires k <= n < |s|
    ensures s[k..][n - k] == s[n] && s[k..][n - k + 1..] == s[n + 1..]
  {
  }

  lemma NothingSpelt(s: Bytes, one: (Bytes, Bytes) -> bool, bytes: Bytes)
    requires s != [] && s[0] == QUOTE && Spelt(one, s[..0], bytes)
    ensures ParseStringBody(s) == Some(Parsed(bytes, s[1..]))
  {
    assert s[..0] == [];
  }

  lemma {:induction false} TextIsRead(s: Bytes, n: nat, one: (Bytes, Bytes) -> bool, bytes: Bytes)
    requires one == One() && n < |s| && s[n] == QUOTE && Spelt(one, s[..n], bytes)
    ensures ParseStringBody(s) == Some(Parsed(bytes, s[n + 1..]))
    decreases n
  {
    if n == 0 {
      NothingSpelt(s, one, bytes);
    } else {
      var k, front, more := FrontOf(s, n, one, bytes);
      Later(s, k, n);
      BodyStep(s, one, k, front);
      TextIsRead(s[k..], n - k, one, more);
    }
  }

  lemma TextTogether(s: Bytes, n: nat, one: (Bytes, Bytes) -> bool, k: nat, front: Bytes, more: Bytes)
    requires 0 < k <= n <= |s| && one(s[..k], front) && Spelt(one, s[k..][..n - k], more)
    ensures Spelt(one, s[..n], front + more)
  {
    var t, bytes := s[..n], front + more;
    assert t[..k] == s[..k] && t[k..] == s[k..][..n - k];
    assert bytes[..|front|] == front && bytes[|front|..] == more;
  }

  lemma {:induction false} ReadIsText(s: Bytes, one: (Bytes, Bytes) -> bool, p: Parsed<Bytes>, n: nat)
    requires one == One() && ParseStringBody(s) == Some(p) && n == |s| - 1 - |p.rest|
    ensures n < |s| && s[n] == QUOTE && s[n + 1..] == p.rest && Spelt(one, s[..n], p.item)
    decreases |s|
  {
    if s[0] != QUOTE {
      var piece := BodyStarts(s, one);
      var k := piece.length;
      var more := ParseStringBody(s[k..]).value;
      ReadIsText(s[k..], one, more, n - k);
      assert s[k..][n - k] == s[n] && s[k..][n - k + 1..] == s[n + 1..];
      TextTogether(s, n, one, k, piece.bytes, more.item);
    }
  }

  /** A string is read exactly in its spellings, up to the quote that ends it. */
  lemma StringExactly(s: Bytes, bytes: Bytes, rest: Bytes)
    ensures ParseStringBody(s) == Some(Parsed(bytes, rest)) <==>
            exists n: nat :: n < |s| && s[n] == QUOTE && SpellsText(s[..n], bytes) && rest == s[n + 1..]
  {
    if ParseStringBody(s) == Some(Parsed(bytes, rest)) {
      ReadIsText(s, One(), Parsed(bytes, rest), |s| - 1 - |rest|);
    }
    if n: nat :| n < |s| && s[n] == QUOTE && SpellsText(s[..n], bytes) && rest == s[n + 1..] {
      TextIsRead(s, n, One(), bytes);
    }
  }

  // ---- A number ----

  predicate AllDigits(t: Bytes) {
    forall i :: 0 <= i < |t| ==> 0x30 <= t[i] <= 0x39
  }

  predicate Digits(t: Bytes) {
    t != [] && AllDigits(t)
  }

  /** No zero in front of another digit. */
  predicate Whole(t: Bytes) {
    Digits(t) && (t[0] == 0x30 ==> |t| == 1)
  }

  predicate Fraction(t: Bytes) {
    t == [] || (t[0] == 0x2E && Digits(t[1..]))
  }

  predicate Exponent(t: Bytes) {
    t == [] ||
    ((t[0] == 0x65 || t[0] == 0x45) &&
     (Digits(t[1..]) || (|t| > 1 && (t[1] == 0x2B || t[1] == 0x2D) && Digits(t[2..]))))
  }

  /** A number: sign, whole part, fraction and exponent (section 6 of RFC 8259). */
  predicate SpellsNumber(sign: Bytes, whole: Bytes, fraction: Bytes, exponent: Bytes) {
    (sign == [] || sign == [0x2D]) && Whole(whole) && Fraction(fraction) && Exponent(exponent)
  }

  ghost predicate IsNumber(t: Bytes) {
    exists sign: Bytes, whole: Bytes, fraction: Bytes, exponent: Bytes ::
      SpellsNumber(sign, whole, fraction, exponent) && t == sign + (whole + (fraction + exponent))
  }

  /** A text that cannot go on with the number, word or string before it. */
  predicate Stops(rest: Bytes) {
    rest == [] || Blank(rest[0]) || rest[0] == COMMA || rest[0] == CLOSE || rest[0] == 0x5D || rest[0] == 0
  }

  predicate NoDigitNext(rest: Bytes) {
    rest == [] || !(0x30 <= rest[0] <= 0x39)
  }

  lemma {:induction false} DigitsSkipped(t: Bytes, rest: Bytes)
    requires AllDigits(t) && NoDigitNext(rest)
    ensures SkipDigits(t + rest) == rest
  {
    if t == [] {
      assert t + rest == rest;
    } else {
      assert (t + rest)[1..] == t[1..] + rest;
      DigitsSkipped(t[1..], rest);
    }
  }

  lemma {:induction false} SkippedAreDigits(s: Bytes) returns (n: nat)
    ensures n <= |s| && SkipDigits(s) == s[n..] && AllDigits(s[..n]) && NoDigitNext(s[n..])
  {
    if s != [] && 0x30 <= s[0] <= 0x39 {
      var k := SkippedAreDigits(s[1..]);
      n := k + 1;
      assert s[1..][k..] == s[n..] && s[..n] == [s[0]] + s[1..][..k];
    } else {
      n := 0;
    }
  }

  lemma ExponentEnds(exponent: Bytes, rest: Bytes)
    requires Exponent(exponent) && Stops(rest)
    ensures NoDigitNext(exponent + rest) && (exponent == [] ==> exponent + rest == rest)
    ensures exponent != [] ==> (exponent + rest)[0] == exponent[0] && (exponent + rest)[1..] == exponent[1..] + rest
  {
  }

  /** The part of ParseNumber behind the whole part. */
  function AfterWhole(whole: Bytes): Option<Bytes> {
    if whole != [] && whole[0] == 0x2E && !DigitFirst(whole[1..]) then None
    else AfterFraction(if whole != [] && whole[0] == 0x2E then SkipDigits(whole[1..]) else whole)
  }

  function AfterFraction(fraction: Bytes): Option<Bytes> {
    if fraction == [] || (fraction[0] != 0x65 && fraction[0] != 0x45) then Some(fraction)
    else
      var e := fraction[1..];
      var digits := if e != [] && (e[0] == 0x2B || e[0] == 0x2D) then e[1..] else e;
      if DigitFirst(digits) then Some(SkipDigits(digits)) else None
  }

  lemma NumberInParts(s: Bytes)
    ensures ParseNumber(s) ==
            var t := if s != [] && s[0] == 0x2D then s[1..] else s;
            if !DigitFirst(t) then None else AfterWhole(if t[0] == 0x30 then t[1..] else SkipDigits(t[1..]))
  {
  }

  lemma DigitsThen(digits: Bytes, rest: Bytes)
    requires Digits(digits) && NoDigitNext(rest)
    ensures DigitFirst(digits + rest) && SkipDigits(digits + rest) == rest && (digits + rest)[0] == digits[0]
  {
    DigitsSkipped(digits, rest);
  }

  lemma Behind(b: Byte, t: Bytes, rest: Bytes)
    requires t != [] && t[0] == b
    ensures t + rest == [b] + (t[1..] + rest) && (t + rest)[1..] == t[1..] + rest && (t + rest)[0] == b
  {
  }

  lemma ExponentIsRead(exponent: Bytes, rest: Bytes)
    requires Exponent(exponent) && Stops(rest)
    ensures AfterFraction(exponent + rest) == Some(rest)
  {
    ExponentEnds(exponent, rest);
    if exponent != [] {
      Behind(exponent[0], exponent, rest);
      if Digits(exponent[1..]) {
        DigitsThen(exponent[1..], rest);
      } else {
        Behind(exponent[1], exponent[1..], rest);
        assert exponent[1..][1..] == exponent[2..];
        DigitsThen(exponent[2..], rest);
      }
    }
  }

  lemma FractionIsRead(fraction: Bytes, exponent: Bytes, rest: Bytes)
    requires Fraction(fraction) && Exponent(exponent) && Stops(rest)
    ensures AfterWhole(fraction + (exponent + rest)) == Some(rest)
    ensures NoDigitNext(fraction + (exponent + rest))
  {
    ExponentEnds(exponent, rest);
    ExponentIsRead(exponent, rest);
    TailIsRead(fraction, exponent + rest, rest);
  }

  lemma TailIsRead(fraction: Bytes, tail: Bytes, rest: Bytes)
    requires Fraction(fraction) && NoDigitNext(tail) && AfterFraction(tail) == Some(rest)
    requires tail == [] || tail[0] != 0x2E
    ensures AfterWhole(fraction + tail) == Some(rest) && NoDigitNext(fraction + tail)
  {
    if fraction == [] {
      assert fraction + tail == tail;
    } else {
      Behind(0x2E, fraction, tail);
      DigitsThen(fraction[1..], tail);
    }
  }

  lemma NumberIsRead(sign: Bytes, whole: Bytes, fraction: Bytes, exponent: Bytes, rest: Bytes)
    requires SpellsNumber(sign, whole, fraction, exponent) && Stops(rest)
    ensures ParseNumber(sign + (whole + (fraction + (exponent + rest)))) == Some(rest)
  {
    var tail := fraction + (exponent + rest);
    var t := whole + tail;
    FractionIsRead(fraction, exponent, rest);
    NumberInParts(sign + t);
    assert t[0] == whole[0] && t[1..] == whole[1..] + tail;
    assert sign + t == if sign == [] then t else [0x2D] + t;
    DigitsSkipped(whole[1..], tail);
    assert |whole| == 1 ==> t[1..] == tail;
  }

  lemma ReadIsDigits(s: Bytes) returns (digits: Bytes)
    requires DigitFirst(s)
    ensures Digits(digits) && s == digits + SkipDigits(s)
  {
    var n := SkippedAreDigits(s);
    digits := s[..n];
  }

  lemma ExponentOf(e: Byte, sign: Bytes, digits: Bytes)
    requires e == 0x65 || e == 0x45
    requires (sign == [] || sign == [0x2B] || sign == [0x2D]) && Digits(digits)
    ensures Exponent([e] + sign + digits)
  {
    var t := [e] + sign + digits;
    assert t[1 + |sign|..] == digits;
  }

  lemma SignApart(e: Bytes) returns (sign: Bytes, after: Bytes)
    ensures e == sign + after && (sign == [] || sign == [0x2B] || sign == [0x2D])
    ensures after == if e != [] && (e[0] == 0x2B || e[0] == 0x2D) then e[1..] else e
  {
    if e != [] && (e[0] == 0x2B || e[0] == 0x2D) {
      sign, after := [e[0]], e[1..];
    } else {
      sign, after := [], e;
    }
  }

  lemma ReadIsExponent(s: Bytes) returns (exponent: Bytes)
    requires AfterFraction(s).Some?
    ensures Exponent(exponent) && s == exponent + AfterFraction(s).value
  {
    if s == [] || (s[0] != 0x65 && s[0] != 0x45) {
      exponent := [];
    } else {
      var sign, after := SignApart(s[1..]);
      var digits := ReadIsDigits(after);
      ExponentOf(s[0], sign, digits);
      exponent := [s[0]] + sign + digits;
      ExponentTogether(s, sign, digits, SkipDigits(after));
    }
  }

  lemma ExponentTogether(s: Bytes, sign: Bytes, digits: Bytes, rest: Bytes)
    requires s != [] && s[1..] == sign + (digits + rest)
    ensures s == [s[0]] + sign + digits + rest
  {
    assert s == [s[0]] + s[1..];
    Assoc([s[0]], sign, digits + rest);
    Assoc([s[0]] + sign, digits, rest);
  }

  lemma ReadIsFraction(s: Bytes) returns (fraction: Bytes, exponent: Bytes)
    requires AfterWhole(s).Some?
    ensures Fraction(fraction) && Exponent(exponent) && s == fraction + (exponent + AfterWhole(s).value)
  {
    if s != [] && s[0] == 0x2E {
      var n := SkippedAreDigits(s[1..]);
      fraction := s[..n + 1];
      assert fraction[1..] == s[1..][..n] && s[1..][n..] == s[n + 1..];
      exponent := ReadIsExponent(s[n + 1..]);
    } else {
      fraction := [];
      exponent := ReadIsExponent(s);
    }
  }

  lemma ReadIsWhole(t: Bytes) returns (n: nat)
    requires DigitFirst(t)
    ensures 0 < n <= |t| && Whole(t[..n]) && t[n..] == if t[0] == 0x30 then t[1..] else SkipDigits(t[1..])
  {
    if t[0] == 0x30 {
      n := 1;
    } else {
      var k := SkippedAreDigits(t[1..]);
      n := k + 1;
      assert t[1..][k..] == t[n..] && t[..n] == [t[0]] + t[1..][..k];
    }
  }

  lemma ReadIsUnsigned(t: Bytes, rest: Bytes) returns (whole: Bytes, fraction: Bytes, exponent: Bytes)
    requires DigitFirst(t) && AfterWhole(if t[0] == 0x30 then t[1..] else SkipDigits(t[1..])) == Some(rest)
    ensures SpellsNumber([], whole, fraction, exponent)
    ensures |whole| <= |t| && t[..|whole|] == whole && t[|whole|..] == fraction + (exponent + rest)
  {
    var n := ReadIsWhole(t);
    whole := t[..n];
    fraction, exponent := ReadIsFraction(t[n..]);
  }

  lemma ReadIsNumber(s: Bytes, rest: Bytes)
    requires ParseNumber(s) == Some(rest)
    ensures |rest| <= |s| && IsNumber(s[..|s| - |rest|]) && s[|s| - |rest|..] == rest
  {
    NumberInParts(s);
    var sign: Bytes := if s != [] && s[0] == 0x2D then [0x2D] else [];
    var whole, fraction, exponent := ReadIsUnsigned(s[|sign|..], rest);
    NumberFound(s, sign, whole, fraction, exponent, rest);
  }

  lemma NumberFound(s: Bytes, sign: Bytes, whole: Bytes, fraction: Bytes, exponent: Bytes, rest: Bytes)
    requires SpellsNumber(sign, whole, fraction, exponent)
    requires |sign| + |whole| <= |s| && s[..|sign|] == sign && s[|sign|..][..|whole|] == whole
    requires s[|sign|..][|whole|..] == fraction + (exponent + rest)
    ensures |rest| <= |s| && IsNumber(s[..|s| - |rest|]) && s[|s| - |rest|..] == rest
  {
    var text := sign + (whole + (fraction + exponent));
    assert s == sign + (whole + (fraction + (exponent + rest)));
    assert s == text + rest;
  }

  // ---- Values ----

  predicate AllBlank(t: Bytes) {
    forall i :: 0 <= i < |t| ==> Blank(t[i])
  }

  /** A text between two marks. */
  predicate Between(t: Bytes, first: Byte, last: Byte) {
    |t| >= 2 && t[0] == first && t[|t| - 1] == last
  }

  function Inside(t: Bytes): Bytes
    requires |t| >= 2
  {
    t[1..|t| - 1]
  }

  /** A value's own text, nothing around it (sections 3 to 7 of RFC 8259). */
  ghost predicate SpellsValue(v: Value, t: Bytes)
    decreases v, 0
  {
    match v
    case Atom => t == TRUE || t == FALSE || t == NULL || IsNumber(t)
    case Str(text) => Between(t, 0x22, 0x22) && SpellsText(Inside(t), text)
    case Arr(items) =>
      Between(t, 0x5B, 0x5D) && (if items.NoItems? then AllBlank(Inside(t)) else SpellsItems(items, Inside(t)))
    case Obj(members) =>
      Between(t, 0x7B, 0x7D) && (if members.NoMembers? then AllBlank(Inside(t)) else SpellsMembers(members, Inside(t)))
  }

  /** A value with blanks around it. */
  ghost predicate SpellsPadded(v: Value, t: Bytes)
    decreases v, 1
  {
    exists before: Bytes, text: Bytes, after: Bytes ::
      AllBlank(before) && AllBlank(after) && t == before + text + after && SpellsValue(v, text)
  }

  /** Values with commas between. */
  ghost predicate SpellsItems(items: Items, t: Bytes)
    requires items.Item?
    decreases items, 0
  {
    if items.tail.NoItems? then SpellsPadded(items.head, t)
    else
      exists one: Bytes, others: Bytes ::
        t == one + [COMMA] + others && SpellsPadded(items.head, one) && SpellsItems(items.tail, others)
  }

  /** The pieces of a member's text. */
  datatype MemberText = MemberText(before: Bytes, text: Bytes, after: Bytes, value: Bytes)

  function Joined(m: MemberText): Bytes {
    m.before + [QUOTE] + m.text + [QUOTE] + m.after + [COLON] + m.value
  }

  /** A string, a colon and a value, with blanks around each. */
  ghost predicate SpellsMember(key: Bytes, v: Value, t: Bytes)
    decreases v, 2
  {
    exists m: MemberText ::
      AllBlank(m.before) && AllBlank(m.after) && SpellsText(m.text, key) && SpellsPadded(v, m.value) && t == Joined(m)
  }

  /** Members with commas between. */
  ghost predicate SpellsMembers(members: Members, t: Bytes)
    requires members.Member?
    decreases members, 0
  {
    if members.tail.NoMembers? then SpellsMember(members.key, members.value, t)
    else
      exists one: Bytes, others: Bytes ::
        t == one + [COMMA] + others && SpellsMember(members.key, members.value, one) &&
        SpellsMembers(members.tail, others)
  }

  // ---- Every spelling is read ----

  lemma {:induction false} BlanksSkipped(blanks: Bytes, rest: Bytes)
    requires AllBlank(blanks)
    ensures Skip(blanks + rest) == Skip(rest)
  {
    if blanks == [] {
      assert blanks + rest == rest;
    } else {
      assert (blanks + rest)[1..] == blanks[1..] + rest;
      BlanksSkipped(blanks[1..], rest);
    }
  }

  lemma Expected(blanks: Bytes, b: Byte, rest: Bytes)
    requires AllBlank(blanks) && !Blank(b)
    ensures Expect(blanks + ([b] + rest), b) == Some(rest)
    ensures forall c :: c != b ==> Expect(blanks + ([b] + rest), c) == None
  {
    BlanksSkipped(blanks, [b] + rest);
  }

  /** The parse of a value depends on no blanks in front of it. */
  lemma ValueSkips(blanks: Bytes, s: Bytes)
    requires AllBlank(blanks)
    ensures ParseValue(blanks + s) == ParseValue(s)
  {
    BlanksSkipped(blanks, s);
    SkipTwice(s);
    SkipTwice(blanks + s);
  }

  lemma {:induction false} SkipTwice(s: Bytes)
    ensures Skip(Skip(s)) == Skip(s) && (Skip(s) != [] ==> !Blank(Skip(s)[0]))
  {
    if s != [] && Blank(s[0]) {
      SkipTwice(s[1..]);
    }
  }

  lemma NumberStarts(t: Bytes)
    requires IsNumber(t)
    ensures t != [] && (t[0] == 0x2D || 0x30 <= t[0] <= 0x39)
  {
    var sign: Bytes, whole: Bytes, fraction: Bytes, exponent: Bytes :|
      SpellsNumber(sign, whole, fraction, exponent) && t == sign + (whole + (fraction + exponent));
    assert t[0] == if sign == [] then whole[0] else 0x2D;
  }

  lemma FourParts(sign: Bytes, whole: Bytes, fraction: Bytes, exponent: Bytes, rest: Bytes)
    ensures sign + (whole + (fraction + exponent)) + rest == sign + (whole + (fraction + (exponent + rest)))
  {
    Assoc(fraction, exponent, rest);
    Assoc(whole, fraction + exponent, rest);
    Assoc(sign, whole + (fraction + exponent), rest);
  }

  lemma NumberTextIsRead(t: Bytes, rest: Bytes)
    requires IsNumber(t) && Stops(rest)
    ensures ParseNumber(t + rest) == Some(rest)
  {
    var sign: Bytes, whole: Bytes, fraction: Bytes, exponent: Bytes :|
      SpellsNumber(sign, whole, fraction, exponent) && t == sign + (whole + (fraction + exponent));
    NumberIsRead(sign, whole, fraction, exponent, rest);
    FourParts(sign, whole, fraction, exponent, rest);
  }

  /** A text that starts a word or a number. */
  predicate Bare(t: Bytes) {
    t != [] && !Blank(t[0]) && t[0] != QUOTE && t[0] != OPEN && t[0] != 0x5B
  }

  lemma BareValue(s: Bytes)
    requires Bare(s)
    ensures ParseValue(s) == ParseAtom(s)
  {
    assert Skip(s) == s;
  }

  lemma WordIsRead(t: Bytes, rest: Bytes)
    requires t == TRUE || t == FALSE || t == NULL
    ensures Bare(t) && ParseAtom(t + rest) == Some(Parsed(Atom, rest))
  {
    assert (t + rest)[0] == t[0] && t <= t + rest && (t + rest)[|t|..] == rest;
  }

  lemma NumberIsAtom(t: Bytes, rest: Bytes)
    requires IsNumber(t) && Stops(rest)
    ensures Bare(t) && ParseAtom(t + rest) == Some(Parsed(Atom, rest))
  {
    NumberStarts(t);
    NumberTextIsRead(t, rest);
    assert (t + rest)[0] == t[0];
  }

  lemma AtomIsRead(t: Bytes, rest: Bytes)
    requires (t == TRUE || t == FALSE || t == NULL || IsNumber(t)) && Stops(rest)
    ensures ParseValue(t + rest) == Some(Parsed(Atom, rest))
  {
    if IsNumber(t) {
      NumberIsAtom(t, rest);
    } else {
      WordIsRead(t, rest);
    }
    assert (t + rest)[0] == t[0];
    BareValue(t + rest);
  }

  lemma StringIsRead(t: Bytes, text: Bytes, rest: Bytes)
    requires Between(t, QUOTE, QUOTE) && SpellsText(Inside(t), text)
    ensures ParseValue(t + rest) == Some(Parsed(Str(text), rest))
  {
    var s := t + rest;
    var n := |t| - 2;
    assert s[1..][..n] == Inside(t) && s[1..][n] == QUOTE && s[1..][n + 1..] == rest;
    TextIsRead(s[1..], n, One(), text);
    assert Skip(s) == s;
  }

  /** What may follow a value and the blanks behind it. */
  predicate Closes(rest: Bytes) {
    rest == [] || rest[0] == COMMA || rest[0] == CLOSE || rest[0] == 0x5D || rest[0] == 0
  }

  lemma NoValueCloses(s: Bytes)
    requires ParseValue(s).Some?
    ensures Expect(s, 0x5D) == None
  {
  }

  lemma BlanksThenStop(blanks: Bytes, rest: Bytes)
    requires AllBlank(blanks) && Closes(rest)
    ensures Stops(blanks + rest) && Skip(blanks + rest) == rest
  {
    BlanksSkipped(blanks, rest);
    if blanks == [] {
      assert blanks + rest == rest;
    }
  }

  lemma PaddedParts(v: Value, t: Bytes) returns (before: Bytes, text: Bytes, after: Bytes)
    requires SpellsPadded(v, t)
    ensures AllBlank(before) && AllBlank(after) && t == before + text + after && SpellsValue(v, text)
  {
    before, text, after :|
      AllBlank(before) && AllBlank(after) && t == before + text + after && SpellsValue(v, text);
  }

  lemma ThreeParts(before: Bytes, text: Bytes, after: Bytes, rest: Bytes)
    ensures before + text + after + rest == before + (text + (after + rest))
  {
    AssocFour(before, text, after, rest);
    Assoc(text, after, rest);
  }

  lemma {:induction false} PaddedIsRead(v: Value, t: Bytes, rest: Bytes) returns (left: Bytes)
    requires SpellsPadded(v, t) && Closes(rest)
    ensures ParseValue(t + rest) == Some(Parsed(v, left)) && Skip(left) == rest
    decreases v, 1
  {
    var before, text, after := PaddedParts(v, t);
    left := after + rest;
    BlanksThenStop(after, rest);
    ValueIsRead(v, text, left);
    ValueSkips(before, text + left);
    ThreeParts(before, text, after, rest);
  }

  lemma {:induction false} ValueIsRead(v: Value, t: Bytes, rest: Bytes)
    requires SpellsValue(v, t) && Stops(rest)
    ensures ParseValue(t + rest) == Some(Parsed(v, rest))
    decreases v, 0
  {
    match v
    case Atom => AtomIsRead(t, rest);
    case Str(text) => StringIsRead(t, text, rest);
    case Arr(items) => ArrayIsRead(items, t, rest);
    case Obj(members) => ObjectIsRead(members, t, rest);
  }

  lemma Opened(t: Bytes, rest: Bytes, last: Byte)
    requires |t| >= 2 && t[|t| - 1] == last
    ensures (t + rest)[1..] == Inside(t) + ([last] + rest) && (t + rest)[0] == t[0]
  {
  }

  lemma {:induction false} ArrayIsRead(items: Items, t: Bytes, rest: Bytes)
    requires Between(t, 0x5B, 0x5D)
    requires if items.NoItems? then AllBlank(Inside(t)) else SpellsItems(items, Inside(t))
    ensures ParseValue(t + rest) == Some(Parsed(Arr(items), rest))
    decreases items, 1
  {
    var s := t + rest;
    Opened(t, rest, 0x5D);
    assert Skip(s) == s;
    if items.NoItems? {
      Expected(Inside(t), 0x5D, rest);
    } else {
      ItemsAreRead(items, Inside(t), rest);
      NoValueCloses(s[1..]);
    }
  }

  lemma LastItem(s: Bytes, v: Value, left: Bytes, rest: Bytes)
    requires ParseValue(s) == Some(Parsed(v, left)) && Skip(left) == [0x5D] + rest
    ensures ParseItems(s) == Some(Parsed(Item(v, NoItems), rest))
  {
    assert Expect(left, 0x5D) == Some(rest);
  }

  lemma NextItem(s: Bytes, v: Value, left: Bytes, rest: Bytes)
    requires ParseValue(s) == Some(Parsed(v, left)) && Skip(left) == [COMMA] + rest
    ensures ParseItems(s) ==
            match ParseItems(rest)
            case None => None
            case Some(more) => Some(Parsed(Item(v, more.item), more.rest))
  {
    assert Expect(left, COMMA) == Some(rest) && Expect(left, 0x5D) == None;
  }

  lemma ItemsParts(items: Items, t: Bytes) returns (one: Bytes, others: Bytes)
    requires items.Item? && items.tail.Item? && SpellsItems(items, t)
    ensures t == one + [COMMA] + others && SpellsPadded(items.head, one) && SpellsItems(items.tail, others)
  {
    one, others :| t == one + [COMMA] + others && SpellsPadded(items.head, one) && SpellsItems(items.tail, others);
  }

  lemma {:induction false} ItemsAreRead(items: Items, t: Bytes, rest: Bytes)
    requires items.Item? && SpellsItems(items, t)
    ensures ParseItems(t + ([0x5D] + rest)) == Some(Parsed(items, rest))
    decreases items, 0
  {
    var end := [0x5D] + rest;
    if items.tail.NoItems? {
      var left := PaddedIsRead(items.head, t, end);
      LastItem(t + end, items.head, left, rest);
    } else {
      var one, others := ItemsParts(items, t);
      var left := PaddedIsRead(items.head, one, [COMMA] + (others + end));
      ThreeParts(one, [COMMA], others, end);
      NextItem(t + end, items.head, left, others + end);
      ItemsAreRead(items.tail, others, rest);
    }
  }

  /** What a member's parse finds, step by step: the key's text, the key, the colon, the value. */
  datatype Found = Found(inKey: Bytes, afterKey: Bytes, afterColon: Bytes, left: Bytes)

  predicate FoundIn(s: Bytes, key: Bytes, v: Value, f: Found) {
    Expect(s, QUOTE) == Some(f.inKey) && ParseStringBody(f.inKey) == Some(Parsed(key, f.afterKey)) &&
    Expect(f.afterKey, COLON) == Some(f.afterColon) && ParseValue(f.afterColon) == Some(Parsed(v, f.left))
  }

  lemma MemberParts(key: Bytes, v: Value, t: Bytes) returns (m: MemberText)
    requires SpellsMember(key, v, t)
    ensures AllBlank(m.before) && AllBlank(m.after) && SpellsText(m.text, key)
    ensures SpellsPadded(v, m.value) && t == Joined(m)
  {
    m :| AllBlank(m.before) && AllBlank(m.after) && SpellsText(m.text, key) && SpellsPadded(v, m.value) &&
         t == Joined(m);
  }

  /** A member's text, taken apart from the front. */
  lemma JoinedFromFront(m: MemberText, rest: Bytes)
    ensures Joined(m) + rest ==
            m.before + ([QUOTE] + (m.text + ([QUOTE] + (m.after + ([COLON] + (m.value + rest))))))
  {
    var tail := m.value + rest;
    ThreeParts(m.before, [QUOTE], m.text, [QUOTE] + (m.after + ([COLON] + tail)));
    ThreeParts(m.before + [QUOTE] + m.text, [QUOTE], m.after, [COLON] + tail);
    ThreeParts(m.before + [QUOTE] + m.text + [QUOTE] + m.after, [COLON], m.value, rest);
  }

  /** Where the parse of a member's text gets to. */
  function Stages(m: MemberText, rest: Bytes, left: Bytes): Found {
    var afterColon := m.value + rest;
    var afterKey := m.after + ([COLON] + afterColon);
    Found(m.text + ([QUOTE] + afterKey), afterKey, afterColon, left)
  }

  lemma JoinedIsFound(m: MemberText, key: Bytes, v: Value, rest: Bytes, left: Bytes)
    requires AllBlank(m.before) && AllBlank(m.after) && SpellsText(m.text, key)
    requires ParseValue(m.value + rest) == Some(Parsed(v, left))
    ensures FoundIn(Joined(m) + rest, key, v, Stages(m, rest, left))
  {
    var f := Stages(m, rest, left);
    JoinedFromFront(m, rest);
    Expected(m.before, QUOTE, f.inKey);
    Expected(m.after, COLON, f.afterColon);
    KeyIsRead(m.text, key, f.inKey, f.afterKey);
  }

  lemma {:induction false} MemberIsRead(key: Bytes, v: Value, t: Bytes, rest: Bytes) returns (f: Found)
    requires SpellsMember(key, v, t) && Closes(rest)
    ensures FoundIn(t + rest, key, v, f) && Skip(f.left) == rest
    decreases v, 2
  {
    var m := MemberParts(key, v, t);
    var left := PaddedIsRead(v, m.value, rest);
    JoinedIsFound(m, key, v, rest, left);
    f := Stages(m, rest, left);
  }

  lemma KeyIsRead(text: Bytes, key: Bytes, s: Bytes, rest: Bytes)
    requires SpellsText(text, key) && s == text + ([QUOTE] + rest)
    ensures ParseStringBody(s) == Some(Parsed(key, rest))
  {
    assert s[..|text|] == text && s[|text|] == QUOTE && s[|text| + 1..] == rest;
    TextIsRead(s, |text|, One(), key);
  }

  lemma LastMember(s: Bytes, key: Bytes, v: Value, f: Found, rest: Bytes)
    requires FoundIn(s, key, v, f) && Skip(f.left) == [CLOSE] + rest
    ensures ParseMembers(s) == Some(Parsed(Member(key, v, NoMembers), rest))
  {
    assert Expect(f.left, CLOSE) == Some(rest);
  }

  lemma NextMember(s: Bytes, key: Bytes, v: Value, f: Found, rest: Bytes)
    requires FoundIn(s, key, v, f) && Skip(f.left) == [COMMA] + rest
    ensures ParseMembers(s) ==
            match ParseMembers(rest)
            case None => None
            case Some(more) => Some(Parsed(Member(key, v, more.item), more.rest))
  {
    assert Expect(f.left, COMMA) == Some(rest) && Expect(f.left, CLOSE) == None;
  }

  lemma MembersParts(members: Members, t: Bytes) returns (one: Bytes, others: Bytes)
    requires members.Member? && members.tail.Member? && SpellsMembers(members, t)
    ensures t == one + [COMMA] + others && SpellsMember(members.key, members.value, one)
    ensures SpellsMembers(members.tail, others)
  {
    one, others :| t == one + [COMMA] + others && SpellsMember(members.key, members.value, one) &&
                   SpellsMembers(members.tail, others);
  }

  lemma {:induction false} MembersAreRead(members: Members, t: Bytes, rest: Bytes)
    requires members.Member? && SpellsMembers(members, t)
    ensures ParseMembers(t + ([CLOSE] + rest)) == Some(Parsed(members, rest))
    decreases members, 0
  {
    var end := [CLOSE] + rest;
    if members.tail.NoMembers? {
      var f := MemberIsRead(members.key, members.value, t, end);
      LastMember(t + end, members.key, members.value, f, rest);
    } else {
      var one, others := MembersParts(members, t);
      var f := MemberIsRead(members.key, members.value, one, [COMMA] + (others + end));
      ThreeParts(one, [COMMA], others, end);
      NextMember(t + end, members.key, members.value, f, others + end);
      MembersAreRead(members.tail, others, rest);
    }
  }

  lemma {:induction false} ObjectIsRead(members: Members, t: Bytes, rest: Bytes)
    requires Between(t, 0x7B, 0x7D)
    requires if members.NoMembers? then AllBlank(Inside(t)) else SpellsMembers(members, Inside(t))
    ensures ParseValue(t + rest) == Some(Parsed(Obj(members), rest))
    decreases members, 1
  {
    var s := t + rest;
    Opened(t, rest, 0x7D);
    assert Skip(s) == s;
    if members.NoMembers? {
      Expected(Inside(t), 0x7D, rest);
    } else {
      MembersAreRead(members, Inside(t), rest);
      assert Expect(s[1..], QUOTE).Some?;
    }
  }

  // ---- Whatever is read was spelt ----

  lemma {:induction false} SkippedBlanks(s: Bytes) returns (blanks: Bytes)
    ensures AllBlank(blanks) && s == blanks + Skip(s)
  {
    if s != [] && Blank(s[0]) {
      var more := SkippedBlanks(s[1..]);
      blanks := [s[0]] + more;
      assert s == [s[0]] + s[1..];
    } else {
      blanks := [];
    }
  }

  lemma ExpectedBlanks(s: Bytes, b: Byte, rest: Bytes) returns (blanks: Bytes)
    requires Expect(s, b) == Some(rest)
    ensures AllBlank(blanks) && s == blanks + ([b] + rest)
  {
    blanks := SkippedBlanks(s);
    assert Skip(s) == [b] + rest;
  }

  lemma ReadIsAtom(s: Bytes, rest: Bytes) returns (text: Bytes)
    requires ParseAtom(s).Some? && ParseAtom(s).value.rest == rest
    ensures s == text + rest && SpellsValue(Atom, text)
  {
    text := if TRUE <= s then TRUE else if FALSE <= s then FALSE else NULL;
    if !(TRUE <= s) && !(FALSE <= s) && !(NULL <= s) {
      ReadIsNumber(s, rest);
      text := s[..|s| - |rest|];
    }
  }

  lemma ReadIsString(t: Bytes, v: Value, rest: Bytes) returns (text: Bytes)
    requires t != [] && t[0] == QUOTE && ParseStringBody(t[1..]).Some?
    requires var p := ParseStringBody(t[1..]).value; v == Str(p.item) && rest == p.rest
    ensures t == text + rest && SpellsValue(v, text)
  {
    var n := |t| - 2 - |rest|;
    ReadIsText(t[1..], One(), Parsed(v.text, rest), n);
    text := t[..n + 2];
    assert Inside(text) == t[1..][..n] && t[1..][n] == t[n + 1] && t[1..][n + 1..] == t[n + 2..];
  }

  lemma {:induction false} ReadIsValue(s: Bytes, v: Value, rest: Bytes) returns (before: Bytes, text: Bytes)
    requires ParseValue(s) == Some(Parsed(v, rest))
    ensures AllBlank(before) && s == before + (text + rest) && SpellsValue(v, text)
    decreases |s|, 3
  {
    before := SkippedBlanks(s);
    SkipTwice(s);
    text := ReadIsBare(Skip(s), v, rest);
  }

  /** A value with no blanks in front. */
  lemma {:induction false} ReadIsBare(t: Bytes, v: Value, rest: Bytes) returns (text: Bytes)
    requires t != [] && !Blank(t[0]) && ParseValue(t) == Some(Parsed(v, rest))
    ensures t == text + rest && SpellsValue(v, text)
    decreases |t|, 2
  {
    assert Skip(t) == t;
    if t[0] == QUOTE {
      text := ReadIsString(t, v, rest);
    } else if t[0] == OPEN {
      text := ReadIsObject(t, v, rest);
    } else if t[0] == 0x5B {
      text := ReadIsArray(t, v, rest);
    } else {
      text := ReadIsAtom(t, rest);
    }
  }

  lemma Enclosed(first: Byte, inner: Bytes, last: Byte, rest: Bytes, t: Bytes) returns (text: Bytes)
    requires t != [] && t[0] == first && t[1..] == inner + ([last] + rest)
    ensures t == text + rest && Between(text, first, last) && Inside(text) == inner
  {
    text := [first] + inner + [last];
    assert t == [first] + t[1..];
  }

  lemma {:induction false} ReadIsArray(t: Bytes, v: Value, rest: Bytes) returns (text: Bytes)
    requires t != [] && t[0] == 0x5B && ParseValue(t) == Some(Parsed(v, rest))
    ensures t == text + rest && SpellsValue(v, text)
    decreases |t|, 1
  {
    assert Skip(t) == t;
    var inner: Bytes;
    if Expect(t[1..], 0x5D).Some? {
      inner := ExpectedBlanks(t[1..], 0x5D, rest);
    } else {
      inner := ReadIsItems(t[1..], v.items, rest);
    }
    text := Enclosed(0x5B, inner, 0x5D, rest, t);
  }

  lemma ReadIsPadded(s: Bytes, v: Value, left: Bytes, b: Byte, rest: Bytes, before: Bytes, text: Bytes)
    returns (padded: Bytes)
    requires Expect(left, b) == Some(rest) && s == before + (text + left) && AllBlank(before) && SpellsValue(v, text)
    ensures s == padded + ([b] + rest) && SpellsPadded(v, padded)
  {
    var after := ExpectedBlanks(left, b, rest);
    padded := before + text + after;
    ThreeParts(before, text, after, [b] + rest);
  }

  lemma ItemsTogether(items: Items, one: Bytes, others: Bytes, end: Bytes) returns (text: Bytes)
    requires items.Item? && items.tail.Item? && SpellsPadded(items.head, one) && SpellsItems(items.tail, others)
    ensures one + ([COMMA] + (others + end)) == text + end && SpellsItems(items, text)
  {
    text := one + [COMMA] + others;
    ThreeParts(one, [COMMA], others, end);
  }

  lemma {:induction false} ReadIsItems(s: Bytes, items: Items, rest: Bytes) returns (text: Bytes)
    requires ParseItems(s) == Some(Parsed(items, rest))
    ensures items.Item? && s == text + ([0x5D] + rest) && SpellsItems(items, text)
    decreases |s|, 4
  {
    var value := ParseValue(s).value;
    var before, head := ReadIsValue(s, value.item, value.rest);
    if Expect(value.rest, 0x5D).Some? {
      text := ReadIsPadded(s, items.head, value.rest, 0x5D, rest, before, head);
    } else {
      var afterComma := Expect(value.rest, COMMA).value;
      var one := ReadIsPadded(s, items.head, value.rest, COMMA, afterComma, before, head);
      var others := ReadIsItems(afterComma, items.tail, rest);
      text := ItemsTogether(items, one, others, [0x5D] + rest);
    }
  }

  lemma MemberSpelt(key: Bytes, v: Value, m: MemberText)
    requires AllBlank(m.before) && AllBlank(m.after) && SpellsText(m.text, key) && SpellsPadded(v, m.value)
    ensures SpellsMember(key, v, Joined(m))
  {
  }

  lemma KeyText(s: Bytes, key: Bytes, rest: Bytes) returns (text: Bytes)
    requires ParseStringBody(s) == Some(Parsed(key, rest))
    ensures SpellsText(text, key) && s == text + ([QUOTE] + rest)
  {
    var n := |s| - 1 - |rest|;
    ReadIsText(s, One(), Parsed(key, rest), n);
    SplitAt(s, n);
    text := s[..n];
  }

  lemma {:induction false} ReadIsMember(s: Bytes, key: Bytes, v: Value, f: Found, b: Byte, rest: Bytes)
    returns (text: Bytes)
    requires FoundIn(s, key, v, f) && Expect(f.left, b) == Some(rest)
    ensures s == text + ([b] + rest) && SpellsMember(key, v, text)
    decreases |s|, 4
  {
    var before := ExpectedBlanks(s, QUOTE, f.inKey);
    var keyText := KeyText(f.inKey, key, f.afterKey);
    var after := ExpectedBlanks(f.afterKey, COLON, f.afterColon);
    var ahead, value := ReadIsValue(f.afterColon, v, f.left);
    var padded := ReadIsPadded(f.afterColon, v, f.left, b, rest, ahead, value);
    var m := MemberText(before, keyText, after, padded);
    JoinedFromFront(m, [b] + rest);
    MemberSpelt(key, v, m);
    text := Joined(m);
  }

  lemma MembersTogether(members: Members, one: Bytes, others: Bytes, end: Bytes) returns (text: Bytes)
    requires members.Member? && members.tail.Member?
    requires SpellsMember(members.key, members.value, one) && SpellsMembers(members.tail, others)
    ensures one + ([COMMA] + (others + end)) == text + end && SpellsMembers(members, text)
  {
    text := one + [COMMA] + others;
    ThreeParts(one, [COMMA], others, end);
  }

  lemma FoundOf(s: Bytes) returns (f: Found)
    requires ParseMembers(s).Some?
    ensures FoundIn(s, ParseMembers(s).value.item.key, ParseMembers(s).value.item.value, f)
    ensures if Expect(f.left, CLOSE).Some?
            then ParseMembers(s).value.item.tail.NoMembers? && Expect(f.left, CLOSE) == Some(ParseMembers(s).value.rest)
            else Expect(f.left, COMMA).Some? &&
                 ParseMembers(Expect(f.left, COMMA).value) ==
                 Some(Parsed(ParseMembers(s).value.item.tail, ParseMembers(s).value.rest))
  {
    var inKey := Expect(s, QUOTE).value;
    var key := ParseStringBody(inKey).value;
    var afterColon := Expect(key.rest, COLON).value;
    var value := ParseValue(afterColon).value;
    f := Found(inKey, key.rest, afterColon, value.rest);
  }

  lemma {:induction false} ReadIsMembers(s: Bytes, members: Members, rest: Bytes) returns (text: Bytes)
    requires ParseMembers(s) == Some(Parsed(members, rest))
    ensures members.Member? && s == text + ([CLOSE] + rest) && SpellsMembers(members, text)
    decreases |s|, 5
  {
    var f := FoundOf(s);
    if Expect(f.left, CLOSE).Some? {
      text := ReadIsMember(s, members.key, members.value, f, CLOSE, rest);
    } else {
      var afterComma := Expect(f.left, COMMA).value;
      var one := ReadIsMember(s, members.key, members.value, f, COMMA, afterComma);
      var others := ReadIsMembers(afterComma, members.tail, rest);
      text := MembersTogether(members, one, others, [CLOSE] + rest);
    }
  }

  lemma {:induction false} ReadIsObject(t: Bytes, v: Value, rest: Bytes) returns (text: Bytes)
    requires t != [] && t[0] == OPEN && ParseValue(t) == Some(Parsed(v, rest))
    ensures t == text + rest && SpellsValue(v, text)
    decreases |t|, 1
  {
    assert Skip(t) == t;
    var inner: Bytes;
    if Expect(t[1..], CLOSE).Some? {
      inner := ExpectedBlanks(t[1..], CLOSE, rest);
    } else {
      inner := ReadIsMembers(t[1..], v.members, rest);
    }
    text := Enclosed(OPEN, inner, CLOSE, rest, t);
  }

  // ---- Documents ----

  /** The value and blanks take up the text, or all of it up to a NUL. */
  ghost predicate SpellsDocument(v: Value, s: Bytes, n: nat) {
    n <= |s| && (n == |s| || s[n] == 0) && SpellsPadded(v, s[..n])
  }

  lemma DocumentIsSpelt(s: Bytes, v: Value) returns (n: nat)
    requires ParseDocument(s) == Some(v)
    ensures SpellsDocument(v, s, n)
  {
    var rest := ParseValue(s).value.rest;
    var before, text := ReadIsValue(s, v, rest);
    var after := SkippedBlanks(rest);
    DocumentText(s, v, before, text, after, Skip(rest));
    n := |s| - |Skip(rest)|;
  }

  lemma DocumentIsRead(s: Bytes, v: Value, n: nat)
    requires SpellsDocument(v, s, n)
    ensures ParseDocument(s) == Some(v)
  {
    var left := PaddedIsRead(v, s[..n], s[n..]);
    assert s[..n] + s[n..] == s;
  }

  /**
   A text is read as a value exactly when it spells that value, with any blanks around it, up to its end or
   to the first NUL behind the value.
   */
  lemma DocumentExactly(s: Bytes, v: Value)
    ensures ParseDocument(s) == Some(v) <==> exists n: nat :: SpellsDocument(v, s, n)
  {
    if ParseDocument(s) == Some(v) {
      var n := DocumentIsSpelt(s, v);
    }
    if n: nat :| SpellsDocument(v, s, n) {
      DocumentIsRead(s, v, n);
    }
  }

  lemma DocumentText(s: Bytes, v: Value, before: Bytes, text: Bytes, after: Bytes, rest: Bytes)
    requires s == before + (text + (after + rest)) && AllBlank(before) && AllBlank(after) && SpellsValue(v, text)
    ensures |rest| <= |s| && s[|s| - |rest|..] == rest && SpellsPadded(v, s[..|s| - |rest|])
  {
    ThreeParts(before, text, after, rest);
    Cuts(before + text + after, rest);
  }
}
