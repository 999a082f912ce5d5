/**
 Base64 (section 4 of RFC 4648): the two encoders and the five differently written decoders of
 api.cpp, session.cpp, network_ceiling.cpp, baas_parsing.cpp and avatar.cpp.

 The reference speaks of places: which bits of which byte a six-bit digit holds, and back.
 */
module Base64 {
  import opened Basics

  type Digit = d: int | 0 <= d < 64

  const UPPER := "ABCDEFGHIJKLMNOPQRSTUVWXYZ"
  const LOWER := "abcdefghijklmnopqrstuvwxyz"
  const ALPHABET := UPPER + LOWER + "0123456789+/"

  // ---- The reference ----

  /** The four digits of three bytes. */
  function Group(a: Byte, b: Byte, c: Byte): (r: seq<Digit>)
    ensures |r| == 4
  {
    [a / 4, a as int % 4 * 16 + b / 16, b as int % 16 * 4 + c / 64, c % 64]
  }

  /** Four digits for every three bytes; a last group of one or two bytes is filled with zero bits. */
  function Digits(data: Bytes): seq<Digit> {
    if |data| == 0 then []
    else if |data| == 1 then Group(data[0], 0, 0)[..2]
    else if |data| == 2 then Group(data[0], data[1], 0)[..3]
    else Group(data[0], data[1], data[2]) + Digits(data[3..])
  }

  function Letters(digits: seq<Digit>): (r: string)
    ensures |r| == |digits|
  {
    if digits == [] then [] else [ALPHABET[digits[0]]] + Letters(digits[1..])
  }

  function Padding(n: nat): string {
    if n % 3 == 0 then "" else if n % 3 == 1 then "==" else "="
  }

  function Encode(data: Bytes): string {
    Letters(Digits(data)) + Padding(|data|)
  }

  function FirstByte(a: Digit, b: Digit): Byte {
    a as int * 4 + b / 16
  }

  function SecondByte(b: Digit, c: Digit): Byte {
    b as int % 16 * 16 + c / 4
  }

  function ThirdByte(c: Digit, d: Digit): Byte {
    c as int % 4 * 64 + d
  }

  /** The whole bytes some digits hold; bits left over are dropped. */
  function Unpack(digits: seq<Digit>): Bytes {
    if |digits| < 2 then []
    else if |digits| == 2 then [FirstByte(digits[0], digits[1])]
    else if |digits| == 3 then [FirstByte(digits[0], digits[1]), SecondByte(digits[1], digits[2])]
    else
      [FirstByte(digits[0], digits[1]), SecondByte(digits[1], digits[2]), ThirdByte(digits[2], digits[3])]
      + Unpack(digits[4..])
  }

  lemma GroupBytes(a: Byte, b: Byte, c: Byte, g: seq<Digit>)
    requires g == Group(a, b, c)
    ensures FirstByte(g[0], g[1]) == a && SecondByte(g[1], g[2]) == b && ThirdByte(g[2], g[3]) == c
  {
  }

  lemma GroupUnpacks(g: seq<Digit>, more: seq<Digit>)
    requires |g| == 4
    ensures Unpack(g[..2]) == [FirstByte(g[0], g[1])]
    ensures Unpack(g[..3]) == [FirstByte(g[0], g[1]), SecondByte(g[1], g[2])]
    ensures Unpack(g + more) ==
            [FirstByte(g[0], g[1]), SecondByte(g[1], g[2]), ThirdByte(g[2], g[3])] + Unpack(more)
  {
    assert (g + more)[4..] == more;
  }

  lemma {:induction false} UnpackDigits(data: Bytes)
    ensures Unpack(Digits(data)) == data
  {
    if data != [] {
      var a, b, c := data[0], if |data| > 1 then data[1] else 0, if |data| > 2 then data[2] else 0;
      GroupBytes(a, b, c, Group(a, b, c));
      if |data| < 3 {
        GroupUnpacks(Group(a, b, c), []);
      } else {
        GroupUnpacks(Group(a, b, c), Digits(data[3..]));
        UnpackDigits(data[3..]);
        assert data == [a, b, c] + data[3..];
      }
    }
  }

  // ---- Letters ----

  /** A letter's digit in the standard alphabet, or -1. */
  function Standard(c: char): (r: int)
    ensures -1 <= r < 64
  {
    if 'A' <= c <= 'Z' then c as int - 'A' as int
    else if 'a' <= c <= 'z' then c as int - 'a' as int + 26
    else if '0' <= c <= '9' then c as int - '0' as int + 52
    else if c == '+' then 62
    else if c == '/' then 63
    else -1
  }

  /** The same; with `url`, the two letters of the URL alphabet besides. */
  function Value(c: char, url: bool): (r: int)
    ensures -1 <= r < 64
  {
    if url && c == '-' then 62 else if url && c == '_' then 63 else Standard(c)
  }

  lemma UpperIsStandard(d: nat)
    requires d < 26
    ensures Standard(UPPER[d]) == d
  {
  }

  lemma LowerIsStandard(d: nat)
    requires d < 26
    ensures Standard(LOWER[d]) == d + 26
  {
  }

  lemma AlphabetIsStandard(d: Digit)
    ensures Standard(ALPHABET[d]) == d
  {
    if d < 26 {
      UpperIsStandard(d);
    } else if d < 52 {
      LowerIsStandard(d - 26);
    } else {
      assert ALPHABET[d] == "0123456789+/"[d - 52];
    }
  }

  /** The digits of the letters in a text, everything else passed over. */
  function Values(text: string, url: bool): (r: seq<Digit>)
    ensures |r| <= |text|
  {
    if text == "" then []
    else
      var before, c := Values(text[..|text| - 1], url), text[|text| - 1];
      if Value(c, url) < 0 then before else before + [Value(c, url)]
  }

  predicate AllLetters(text: string) {
    forall i :: 0 <= i < |text| ==> Standard(text[i]) >= 0
  }

  /** Trailing '=' signs, two at most. */
  function Pads(text: string): (r: nat)
    ensures r <= |text| && r <= 2
  {
    if text == "" || text[|text| - 1] != '=' then 0
    else if |text| < 2 || text[|text| - 2] != '=' then 1
    else 2
  }

  function Body(text: string): string {
    text[..|text| - Pads(text)]
  }

  /** A length of whole quads, and nothing but standard letters once the padding is off. */
  predicate WellFormed(text: string) {
    |text| % 4 == 0 && AllLetters(Body(text))
  }

  /** What a strict reader makes of a text: nothing at all unless it is well formed. */
  function StrictOf(text: string): Option<Bytes> {
    if WellFormed(text) then Some(Unpack(Values(Body(text), false))) else None
  }

  // ---- Accumulating bits ----

  /** Twice the bits that wait after some digits, and the number those bits are. */
  function WaitingBits(digits: seq<Digit>): nat {
    match |digits| % 4 case 0 => 0 case 1 => 6 case 2 => 4 case _ => 2
  }

  function Waiting(digits: seq<Digit>): int {
    match |digits| % 4
    case 0 => 0
    case 1 => digits[|digits| - 1]
    case 2 => digits[|digits| - 1] % 16
    case _ => digits[|digits| - 1] % 4
  }

  /** The byte one more digit completes. */
  function NextByte(digits: seq<Digit>, d: Digit): Bytes {
    if |digits| % 4 == 0 then []
    else
      var last := digits[|digits| - 1];
      match |digits| % 4
      case 1 => [FirstByte(last, d)]
      case 2 => [SecondByte(last, d)]
      case _ => [ThirdByte(last, d)]
  }

  lemma {:induction false} UnpackMore(digits: seq<Digit>, d: Digit)
    ensures Unpack(digits + [d]) == Unpack(digits) + NextByte(digits, d)
    decreases |digits|
  {
    if |digits| >= 4 {
      var rest := digits[4..];
      UnpackMore(rest, d);
      assert (digits + [d])[4..] == rest + [d];
      NextByteOfRest(digits, d);
    }
  }

  lemma NextByteOfRest(digits: seq<Digit>, d: Digit)
    requires |digits| >= 4
    ensures NextByte(digits[4..], d) == NextByte(digits, d)
  {
  }

  /** The lowest bits of an accumulator, of either sign: six, four, two or none. */
  function LowBits(accumulator: int, bits: int): int {
    match bits case 6 => accumulator % 64 case 4 => accumulator % 16 case 2 => accumulator % 4 case _ => 0
  }

  /** The byte above the lowest `bits` bits. */
  function ByteAbove(accumulator: int, bits: int): Byte {
    match bits case 4 => accumulator / 16 % 256 case 2 => accumulator / 4 % 256 case _ => accumulator % 256
  }

  /**
   A 32-bit accumulator, signed or unsigned, after a digit is shifted into it: which of the
   numbers equal modulo 2^32 it is does not matter, only its low bits are ever read.
   */
  ghost predicate Accumulated(before: int, d: Digit, after: int) {
    exists k: int :: after == Carried(before, d, k)
  }

  function Carried(before: int, d: Digit, k: int): int {
    before * 64 + d + 0x1_0000_0000 * k
  }

  lemma ByteOf(m: int, x: int)
    requires 0 <= x < 256
    ensures (256 * m + x) % 256 == x
  {
  }

  lemma CutFour(n: int, y: int)
    requires 0 <= y < 4
    ensures (4 * n + y) / 4 == n && (4 * n + y) % 4 == y
  {
  }

  lemma CutSixteen(n: int, y: int)
    requires 0 <= y < 16
    ensures (16 * n + y) / 16 == n && (16 * n + y) % 16 == y
  {
  }

  lemma StepFromOne(p: Digit, d: Digit, before: int, after: int)
    requires before % 64 == p && Accumulated(before, d, after)
    ensures after / 16 % 256 == p as int * 4 + d / 16 && after % 16 == d % 16
  {
    var k :| after == Carried(before, d, k);
    var m, x := before / 64 + 0x10_0000 * k, p as int * 4 + d / 16;
    assert after == 16 * (256 * m + x) + d % 16;
    CutSixteen(256 * m + x, d % 16);
    ByteOf(m, x);
  }

  lemma StepFromTwo(p: int, d: Digit, before: int, after: int)
    requires before % 16 == p && Accumulated(before, d, after)
    ensures after / 4 % 256 == p * 16 + d / 4 && after % 4 == d % 4
  {
    var k :| after == Carried(before, d, k);
    var m, x := before / 16 + 0x40_0000 * k, p * 16 + d / 4;
    assert after == 4 * (256 * m + x) + d % 4;
    CutFour(256 * m + x, d % 4);
    ByteOf(m, x);
  }

  lemma StepFromThree(p: int, d: Digit, before: int, after: int)
    requires before % 4 == p && Accumulated(before, d, after)
    ensures after % 256 == p * 64 + d
  {
    var k :| after == Carried(before, d, k);
    var m, x := before / 4 + 0x100_0000 * k, p * 64 + d;
    assert after == 256 * m + x;
    ByteOf(m, x);
  }

  lemma StepFromNone(d: Digit, before: int, after: int)
    requires Accumulated(before, d, after)
    ensures after % 64 == d
  {
    var k :| after == Carried(before, d, k);
    assert after == 64 * (before + 0x400_0000 * k) + d;
  }

  lemma WaitingMore(digits: seq<Digit>, d: Digit)
    ensures WaitingBits(digits + [d]) ==
            match |digits| % 4 case 0 => 6 case 1 => 4 case 2 => 2 case _ => 0
    ensures Waiting(digits + [d]) ==
            match |digits| % 4 case 0 => d case 1 => d % 16 case 2 => d % 4 case _ => 0
  {
    var more := digits + [d];
    assert more[|more| - 1] == d && |more| % 4 == (|digits| % 4 + 1) % 4;
  }

  /** One step of any accumulating decoder: the byte it yields and the bits it keeps. */
  lemma StepYields(digits: seq<Digit>, d: Digit, before: int, after: int)
    requires LowBits(before, WaitingBits(digits)) == Waiting(digits) && Accumulated(before, d, after)
    ensures |digits| % 4 != 0 ==> [ByteAbove(after, WaitingBits(digits) - 2)] == NextByte(digits, d)
    ensures LowBits(after, WaitingBits(digits + [d])) == Waiting(digits + [d])
  {
    WaitingMore(digits, d);
    match |digits| % 4
    case 0 => StepFromNone(d, before, after);
    case 1 => StepFromOne(digits[|digits| - 1], d, before, after);
    case 2 => StepFromTwo(digits[|digits| - 1] % 16, d, before, after);
    case _ => StepFromThree(digits[|digits| - 1] % 4, d, before, after);
  }

  /** What every accumulating decoder keeps true: its output, its bit count and its low bits. */
  predicate InStep(digits: seq<Digit>, out: Bytes, bits: int, accumulator: int) {
    out == Unpack(digits) && bits == WaitingBits(digits) && LowBits(accumulator, bits) == Waiting(digits)
  }

  lemma StaysInStep(digits: seq<Digit>, d: Digit, out: Bytes, bits: int, before: int, after: int)
    requires InStep(digits, out, bits, before) && Accumulated(before, d, after)
    ensures bits < 2 ==> InStep(digits + [d], out, bits + 6, after)
    ensures bits >= 2 ==> InStep(digits + [d], out + [ByteAbove(after, bits - 2)], bits - 2, after)
  {
    StepYields(digits, d, before, after);
    UnpackMore(digits, d);
    WaitingMore(digits, d);
  }

  /** The six bits of a digit counted in, and a byte put out when eight have come together. */
  method TakeSix(out: Bytes, bits: int, accumulator: int, ghost digits: seq<Digit>, ghost d: Digit, ghost before: int)
    returns (more: Bytes, left: int)
    requires InStep(digits, out, bits, before) && Accumulated(before, d, accumulator)
    ensures InStep(digits + [d], more, left, accumulator)
  {
    StaysInStep(digits, d, out, bits, before, accumulator);
    more, left := out, bits + 6;
    if left >= 8 {
      left := left - 8;
      more := more + [ByteAbove(accumulator, left)];
    }
  }

  lemma ValuesMore(text: string, i: nat, url: bool)
    requires i < |text|
    ensures Values(text[..i + 1], url) ==
            if Value(text[i], url) < 0 then Values(text[..i], url)
            else Values(text[..i], url) + [Value(text[i], url)]
  {
    assert text[..i + 1][..i] == text[..i];
  }

  /** An unsigned word of 32 bits. */
  function Unsigned(x: int): int {
    x % 0x1_0000_0000
  }

  /** A two's complement word of 32 bits. */
  function Wrap(x: int): int {
    (x + 0x8000_0000) % 0x1_0000_0000 - 0x8000_0000
  }

  lemma UnsignedAccumulates(before: int, d: Digit, after: int)
    requires after == Unsigned(before * 64 + d)
    ensures Accumulated(before, d, after)
  {
    var k := -((before * 64 + d) / 0x1_0000_0000);
    assert after == Carried(before, d, k);
  }

  lemma WrapAccumulates(before: int, d: Digit, after: int)
    requires after == Wrap(before * 64 + d)
    ensures Accumulated(before, d, after)
  {
    var k := -((before * 64 + d + 0x8000_0000) / 0x1_0000_0000);
    assert after == Carried(before, d, k);
  }

  /** api.cpp's decoder: both alphabets, unsigned, anything else skipped. */
  method Base64StdDecode(text: string) returns (out: Bytes)
    ensures out == Unpack(Values(text, true))
  {
    out := [];
    var buffer, bits := 0, 0;
    for i := 0 to |text|
      invariant InStep(Values(text[..i], true), out, bits, buffer)
    {
      ValuesMore(text, i, true);
      var v := Value(text[i], true);
      if v < 0 {
        continue;
      }
      var next := Unsigned(buffer * 64 + v);
      UnsignedAccumulates(buffer, v, next);
      out, bits := TakeSix(out, bits, next, Values(text[..i], true), v, buffer);
      buffer := next;
    }
    assert text[..|text|] == text;
  }

  /** session.cpp's decoder: the standard alphabet, a signed accumulator, anything else skipped. */
  method SessionDecode(text: string) returns (out: Bytes)
    ensures out == Unpack(Values(text, false))
  {
    out := [];
    var bits, accumulator := 0, 0;
    for i := 0 to |text|
      invariant InStep(Values(text[..i], false), out, bits, accumulator)
    {
      ValuesMore(text, i, false);
      var digit := Value(text[i], false);
      if digit < 0 {
        continue;
      }
      var next := Wrap(accumulator * 64 + digit);
      WrapAccumulates(accumulator, digit, next);
      out, bits := TakeSix(out, bits, next, Values(text[..i], false), digit, accumulator);
      accumulator := next;
    }
    assert text[..|text|] == text;
  }

  /** Up to the first '=', or all of the text. */
  function BeforeEquals(text: string): (r: string)
    ensures |r| <= |text|
  {
    if text == "" || text[0] == '=' then "" else [text[0]] + BeforeEquals(text[1..])
  }

  lemma {:induction false} BeforeEqualsIs(text: string, k: nat)
    requires k <= |text| && '=' !in text[..k] && (k < |text| ==> text[k] == '=')
    ensures BeforeEquals(text) == text[..k]
    decreases k
  {
    if k > 0 {
      assert text[0] == text[..k][0];
      assert text[1..][..k - 1] == text[..k][1..];
      BeforeEqualsIs(text[1..], k - 1);
    }
  }

  predicate IsTable(entries: seq<int>) {
    |entries| == 256 && forall c: char :: c as int < 256 ==> entries[c as int] == Standard(c)
  }

  method AvatarTable() returns (table: array<int>)
    ensures fresh(table) && IsTable(table[..])
  {
    table := new int[256](i => -1);
    for i := 0 to 64
      invariant forall c: char :: c as int < 256 ==>
                  table[c as int] == if Standard(c) < i then Standard(c) else -1
    {
      AlphabetIsStandard(i);
      StandardIsInjective(ALPHABET[i]);
      table[ALPHABET[i] as int] := i;
    }
  }

  /** A digit counted in with the bit count kept eight lower. */
  method AvatarTake(out: Bytes, bits: int, before: int, d: Digit, ghost digits: seq<Digit>)
    returns (more: Bytes, left: int, val: int)
    requires InStep(digits, out, bits + 8, before)
    ensures InStep(digits + [d], more, left + 8, val)
  {
    val := Wrap(before * 64 + d);
    WrapAccumulates(before, d, val);
    StaysInStep(digits, d, out, bits + 8, before, val);
    more, left := out, bits + 6;
    if left >= 0 {
      more := more + [ByteAbove(val, left)];
      left := left - 8;
    }
  }

  /** avatar.cpp's decoder: a table, a count kept eight lower, and a stop at the first '='. */
  method AvatarDecode(text: string) returns (out: Bytes)
    requires forall i :: 0 <= i < |text| ==> text[i] as int < 256  // a C++ char is a byte
    ensures out == Unpack(Values(BeforeEquals(text), false))
  {
    var table := AvatarTable();
    ghost var entries := table[..];
    out := [];
    var val, bits := 0, -8;
    var k := 0;
    while k < |text| && text[k] != '='
      invariant k <= |text| && '=' !in text[..k]
      invariant InStep(Values(text[..k], false), out, bits + 8, val)
      invariant table[..] == entries
    {
      ValuesMore(text, k, false);
      assert entries[text[k] as int] == Standard(text[k]);
      var d := table[text[k] as int];
      if d != -1 {
        out, bits, val := AvatarTake(out, bits, val, d, Values(text[..k], false));
      }
      k := k + 1;
    }
    BeforeEqualsIs(text, k);
  }

  lemma StandardIsInjective(c: char)
    requires Standard(c) >= 0
    ensures c as int < 256
    ensures forall e :: Standard(e) == Standard(c) ==> e == c
  {
  }

  predicate Space(c: char) {
    c == ' ' || c == '\t' || c == '\r' || c == '\n'
  }

  function Strip(text: string): string {
    if text == "" then ""
    else
      var before, c := Strip(text[..|text| - 1]), text[|text| - 1];
      if Space(c) then before else before + [c]
  }

  /** baas_parsing.cpp's decoder: whitespace dropped, then whole quads or nothing. */
  method Base64Strict(text: string) returns (r: Option<Bytes>)
    ensures r == StrictOf(Strip(text))
  {
    var clean := "";
    for i := 0 to |text|
      invariant clean == Strip(text[..i])
    {
      assert text[..i + 1][..i] == text[..i];
      if !Space(text[i]) {
        clean := clean + [text[i]];
      }
    }
    assert text[..|text|] == text;
    if |clean| % 4 != 0 {
      return None;
    }
    var padding := 0;
    while padding < |clean| && padding < 2 && clean[|clean| - 1 - padding] == '='
      invariant padding <= Pads(clean)
    {
      padding := padding + 1;
    }
    assert padding == Pads(clean);
    r := StrictBody(clean[..|clean| - padding]);
  }

  /** The part of it that walks the digits. */
  method StrictBody(body: string) returns (r: Option<Bytes>)
    ensures r == if AllLetters(body) then Some(Unpack(Values(body, false))) else None
  {
    var out: Bytes := [];
    var accumulator, bits := 0, 0;
    for i := 0 to |body|
      invariant forall j :: 0 <= j < i ==> Standard(body[j]) >= 0
      invariant InStep(Values(body[..i], false), out, bits, accumulator)
    {
      ValuesMore(body, i, false);
      var digit := Standard(body[i]);
      if digit < 0 {
        return None;
      }
      var next := Unsigned(accumulator * 64 + digit);
      UnsignedAccumulates(accumulator, digit, next);
      out, bits := TakeSix(out, bits, next, Values(body[..i], false), digit, accumulator);
      accumulator := next;
    }
    assert body[..|body|] == body;
    return Some(out);
  }

  // ---- Four letters at a time ----

  /** Some digits' quads, three bytes each; the digits left over are not looked at. */
  lemma {:induction false} UnpackQuad(digits: seq<Digit>, quad: seq<Digit>)
    requires |digits| % 4 == 0
    ensures Unpack(digits + quad) == Unpack(digits) + Unpack(quad)
    decreases |digits|
  {
    if digits == [] {
      assert digits + quad == quad;
    } else {
      UnpackQuad(digits[4..], quad);
      assert (digits + quad)[4..] == digits[4..] + quad;
    }
  }

  /** A quad's bytes, as the code cuts them from a 24-bit number. */
  lemma TripleBytes(v: seq<Digit>, triple: int)
    requires |v| == 4 && triple == v[0] as int * 0x4_0000 + v[1] as int * 0x1000 + v[2] as int * 0x40 + v[3]
    ensures triple / 0x1_0000 % 256 == FirstByte(v[0], v[1])
    ensures triple / 0x100 % 256 == SecondByte(v[1], v[2])
    ensures triple % 256 == ThirdByte(v[2], v[3])
  {
    var first, second, third := FirstByte(v[0], v[1]), SecondByte(v[1], v[2]), ThirdByte(v[2], v[3]);
    Regroup(v[0], v[1], v[2], v[3]);
    ThreeBytes(first, second, third, triple);
  }

  lemma Regroup(a: Digit, b: Digit, c: Digit, d: Digit)
    ensures a as int * 0x4_0000 + b as int * 0x1000 + c as int * 0x40 + d ==
            FirstByte(a, b) as int * 0x1_0000 + SecondByte(b, c) as int * 0x100 + ThirdByte(c, d)
  {
  }

  lemma ThreeBytes(x: Byte, y: Byte, z: Byte, n: int)
    requires n == x as int * 0x1_0000 + y as int * 0x100 + z
    ensures n / 0x1_0000 % 256 == x && n / 0x100 % 256 == y && n % 256 == z
  {
  }

  lemma QuadBytes(v: seq<Digit>, pad: nat)
    requires |v| == 4 && pad <= 2
    ensures Unpack(v[..4 - pad]) ==
            [FirstByte(v[0], v[1])] + (if pad < 2 then [SecondByte(v[1], v[2])] else [])
            + (if pad < 1 then [ThirdByte(v[2], v[3])] else [])
  {
  }

  lemma {:induction false} ValuesOfLetters(text: string)
    requires AllLetters(text)
    ensures |Values(text, false)| == |text|
    ensures forall i :: 0 <= i < |text| ==> Values(text, false)[i] == Standard(text[i])
  {
    if text != "" {
      ValuesOfLetters(text[..|text| - 1]);
    }
  }

  lemma {:induction false} ValuesAppend(a: string, b: string, url: bool)
    ensures Values(a + b, url) == Values(a, url) + Values(b, url)
    decreases |b|
  {
    if b == "" {
      assert a + b == a;
    } else {
      assert (a + b)[..|a + b| - 1] == a + b[..|b| - 1];
      ValuesAppend(a, b[..|b| - 1], url);
    }
  }

  /** One quad of the strict decoder; `last` lets it end in '='. */
  method DecodeQuad(quad: string, last: bool) returns (r: Option<Bytes>)
    requires |quad| == 4
    ensures last ==> r == StrictOf(quad)
    ensures !last ==> r == if AllLetters(quad) then Some(Unpack(Values(quad, false))) else None
  {
    var v: seq<Digit> := [];
    var pad := 0;
    for j := 0 to 4
      invariant |v| == j && (pad > 0 ==> last && pad + 2 <= j)
      invariant forall i :: 0 <= i < j - pad ==> Standard(quad[i]) == v[i]
      invariant forall i :: j - pad <= i < j ==> quad[i] == '=' && v[i] == 0
    {
      var c := quad[j];
      if c == '=' {
        if !last || j < 2 {
          QuadRefused(quad, j);
          return None;
        }
        pad := pad + 1;
        v := v + [0];
        continue;
      }
      if pad != 0 {
        QuadRefused(quad, j - 1);
        return None;
      }
      if Standard(c) < 0 {
        QuadRefused(quad, j);
        return None;
      }
      v := v + [Standard(c)];
    }
    var triple := v[0] as int * 0x4_0000 + v[1] as int * 0x1000 + v[2] as int * 0x40 + v[3];
    TripleBytes(v, triple);
    QuadBytes(v, pad);
    QuadAccepted(quad, pad, v);
    var out: Bytes := [triple / 0x1_0000 % 256];
    if pad < 2 {
      out := out + [triple / 0x100 % 256];
    }
    if pad < 1 {
      out := out + [triple % 256];
    }
    assert out == Unpack(v[..4 - pad]);
    return Some(out);
  }

  lemma QuadRefused(quad: string, j: nat)
    requires |quad| == 4 && j < 4 && Standard(quad[j]) < 0
    ensures !AllLetters(quad)
    ensures quad[j] != '=' || j < 2 || (j == 2 && quad[3] != '=') ==> !WellFormed(quad)
  {
    if quad[j] != '=' || j < 2 || (j == 2 && quad[3] != '=') {
      assert j < |Body(quad)| && Body(quad)[j] == quad[j];
    }
  }

  lemma QuadAccepted(quad: string, pad: nat, v: seq<Digit>)
    requires |quad| == |v| == 4 && pad <= 2
    requires forall i :: 0 <= i < 4 - pad ==> Standard(quad[i]) == v[i]
    requires forall i :: 4 - pad <= i < 4 ==> quad[i] == '=' && v[i] == 0
    ensures WellFormed(quad) && Body(quad) == quad[..4 - pad] && Values(Body(quad), false) == v[..4 - pad]
    ensures pad == 0 <==> AllLetters(quad)
    ensures pad == 0 ==> Values(quad, false) == v[..4]
  {
    var body := quad[..4 - pad];
    assert Pads(quad) == pad;
    ValuesOfLetters(body);
    assert pad > 0 ==> Standard(quad[3]) < 0;
    assert pad == 0 ==> body == quad;
  }

  lemma LettersJoin(front: string, back: string)
    requires AllLetters(front) && |front| % 4 == 0
    ensures AllLetters(front + back) <==> AllLetters(back)
    ensures Unpack(Values(front + back, false)) == Unpack(Values(front, false)) + Unpack(Values(back, false))
  {
    ValuesOfLetters(front);
    ValuesAppend(front, back, false);
    UnpackQuad(Values(front, false), Values(back, false));
    assert forall j :: 0 <= j < |back| ==> (front + back)[|front| + j] == back[j];
    assert forall j :: 0 <= j < |front| ==> (front + back)[j] == front[j];
  }

  lemma QuadJoins(text: string, i: nat)
    requires i + 4 < |text| && i % 4 == 0 && |text| % 4 == 0 && AllLetters(text[..i])
    ensures AllLetters(text[i..i + 4]) ==>
              AllLetters(text[..i + 4]) &&
              Unpack(Values(text[..i + 4], false)) ==
              Unpack(Values(text[..i], false)) + Unpack(Values(text[i..i + 4], false))
    ensures !AllLetters(text[i..i + 4]) ==> !WellFormed(text)
  {
    var front, quad := text[..i], text[i..i + 4];
    assert text[..i + 4] == front + quad;
    LettersJoin(front, quad);
    if !AllLetters(quad) {
      var j :| 0 <= j < 4 && Standard(quad[j]) < 0;
      assert Body(text)[i + j] == quad[j];
    }
  }

  lemma LastQuadJoins(text: string, i: nat)
    requires i + 4 == |text| && i % 4 == 0 && AllLetters(text[..i])
    ensures StrictOf(text) ==
            match StrictOf(text[i..i + 4])
            case None => None
            case Some(tail) => Some(Unpack(Values(text[..i], false)) + tail)
  {
    var front, quad := text[..i], text[i..i + 4];
    assert Pads(quad) == Pads(text);
    assert Body(text) == front + Body(quad);
    LettersJoin(front, Body(quad));
  }

  /** The quads up to `i` are read: all of the text, or letters only. */
  predicate QuadsRead(text: string, i: nat, out: Bytes)
    requires i <= |text|
  {
    if i == |text| then StrictOf(text) == Some(out)
    else AllLetters(text[..i]) && out == Unpack(Values(text[..i], false))
  }

  lemma QuadStep(text: string, i: nat, out: Bytes, quad: Option<Bytes>)
    requires |text| % 4 == 0 && i % 4 == 0 && i + 4 <= |text| && QuadsRead(text, i, out)
    requires i + 4 == |text| ==> quad == StrictOf(text[i..i + 4])
    requires i + 4 < |text| ==>
               quad == if AllLetters(text[i..i + 4]) then Some(Unpack(Values(text[i..i + 4], false))) else None
    ensures quad.None? ==> StrictOf(text) == None
    ensures quad.Some? ==> QuadsRead(text, i + 4, out + quad.value)
  {
    if i + 4 < |text| {
      QuadJoins(text, i);
    } else {
      LastQuadJoins(text, i);
    }
  }

  /** network_ceiling.cpp's decoder: whole quads, padding only at the very end, never empty. */
  method DecodeBase64(text: string) returns (r: Option<Bytes>)
    ensures r == if text == "" then None else StrictOf(text)
  {
    if text == "" || |text| % 4 != 0 {
      return None;
    }
    var out: Bytes := [];
    var i := 0;
    while i < |text|
      invariant i <= |text| && i % 4 == 0 && QuadsRead(text, i, out)
    {
      var quad := DecodeQuad(text[i..i + 4], i + 4 == |text|);
      QuadStep(text, i, out, quad);
      if quad.None? {
        return None;
      }
      out := out + quad.value;
      i := i + 4;
    }
    return Some(out);
  }

  // ---- The encoders ----

  /** Four letters of a 24-bit number put out. */
  function FourOf(out: string, n: nat): string {
    out + [ALPHABET[n / 0x4_0000 % 64]] + [ALPHABET[n / 0x1000 % 64]] + [ALPHABET[n / 0x40 % 64]]
    + [ALPHABET[n % 64]]
  }

  /** api.cpp's and session.cpp's encoder loop: a 24-bit number cut into four letters. */
  method Base64StdEncode(data: Bytes) returns (out: string)
    ensures out == Encode(data)
  {
    out := "";
    var i := 0;
    while i + 2 < |data|
      invariant i <= |data| && i % 3 == 0
      invariant out + Encode(data[i..]) == Encode(data)
    {
      var n := data[i] as int * 0x1_0000 + data[i + 1] as int * 0x100 + data[i + 2];
      assert data[i..][3..] == data[i + 3..];
      GroupLetters(data[i..], n, out, Encode(data[i + 3..]));
      out := PutFour(out, n);
      i := i + 3;
    }
    out := PutTail(out, data, i);
  }

  method PutFour(out: string, n: nat) returns (more: string)
    ensures more == FourOf(out, n)
  {
    more := out + [ALPHABET[n / 0x4_0000 % 64]];
    more := more + [ALPHABET[n / 0x1000 % 64]];
    more := more + [ALPHABET[n / 0x40 % 64]];
    more := more + [ALPHABET[n % 64]];
  }

  /** The one or two bytes after the last whole group, if any. */
  method PutTail(out: string, data: Bytes, i: nat) returns (more: string)
    requires i <= |data| < i + 3
    ensures more == out + Encode(data[i..])
  {
    more := out;
    if i < |data| {
      var n := data[i] as int * 0x1_0000;
      if i + 1 < |data| {
        n := n + data[i + 1] as int * 0x100;
      }
      TailLetters(data[i..], n);
      more := more + [ALPHABET[n / 0x4_0000 % 64]];
      more := more + [ALPHABET[n / 0x1000 % 64]];
      more := more + [if i + 1 < |data| then ALPHABET[n / 0x40 % 64] else '='];
      more := more + ['='];
    }
  }

  /** A 24-bit number's letters are those of its bytes. */
  lemma CutDigits(a: Byte, b: Byte, c: Byte, n: int)
    requires n == a as int * 0x1_0000 + b as int * 0x100 + c
    ensures Group(a, b, c) == [n / 0x4_0000 % 64, n / 0x1000 % 64, n / 0x40 % 64, n % 64]
  {
    assert n == (a / 4) as int * 0x4_0000 + (a as int % 4 * 16 + b / 16) * 0x1000
                + (b as int % 16 * 4 + c / 64) * 0x40 + c % 64;
    FourDigits(a / 4, a as int % 4 * 16 + b / 16, b as int % 16 * 4 + c / 64, c % 64, n);
  }

  lemma Cut6(q: nat, r: nat)
    requires r < 64
    ensures (64 * q + r) / 64 == q && (64 * q + r) % 64 == r
  {
  }

  lemma Cut12(q: nat, r: nat)
    requires r < 0x1000
    ensures (0x1000 * q + r) / 0x1000 == q
  {
  }

  lemma Cut18(q: nat, r: nat)
    requires r < 0x4_0000
    ensures (0x4_0000 * q + r) / 0x4_0000 == q
  {
  }

  lemma FourDigits(x: Digit, y: Digit, z: Digit, w: Digit, n: int)
    requires n == x as int * 0x4_0000 + y as int * 0x1000 + z as int * 0x40 + w
    ensures n / 0x4_0000 % 64 == x && n / 0x1000 % 64 == y && n / 0x40 % 64 == z && n % 64 == w
  {
    var two, three := x as int * 64 + y, (x as int * 64 + y) * 64 + z;
    Cut18(x, y as int * 0x1000 + z as int * 0x40 + w);
    Cut12(two, z as int * 0x40 + w);
    Cut6(three, w);
    Cut6(two, z);
    Cut6(x, y);
    Cut6(0, x);
  }

  lemma LettersMore(d: Digit, rest: seq<Digit>)
    ensures Letters([d] + rest) == [ALPHABET[d]] + Letters(rest)
  {
    assert ([d] + rest)[1..] == rest;
  }

  lemma LettersOfTwo(a: Digit, b: Digit, rest: seq<Digit>)
    ensures Letters([a, b] + rest) == [ALPHABET[a], ALPHABET[b]] + Letters(rest)
  {
    assert [a, b] + rest == [a] + ([b] + rest);
    LettersMore(a, [b] + rest);
    LettersMore(b, rest);
  }

  lemma LettersOfFour(a: Digit, b: Digit, c: Digit, d: Digit, rest: seq<Digit>)
    ensures Letters([a, b, c, d] + rest) ==
            [ALPHABET[a]] + [ALPHABET[b]] + [ALPHABET[c]] + [ALPHABET[d]] + Letters(rest)
  {
    assert [a, b, c, d] + rest == [a, b] + ([c, d] + rest);
    LettersOfTwo(a, b, [c, d] + rest);
    LettersOfTwo(c, d, rest);
  }

  lemma PaddingGroup(n: nat)
    requires n >= 3
    ensures Padding(n) == Padding(n - 3)
  {
  }

  lemma GroupOfDigits(g: seq<Digit>, more: seq<Digit>, pad: string, out: string)
    requires |g| == 4
    ensures out + (Letters(g + more) + pad) ==
            out + [ALPHABET[g[0]]] + [ALPHABET[g[1]]] + [ALPHABET[g[2]]] + [ALPHABET[g[3]]] + (Letters(more) + pad)
  {
    assert g == [g[0], g[1], g[2], g[3]];
    LettersOfFour(g[0], g[1], g[2], g[3], more);
    JoinLetters(out, ALPHABET[g[0]], ALPHABET[g[1]], ALPHABET[g[2]], ALPHABET[g[3]], Letters(more), pad);
  }

  lemma GroupLetters(data: Bytes, n: nat, out: string, rest: string)
    requires |data| >= 3 && n == data[0] as int * 0x1_0000 + data[1] as int * 0x100 + data[2]
    requires rest == Encode(data[3..])
    ensures out + Encode(data) == FourOf(out, n) + rest
  {
    CutDigits(data[0], data[1], data[2], n);
    PaddingGroup(|data|);
    GroupOfDigits(Group(data[0], data[1], data[2]), Digits(data[3..]), Padding(|data|), out);
  }

  lemma JoinLetters(out: string, a: char, b: char, c: char, d: char, more: string, pad: string)
    ensures out + ([a] + [b] + [c] + [d] + more + pad) == out + [a] + [b] + [c] + [d] + (more + pad)
  {
  }

  lemma {:induction false} LettersAppend(a: seq<Digit>, b: seq<Digit>)
    ensures Letters(a + b) == Letters(a) + Letters(b)
    decreases |a|
  {
    if a == [] {
      assert a + b == b;
    } else {
      assert (a + b)[1..] == a[1..] + b;
      LettersAppend(a[1..], b);
    }
  }

  lemma TailOfDigits(g: seq<Digit>)
    requires |g| == 4
    ensures Letters(g[..2]) == [ALPHABET[g[0]], ALPHABET[g[1]]]
    ensures Letters(g[..3]) == [ALPHABET[g[0]], ALPHABET[g[1]], ALPHABET[g[2]]]
  {
    assert g[..2] == [g[0], g[1]] + [] && g[..3] == [g[0], g[1]] + [g[2]];
    LettersOfTwo(g[0], g[1], []);
    LettersOfTwo(g[0], g[1], [g[2]]);
    LettersMore(g[2], []);
    assert [g[2]] + [] == [g[2]];
  }

  lemma TailLetters(data: Bytes, n: nat)
    requires 1 <= |data| <= 2
    requires n == data[0] as int * 0x1_0000 + (if |data| == 2 then data[1] as int * 0x100 else 0)
    ensures Encode(data) ==
            [ALPHABET[n / 0x4_0000 % 64], ALPHABET[n / 0x1000 % 64],
             if |data| == 2 then ALPHABET[n / 0x40 % 64] else '=', '=']
  {
    var second: Byte := if |data| == 2 then data[1] else 0;
    CutDigits(data[0], second, 0, n);
    TailOfDigits(Group(data[0], second, 0));
  }

  // ---- What they all agree on ----

  lemma {:induction false} LettersAreLetters(digits: seq<Digit>)
    ensures AllLetters(Letters(digits)) && Values(Letters(digits), false) == digits
    decreases |digits|
  {
    if digits != [] {
      var first := [ALPHABET[digits[0]]];
      AlphabetIsStandard(digits[0]);
      LettersAreLetters(digits[1..]);
      ValuesAppend(first, Letters(digits[1..]), false);
      assert first[..0] == "" && Values(first, false) == [digits[0]];
    }
  }

  lemma DigitsGrow(data: Bytes)
    requires |data| >= 3
    ensures |Digits(data)| == 4 + |Digits(data[3..])|
  {
  }

  lemma FourMore(x: nat, y: nat, z: nat)
    requires x == 4 + y && (y + z) % 4 == 0
    ensures (x + z) % 4 == 0
  {
  }

  lemma {:induction false} DigitsPad(data: Bytes)
    ensures (|Digits(data)| + |Padding(|data|)|) % 4 == 0
  {
    if |data| >= 3 {
      DigitsPad(data[3..]);
      DigitsGrow(data);
      PaddingGroup(|data|);
      FourMore(|Digits(data)|, |Digits(data[3..])|, |Padding(|data|)|);
    }
  }

  predicate OnlyPads(padding: string) {
    |padding| <= 2 && forall i :: 0 <= i < |padding| ==> padding[i] == '='
  }

  lemma PaddingIs(n: nat)
    ensures OnlyPads(Padding(n))
  {
  }

  lemma LettersAreRead(digits: seq<Digit>, padding: string, text: string)
    requires text == Letters(digits) + padding && OnlyPads(padding) && (|digits| + |padding|) % 4 == 0
    ensures WellFormed(text) && StrictOf(text) == Some(Unpack(digits)) && Strip(text) == text
  {
    LettersAreLetters(digits);
    BodyOfPadded(Letters(digits), padding);
    PaddedIsRead(Letters(digits), padding, digits);
    NoSpaces(text);
  }

  /** Every encoding is well formed, and strict reading returns the data. */
  lemma StrictRoundTrip(data: Bytes, text: string)
    requires text == Encode(data)
    ensures WellFormed(text) && StrictOf(text) == Some(data) && Strip(text) == text
  {
    DigitsPad(data);
    UnpackDigits(data);
    PaddingIs(|data|);
    LettersAreRead(Digits(data), Padding(|data|), text);
  }

  lemma PaddedIsRead(letters: string, padding: string, digits: seq<Digit>)
    requires AllLetters(letters) && Body(letters + padding) == letters && (|letters| + |padding|) % 4 == 0
    requires Values(letters, false) == digits
    ensures WellFormed(letters + padding) && StrictOf(letters + padding) == Some(Unpack(digits))
  {
  }

  lemma BodyOfPadded(letters: string, padding: string)
    requires AllLetters(letters) && OnlyPads(padding)
    ensures Body(letters + padding) == letters
    ensures forall i :: 0 <= i < |letters + padding| ==> !Space((letters + padding)[i])
  {
    var text := letters + padding;
    assert |padding| == 0 && letters != "" ==> text[|text| - 1] == letters[|letters| - 1];
    assert |padding| == 1 && letters != "" ==> text[|text| - 2] == letters[|letters| - 1];
    assert Pads(text) == |padding|;
  }

  lemma {:induction false} NoSpaces(text: string)
    requires forall i :: 0 <= i < |text| ==> !Space(text[i])
    ensures Strip(text) == text
  {
    if text != "" {
      NoSpaces(text[..|text| - 1]);
    }
  }

  /** On every well-formed text, the lenient decoders read what the strict ones read. */
  lemma LenientAgree(text: string)
    requires WellFormed(text)
    ensures Some(Unpack(Values(text, true))) == StrictOf(text)
    ensures Some(Unpack(Values(text, false))) == StrictOf(text)
    ensures Some(Unpack(Values(BeforeEquals(text), false))) == StrictOf(text)
  {
    var body, pads := Body(text), text[|Body(text)|..];
    assert text == body + pads;
    ValuesAppend(body, pads, true);
    ValuesAppend(body, pads, false);
    PadsHaveNoValues(text);
    assert Values(text, true) == Values(body, true) && Values(text, false) == Values(body, false);
    SameValues(body);
    BeforeEqualsIs(text, |body|);
  }

  lemma PadsHaveNoValues(text: string)
    ensures Values(text[|Body(text)|..], true) == [] == Values(text[|Body(text)|..], false)
    ensures |Body(text)| < |text| ==> text[|Body(text)|] == '='
  {
  }

  lemma {:induction false} SameValues(text: string)
    requires AllLetters(text)
    ensures Values(text, true) == Values(text, false) && '=' !in text
  {
    if text != "" {
      SameValues(text[..|text| - 1]);
      assert text == text[..|text| - 1] + [text[|text| - 1]];
    }
  }

  /** All five decoders return the data from every non-empty encoding, in standard form. */
  lemma AllDecodersReturn(data: Bytes, text: string)
    requires text == Encode(data)
    ensures StrictOf(text) == StrictOf(Strip(text)) == Some(data)
    ensures Unpack(Values(text, true)) == Unpack(Values(text, false)) == data
    ensures Unpack(Values(BeforeEquals(text), false)) == data
    ensures text == "" <==> data == []
  {
    StrictRoundTrip(data, text);
    LenientAgree(text);
    DigitsPad(data);
  }
}
