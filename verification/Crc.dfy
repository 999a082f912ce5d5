/**
 The checksum of zip_store.cpp: the table-driven CRC-32 of section 4.4.7 of PKWARE APPNOTE,
 against the shift register that takes the message one bit at a time.

 Words are natural numbers and exclusive-or is defined on them bit by bit, so that its laws are
 proved here rather than left to bit-vector reasoning.
 */
module Crc {
  import opened Basics

  // ---- Exclusive or ----

  function Xor(a: nat, b: nat): nat
    decreases a + b
  {
    if a == 0 && b == 0 then 0 else (a + b) % 2 + 2 * Xor(a / 2, b / 2)
  }

  lemma Digit(low: nat, high: nat)
    requires low < 2
    ensures (low + 2 * high) % 2 == low && (low + 2 * high) / 2 == high
  {
  }

  lemma XorBit(a: nat, b: nat)
    ensures Xor(a, b) % 2 == (a + b) % 2 && Xor(a, b) / 2 == Xor(a / 2, b / 2)
  {
    if a != 0 || b != 0 {
      Digit((a + b) % 2, Xor(a / 2, b / 2));
    }
  }

  lemma SameDigits(x: nat, y: nat)
    requires x % 2 == y % 2 && x / 2 == y / 2
    ensures x == y
  {
  }

  lemma SameParity(a: nat, b: nat, c: nat, ab: nat, bc: nat)
    requires ab % 2 == (a + b) % 2 && bc % 2 == (b + c) % 2
    ensures (ab + c) % 2 == (a + bc) % 2
  {
  }

  lemma {:induction false} XorZero(a: nat)
    ensures Xor(a, 0) == a && Xor(0, a) == a
    decreases a
  {
    if a != 0 {
      XorZero(a / 2);
    }
  }

  lemma {:induction false} XorSelf(a: nat)
    ensures Xor(a, a) == 0
    decreases a
  {
    if a != 0 {
      XorSelf(a / 2);
    }
  }

  lemma {:induction false} XorSwap(a: nat, b: nat)
    ensures Xor(a, b) == Xor(b, a)
    decreases a + b
  {
    if a != 0 || b != 0 {
      XorSwap(a / 2, b / 2);
    }
  }

  lemma {:induction false} XorAssoc(a: nat, b: nat, c: nat)
    ensures Xor(Xor(a, b), c) == Xor(a, Xor(b, c))
    decreases a + b + c
  {
    if a != 0 || b != 0 || c != 0 {
      var ab, bc := Xor(a, b), Xor(b, c);
      XorBit(a, b);
      XorBit(b, c);
      XorBit(ab, c);
      XorBit(a, bc);
      XorAssoc(a / 2, b / 2, c / 2);
      SameParity(a, b, c, ab, bc);
      SameDigits(Xor(ab, c), Xor(a, bc));
    }
  }

  lemma XorRegroup(a: nat, b: nat, c: nat, d: nat)
    ensures Xor(Xor(a, b), Xor(c, d)) == Xor(Xor(a, c), Xor(b, d))
  {
    XorAssoc(a, b, Xor(c, d));
    XorAssoc(b, c, d);
    XorSwap(b, c);
    XorAssoc(c, b, d);
    XorAssoc(a, c, Xor(b, d));
  }

  lemma EvenHalves(low: nat, more: nat)
    ensures 2 * more / 2 == more && (low + 2 * more) % 2 == low % 2
  {
  }

  lemma XorEven(low: nat, more: nat, even: nat)
    requires even == 2 * more
    ensures Xor(low, even) % 2 == low % 2 && Xor(low, even) / 2 == Xor(low / 2, more)
  {
    XorBit(low, even);
    EvenHalves(low, more);
  }

  lemma FromHalves(x: nat, low: nat, more: nat)
    requires x % 2 == low % 2 && x / 2 == low / 2 + more
    ensures x == low + 2 * more
  {
  }

  lemma HalfFits(low: nat, k: nat)
    requires k > 0 && low < Power(k)
    ensures low / 2 < Power(k - 1)
  {
  }

  /** A number moved up by `k` bits. */
  function Raised(high: nat, k: nat): nat {
    if k == 0 then high else 2 * Raised(high, k - 1)
  }

  /** Bits that do not overlap are added without a carry. */
  lemma {:induction false} XorDisjoint(low: nat, high: nat, k: nat)
    requires low < Power(k)
    ensures Xor(low, Raised(high, k)) == low + Raised(high, k)
    decreases k
  {
    if k == 0 {
      XorZero(high);
    } else {
      var more, even := Raised(high, k - 1), Raised(high, k);
      HalfFits(low, k);
      XorDisjoint(low / 2, high, k - 1);
      XorEven(low, more, even);
      FromHalves(Xor(low, even), low, more);
    }
  }

  function Power(k: nat): nat {
    if k == 0 then 1 else 2 * Power(k - 1)
  }

  lemma {:induction false} XorBelow(a: nat, b: nat, k: nat)
    requires a < Power(k) && b < Power(k)
    ensures Xor(a, b) < Power(k)
    decreases k
  {
    if k > 0 {
      XorBelow(a / 2, b / 2, k - 1);
      XorBit(a, b);
    }
  }

  // ---- The register ----

  const POLYNOMIAL: nat := 0xEDB8_8320

  /** How many bits a message byte feeds the register. */
  const BYTE_BITS: nat := 8

  const WORD_BITS: nat := 32

  /** One step: shift right, and add the polynomial when a one falls out. */
  function Step(c: nat, polynomial: nat): nat {
    if c % 2 != 0 then Xor(polynomial, c / 2) else c / 2
  }

  function Shift(c: nat): nat {
    Step(c, POLYNOMIAL)
  }

  function Shifts(c: nat, k: nat): nat
    decreases k
  {
    if k == 0 then c else Shifts(Shift(c), k - 1)
  }

  lemma XorPutsTwice(p: nat, x: nat, y: nat)
    ensures Xor(Xor(p, x), Xor(p, y)) == Xor(x, y)
  {
    XorRegroup(p, x, p, y);
    XorSelf(p);
    XorZero(Xor(x, y));
  }

  lemma XorPutsOnce(p: nat, x: nat, y: nat)
    ensures Xor(Xor(p, x), y) == Xor(p, Xor(x, y)) && Xor(x, Xor(p, y)) == Xor(p, Xor(x, y))
  {
    XorAssoc(p, x, y);
    XorSwap(x, Xor(p, y));
    XorAssoc(p, y, x);
    XorSwap(y, x);
  }

  lemma OddSum(a: nat, b: nat)
    ensures (a + b) % 2 == if a % 2 == b % 2 then 0 else 1
  {
  }

  /** The one-bit step is linear over exclusive or. */
  lemma StepXor(a: nat, b: nat, p: nat)
    ensures Step(Xor(a, b), p) == Xor(Step(a, p), Step(b, p))
  {
    XorBit(a, b);
    OddSum(a, b);
    XorPutsTwice(p, a / 2, b / 2);
    XorPutsOnce(p, a / 2, b / 2);
  }

  lemma {:induction false} ShiftsXor(a: nat, b: nat, k: nat)
    ensures Shifts(Xor(a, b), k) == Xor(Shifts(a, k), Shifts(b, k))
    decreases k
  {
    if k > 0 {
      StepXor(a, b, POLYNOMIAL);
      ShiftsXor(Shift(a), Shift(b), k - 1);
    }
  }

  lemma ShiftEven(m: nat)
    ensures Shift(2 * m) == m
  {
  }

  /** A number whose low bits are clear only moves down. */
  lemma {:induction false} ShiftsDown(high: nat, k: nat)
    ensures Shifts(Raised(high, k), k) == high
    decreases k
  {
    if k > 0 {
      ShiftEven(Raised(high, k - 1));
      ShiftsDown(high, k - 1);
    }
  }

  // ---- The reference: message bits fed one by one, the least significant of a byte first ----

  function FeedBits(c: nat, bits: seq<nat>): nat
    decreases |bits|
  {
    if bits == [] then c else FeedBits(Shift(Xor(c, bits[0])), bits[1..])
  }

  /** The lowest `k` bits of a number, lowest first. */
  function BitsOf(x: nat, k: nat): seq<nat> {
    if k == 0 then [] else [x % 2] + BitsOf(x / 2, k - 1)
  }

  function MessageBits(data: Bytes): seq<nat> {
    if data == [] then [] else BitsOf(data[0], BYTE_BITS) + MessageBits(data[1..])
  }

  function Complement(c: nat): int {
    0xFFFF_FFFF - c
  }

  function Reference(data: Bytes): (r: nat)
    ensures r < 0x1_0000_0000
  {
    RegisterIsFed(data);
    RegisterIsWord(data);
    Complement(FeedBits(0xFFFF_FFFF, MessageBits(data)))
  }

  /** Adding a number and shifting is adding its lowest bit, shifting, and adding the rest. */
  lemma AddThenShift(c: nat, low: nat, high: nat)
    requires low < 2
    ensures Shift(Xor(c, low + 2 * high)) == Xor(Shift(Xor(c, low)), high)
  {
    assert Raised(high, 1) == 2 * high;
    XorDisjoint(low, high, 1);
    XorAssoc(c, low, 2 * high);
    StepXor(Xor(c, low), 2 * high, POLYNOMIAL);
    ShiftEven(high);
  }

  /** Bits fed one by one are the whole number added at once. */
  lemma {:induction false} FeedIsAdd(c: nat, x: nat, k: nat)
    requires x < Power(k)
    ensures FeedBits(c, BitsOf(x, k)) == Shifts(Xor(c, x), k)
    decreases k
  {
    if k == 0 {
      XorZero(c);
    } else {
      AddThenShift(c, x % 2, x / 2);
      FeedIsAdd(Shift(Xor(c, x % 2)), x / 2, k - 1);
    }
  }

  lemma {:induction false} FeedAppend(c: nat, a: seq<nat>, b: seq<nat>)
    ensures FeedBits(c, a + b) == FeedBits(FeedBits(c, a), b)
    decreases |a|
  {
    if a == [] {
      assert a + b == b;
    } else {
      assert (a + b)[1..] == a[1..] + b;
      FeedAppend(Shift(Xor(c, a[0])), a[1..], b);
    }
  }

  // ---- The table ----

  lemma SplitShifts(low: nat, high: nat, k: nat)
    requires low < Power(k)
    ensures Shifts(low + Raised(high, k), k) == Xor(Shifts(low, k), high)
  {
    XorDisjoint(low, high, k);
    ShiftsXor(low, Raised(high, k), k);
    ShiftsDown(high, k);
  }

  lemma RaisedTwo(high: nat, k: nat)
    requires k >= 2
    ensures Raised(high, k) == 4 * Raised(high, k - 2)
  {
    assert Raised(high, k) == 2 * Raised(high, k - 1);
  }

  lemma RaisedEight(high: nat, k: nat)
    requires k == BYTE_BITS
    ensures Raised(high, k) == 256 * high
  {
    RaisedTwo(high, k);
    RaisedTwo(high, k - 2);
    RaisedTwo(high, k - 4);
    RaisedTwo(high, k - 6);
  }

  lemma LowAndHigh(x: nat)
    ensures x == x % 256 + 256 * (x / 256) && x % 256 < 256
  {
  }

  lemma ShiftsByHalves(low: nat, high: nat, x: nat, k: nat)
    requires low < Power(k) && x == low + Raised(high, k)
    ensures Shifts(x, k) == Xor(Shifts(low, k), high)
  {
    SplitShifts(low, high, k);
  }

  /** One lookup in the table does eight steps: the byte that falls out decides what is added. */
  lemma LookupIsEightShifts(c: nat, d: Byte, x: nat, k: nat)
    requires x == Xor(c, d) && k == BYTE_BITS
    ensures Xor(Shifts(x % 256, k), c / 256) == Shifts(x, k)
  {
    HighPart(c, d);
    LowAndHigh(x);
    PowerEight();
    RaisedEight(x / 256, k);
    ShiftsByHalves(x % 256, x / 256, x, k);
  }

  lemma PowerEight()
    ensures Power(BYTE_BITS) == 256 && Power(WORD_BITS) == 0x1_0000_0000
  {
    assert Power(4) == 16 && Power(8) == 256 && Power(12) == 0x1000 && Power(16) == 0x1_0000;
    assert Power(20) == 0x10_0000 && Power(24) == 0x100_0000 && Power(28) == 0x1000_0000;
  }

  lemma {:induction false} HighBits(c: nat, d: nat, k: nat)
    requires d < Power(k)
    ensures Halved(Xor(c, d), k) == Halved(c, k)
    decreases k
  {
    if k == 0 {
      XorZero(c);
    } else {
      XorBit(c, d);
      HighBits(c / 2, d / 2, k - 1);
    }
  }

  function Halved(x: nat, k: nat): nat
    decreases k
  {
    if k == 0 then x else Halved(x / 2, k - 1)
  }

  lemma HighPart(c: nat, d: Byte)
    ensures Xor(c, d) / 256 == c / 256
  {
    PowerEight();
    HighBits(c, d, BYTE_BITS);
    HalvedEight(c);
    HalvedEight(Xor(c, d));
  }

  lemma HalvedEight(x: nat)
    ensures Halved(x, BYTE_BITS) == x / 256
  {
    assert Halved(x, BYTE_BITS) == Halved(x / 2 / 2 / 2 / 2, 4) == x / 2 / 2 / 2 / 2 / 2 / 2 / 2 / 2;
  }

  /** The register after some bytes, as the table's loop keeps it. */
  function Register(data: Bytes): nat {
    if data == [] then 0xFFFF_FFFF
    else Shifts(Xor(Register(data[..|data| - 1]), data[|data| - 1]), BYTE_BITS)
  }

  lemma {:induction false} RegisterIsFed(data: Bytes)
    ensures Register(data) == FeedBits(0xFFFF_FFFF, MessageBits(data))
  {
    if data != [] {
      var before, last := data[..|data| - 1], data[|data| - 1];
      RegisterIsFed(before);
      assert before + [last] == data;
      MessageBitsAppend(before, last);
      ByteIsFed(0xFFFF_FFFF, MessageBits(before), last);
    }
  }

  lemma ByteIsFed(start: nat, bits: seq<nat>, last: Byte)
    ensures FeedBits(start, bits + BitsOf(last, BYTE_BITS)) == Shifts(Xor(FeedBits(start, bits), last), BYTE_BITS)
  {
    FeedAppend(start, bits, BitsOf(last, BYTE_BITS));
    PowerEight();
    FeedIsAdd(FeedBits(start, bits), last, BYTE_BITS);
  }

  lemma {:induction false} MessageBitsAppend(data: Bytes, last: Byte)
    ensures MessageBits(data + [last]) == MessageBits(data) + BitsOf(last, BYTE_BITS)
    decreases |data|
  {
    if data == [] {
      assert [last][1..] == [];
    } else {
      assert (data + [last])[1..] == data[1..] + [last];
      MessageBitsAppend(data[1..], last);
    }
  }

  // ---- The code ----

  /** The inner loop of the table: `bits` steps from `i`. */
  method StepAll(i: nat, bits: nat) returns (c: nat)
    ensures c == Shifts(i, bits)
  {
    c := i;
    for k := 0 to bits
      invariant Shifts(c, bits - k) == Shifts(i, bits)
    {
      c := if c % 2 != 0 then Xor(POLYNOMIAL, c / 2) else c / 2;
    }
  }

  method BuildTable() returns (table: array<nat>)
    ensures fresh(table) && table.Length == 256
    ensures forall i :: 0 <= i < 256 ==> table[i] == Shifts(i, BYTE_BITS)
  {
    table := new nat[256];
    for i := 0 to 256
      invariant forall j :: 0 <= j < i ==> table[j] == Shifts(j, BYTE_BITS)
    {
      var c := StepAll(i, BYTE_BITS);
      table[i] := c;
    }
  }

  lemma RegisterStep(data: Bytes, i: nat, crc: nat, x: nat, entry: nat)
    requires i < |data| && crc == Register(data[..i])
    requires x == Xor(crc, data[i]) && entry == Shifts(x % 256, BYTE_BITS)
    ensures Xor(entry, crc / 256) == Register(data[..i + 1])
  {
    LookupIsEightShifts(crc, data[i], x, BYTE_BITS);
    assert data[..i + 1][..i] == data[..i];
  }

  /** The table-driven checksum is the reference's, for every input. */
  method Crc32(data: Bytes) returns (crc: nat)
    ensures crc == Reference(data) < 0x1_0000_0000
  {
    var table := BuildTable();
    crc := 0xFFFF_FFFF;
    ghost var register := Register([]);
    for i := 0 to |data|
      invariant register == Register(data[..i]) && crc == register
      invariant forall j :: 0 <= j < 256 ==> table[j] == Shifts(j, BYTE_BITS)
    {
      var x := Xor(crc, data[i]);
      RegisterStep(data, i, crc, x, table[x % 256]);
      crc := Xor(table[x % 256], crc / 256);
      register := Register(data[..i + 1]);
    }
    assert data[..|data|] == data;
    RegisterIsFed(data);
    RegisterIsWord(data);
    crc := 0xFFFF_FFFF - crc;
  }

  lemma {:induction false} ShiftsBelow(c: nat, k: nat)
    requires c < Power(WORD_BITS)
    ensures Shifts(c, k) < Power(WORD_BITS)
    decreases k
  {
    PowerEight();
    if k > 0 {
      XorBelow(POLYNOMIAL, c / 2, WORD_BITS);
      ShiftsBelow(Shift(c), k - 1);
    }
  }

  lemma {:induction false} RegisterIsWord(data: Bytes)
    ensures Register(data) < 0x1_0000_0000
  {
    PowerEight();
    if data != [] {
      RegisterIsWord(data[..|data| - 1]);
      XorBelow(Register(data[..|data| - 1]), data[|data| - 1], WORD_BITS);
      ShiftsBelow(Xor(Register(data[..|data| - 1]), data[|data| - 1]), BYTE_BITS);
    }
  }
}
