/**
 UTF-8 text as friend_structs.cpp handles it: the strict scanner, repair with U+FFFD, truncation
 on a character boundary, and NUL-padded fixed fields.

 The reference is section 3 of RFC 3629: `Encode` maps one Unicode scalar value to its octets.
 */
module Utf8 {
  import opened Basics

  /** A Unicode scalar value: any code point but a surrogate. */
  type Scalar = c: int | 0 <= c < 0xD800 || 0xE000 <= c < 0x11_0000

  function Encode(c: Scalar): (r: Bytes)
    ensures 1 <= |r| <= 4
  {
    if c < 0x80 then [c]
    else if c < 0x800 then [0xC0 + c / 0x40, 0x80 + c % 0x40]
    else if c < 0x1_0000 then [0xE0 + c / 0x40 / 0x40, 0x80 + c / 0x40 % 0x40, 0x80 + c % 0x40]
    else [0xF0 + c / 0x40 / 0x40 / 0x40, 0x80 + c / 0x40 / 0x40 % 0x40, 0x80 + c / 0x40 % 0x40, 0x80 + c % 0x40]
  }

  function EncodeAll(cs: seq<Scalar>): Bytes {
    if cs == [] then [] else Encode(cs[0]) + EncodeAll(cs[1..])
  }

  // ---- The scanner ----

  /** What stands at the front of some bytes: a whole character, or an ill-formed part to replace. */
  datatype Scan = Whole(length: nat) | Broken(length: nat)

  predicate Continues(s: Bytes, k: nat, low: int, high: int) {
    k < |s| && low <= s[k] <= high
  }

  /** How long the lead byte says its character is; 0 when it leads none. */
  function LeadLength(lead: Byte): nat {
    if lead < 0x80 then 1
    else if 0xC2 <= lead <= 0xDF then 2
    else if 0xE0 <= lead <= 0xEF then 3
    else if 0xF0 <= lead <= 0xF4 then 4
    else 0
  }

  /** The lowest second byte that is neither overlong nor past the end of Unicode. */
  function SecondLow(lead: Byte): int {
    if lead == 0xE0 then 0xA0 else if lead == 0xF0 then 0x90 else 0x80
  }

  function SecondHigh(lead: Byte): int {
    if lead == 0xED then 0x9F else if lead == 0xF4 then 0x8F else 0xBF
  }

  function ScanFront(s: Bytes): (r: Scan)
    requires s != []
    ensures 1 <= r.length <= |s|
  {
    var n := LeadLength(s[0]);
    if n == 0 then Broken(1)
    else if n >= 2 && !Continues(s, 1, SecondLow(s[0]), SecondHigh(s[0])) then Broken(1)
    else if n >= 3 && !Continues(s, 2, 0x80, 0xBF) then Broken(2)
    else if n >= 4 && !Continues(s, 3, 0x80, 0xBF) then Broken(3)
    else Whole(n)
  }

  /** Appends a continuation byte's six bits to what was gathered before it. */
  function Gather(high: nat, next: Byte): (r: int)
    requires 0x80 <= next < 0xC0
    ensures r / 0x40 == high && r % 0x40 == next as int - 0x80
  {
    high * 0x40 + (next as int - 0x80)
  }

  /** The scalar value a whole character encodes. */
  function DecodeFront(s: Bytes): (c: Scalar)
    requires s != [] && ScanFront(s).Whole?
  {
    match ScanFront(s).length
    case 1 => s[0]
    case 2 => Gather(s[0] as int - 0xC0, s[1])
    case 3 => Gather(Gather(s[0] as int - 0xE0, s[1]), s[2])
    case _ => Gather(Gather(Gather(s[0] as int - 0xF0, s[1]), s[2]), s[3])
  }

  lemma WholeIsEncoded(s: Bytes)
    requires s != [] && ScanFront(s).Whole?
    ensures Encode(DecodeFront(s)) == s[..ScanFront(s).length]
  {
    var n := ScanFront(s).length;
    assert s[..n] == if n == 1 then [s[0]] else if n == 2 then [s[0], s[1]]
      else if n == 3 then [s[0], s[1], s[2]] else [s[0], s[1], s[2], s[3]];
  }

  lemma EncodedIsWhole(c: Scalar, rest: Bytes)
    ensures ScanFront(Encode(c) + rest) == Whole(|Encode(c)|)
  {
  }

  /** Some character's encoding starts with these bytes. */
  ghost predicate StartsCharacter(s: Bytes) {
    exists c: Scalar :: s <= Encode(c)
  }

  lemma WholeStartsCharacter(s: Bytes, n: nat)
    requires s != [] && ScanFront(s).Whole? && n <= ScanFront(s).length
    ensures StartsCharacter(s[..n])
  {
    WholeIsEncoded(s);
    assert s[..n] <= Encode(DecodeFront(s));
  }

  /**
   What a U+FFFD replaces is the maximal subpart of section 3.9 of the Unicode Standard: no
   longer part starts a character, and when it is more than one byte, it does start one.
   */
  lemma BrokenIsMaximal(s: Bytes, k: nat)
    requires s != [] && ScanFront(s).Broken? && ScanFront(s).length < k <= |s|
    ensures !StartsCharacter(s[..k])
    ensures ScanFront(s).length > 1 ==> StartsCharacter(s[..ScanFront(s).length])
  {
    var n := ScanFront(s).length;
    if c: Scalar :| s[..k] <= Encode(c) {
      EncodedIsWhole(c, []);
    }
    if n > 1 {
      var whole := s[..n] + [0x80, 0x80];
      assert ScanFront(whole) == Whole(LeadLength(s[0]));
      WholeStartsCharacter(whole, n);
      assert whole[..n] == s[..n];
    }
  }

  // ---- Whole texts ----

  predicate Valid(s: Bytes) {
    s == [] || (ScanFront(s).Whole? && Valid(s[ScanFront(s).length..]))
  }

  lemma {:induction false} EncodedIsValid(cs: seq<Scalar>)
    ensures Valid(EncodeAll(cs))
  {
    if cs != [] {
      EncodedIsWhole(cs[0], EncodeAll(cs[1..]));
      assert EncodeAll(cs)[|Encode(cs[0])|..] == EncodeAll(cs[1..]);
      EncodedIsValid(cs[1..]);
    }
  }

  function DecodeAll(s: Bytes): seq<Scalar>
    requires Valid(s)
  {
    if s == [] then [] else [DecodeFront(s)] + DecodeAll(s[ScanFront(s).length..])
  }

  lemma {:induction false} ValidIsEncoded(s: Bytes)
    requires Valid(s)
    ensures EncodeAll(DecodeAll(s)) == s
  {
    if s != [] {
      WholeIsEncoded(s);
      ValidIsEncoded(s[ScanFront(s).length..]);
    }
  }

  /** A byte string is accepted exactly when it encodes some sequence of scalar values. */
  lemma ValidExactly(s: Bytes)
    ensures Valid(s) <==> exists cs: seq<Scalar> :: EncodeAll(cs) == s
  {
    if Valid(s) {
      ValidIsEncoded(s);
    }
    if cs: seq<Scalar> :| EncodeAll(cs) == s {
      EncodedIsValid(cs);
    }
  }

  // ---- Repair ----

  const REPLACEMENT: Bytes := [0xEF, 0xBF, 0xBD]

  function Lossy(s: Bytes): Bytes {
    if s == [] then []
    else
      var n := ScanFront(s).length;
      (if ScanFront(s).Whole? then s[..n] else REPLACEMENT) + Lossy(s[n..])
  }

  /** More bytes after a whole character do not change it. */
  lemma FrontStable(s: Bytes, rest: Bytes)
    requires s != [] && ScanFront(s).Whole?
    ensures ScanFront(s + rest) == ScanFront(s)
    ensures (s + rest)[..ScanFront(s).length] == s[..ScanFront(s).length]
    ensures (s + rest)[ScanFront(s).length..] == s[ScanFront(s).length..] + rest
  {
  }

  lemma WholeThen(s: Bytes, rest: Bytes)
    requires s != [] && ScanFront(s) == Whole(|s|) && Valid(rest)
    ensures Valid(s + rest)
  {
    FrontStable(s, rest);
  }

  lemma FrontAlone(s: Bytes)
    requires s != [] && ScanFront(s).Whole?
    ensures ScanFront(s[..ScanFront(s).length]) == ScanFront(s)
  {
  }

  lemma {:induction false} LossyIsValid(s: Bytes)
    ensures Valid(Lossy(s))
  {
    if s != [] {
      var n := ScanFront(s).length;
      LossyIsValid(s[n..]);
      if ScanFront(s).Whole? {
        FrontAlone(s);
        WholeThen(s[..n], Lossy(s[n..]));
      } else {
        WholeThen(REPLACEMENT, Lossy(s[n..]));
      }
    }
  }

  lemma {:induction false} LossyKeepsValid(s: Bytes)
    requires Valid(s)
    ensures Lossy(s) == s
  {
    if s != [] {
      LossyKeepsValid(s[ScanFront(s).length..]);
    }
  }

  /** Repair yields valid text, changes nothing exactly when the text was valid, and is idempotent. */
  lemma LossyRepairs(s: Bytes)
    ensures Valid(Lossy(s))
    ensures Lossy(s) == s <==> Valid(s)
    ensures Lossy(Lossy(s)) == Lossy(s)
  {
    LossyIsValid(s);
    LossyKeepsValid(Lossy(s));
    if Valid(s) {
      LossyKeepsValid(s);
    }
  }

  /** Repair never touches the valid text before the first broken part. */
  lemma {:induction false} LossyAfterValid(s: Bytes, rest: Bytes)
    requires Valid(s)
    ensures Lossy(s + rest) == s + Lossy(rest)
  {
    if s == [] {
      assert s + rest == rest;
    } else {
      var n := ScanFront(s).length;
      var front, tail := s[..n], s[n..];
      calc {
        Lossy(s + rest);
        { FrontStable(s, rest); }
        front + Lossy(tail + rest);
        { LossyAfterValid(tail, rest); }
        front + (tail + Lossy(rest));
        { assert front + tail == s; }
        s + Lossy(rest);
      }
    }
  }

  // ---- The loops ----

  /** The byte `k` places past `i`, or -1 past the end. */
  function At(bytes: Bytes, i: nat, k: nat): int {
    if i + k < |bytes| then bytes[i + k] else -1
  }

  /** The length of the character at `i`; 0, and the length of what to replace, when there is none. */
  method Utf8Sequence(bytes: Bytes, i: nat) returns (length: nat, bad: nat)
    requires i < |bytes|
    ensures length != 0 ==> ScanFront(bytes[i..]) == Whole(length)
    ensures length == 0 ==> ScanFront(bytes[i..]) == Broken(bad)
  {
    ghost var s := bytes[i..];
    var lead := At(bytes, i, 0);
    bad := 1;
    if lead < 0x80 {
      return 1, bad;
    }
    var low, high := 0x80, 0xBF;
    if 0xC2 <= lead <= 0xDF {
      length := 2;
    } else if 0xE0 <= lead <= 0xEF {
      length := 3;
      low := if lead == 0xE0 then 0xA0 else 0x80;
      high := if lead == 0xED then 0x9F else 0xBF;
    } else if 0xF0 <= lead <= 0xF4 {
      length := 4;
      low := if lead == 0xF0 then 0x90 else 0x80;
      high := if lead == 0xF4 then 0x8F else 0xBF;
    } else {
      return 0, bad;
    }
    for k := 1 to length
      invariant k > 1 ==> Continues(s, 1, low, high)
      invariant k > 2 ==> Continues(s, 2, 0x80, 0xBF)
      invariant k > 3 ==> Continues(s, 3, 0x80, 0xBF)
    {
      var byte := At(bytes, i, k);
      var min := if k == 1 then low else 0x80;
      var max := if k == 1 then high else 0xBF;
      if byte < min || byte > max {
        assert !Continues(s, k, min, max);
        return 0, k;
      }
    }
  }

  method ValidUtf8(bytes: Bytes) returns (valid: bool)
    ensures valid <==> exists cs: seq<Scalar> :: EncodeAll(cs) == bytes
  {
    ValidExactly(bytes);
    var i := 0;
    while i < |bytes|
      invariant i <= |bytes|
      invariant Valid(bytes) <==> Valid(bytes[i..])
    {
      var length, _ := Utf8Sequence(bytes, i);
      if length == 0 {
        return false;
      }
      assert bytes[i..][length..] == bytes[i + length..];
      i := i + length;
    }
    return true;
  }

  /** One character copied, or one bad stretch replaced. */
  predicate OneRepaired(bytes: Bytes, i: nat, out: Bytes, next: nat, more: Bytes) {
    i < next <= |bytes| &&
    match ScanFront(bytes[i..])
    case Whole(n) => next == i + n && more == out + bytes[i..next]
    case Broken(n) => next == i + n && more == out + REPLACEMENT
  }

  lemma RepairStep(bytes: Bytes, i: nat, out: Bytes, next: nat, more: Bytes)
    requires OneRepaired(bytes, i, out, next, more)
    ensures more + Lossy(bytes[next..]) == out + Lossy(bytes[i..])
  {
    var s, n := bytes[i..], next - i;
    assert s[..n] == bytes[i..next] && s[n..] == bytes[next..];
    Assoc(out, if ScanFront(s).Whole? then s[..n] else REPLACEMENT, Lossy(s[n..]));
  }

  method LossyOne(bytes: Bytes, i: nat, out: Bytes) returns (more: Bytes, next: nat)
    requires i < |bytes|
    ensures OneRepaired(bytes, i, out, next, more)
  {
    var length, bad := Utf8Sequence(bytes, i);
    if length == 0 {
      return out + REPLACEMENT, i + bad;
    }
    return out + bytes[i..i + length], i + length;
  }

  method Utf8Lossy(bytes: Bytes) returns (out: Bytes)
    ensures out == Lossy(bytes)
  {
    out := [];
    var i := 0;
    ghost var whole := Lossy(bytes);
    while i < |bytes|
      invariant i <= |bytes|
      invariant out + Lossy(bytes[i..]) == whole
    {
      var more, next := LossyOne(bytes, i, out);
      RepairStep(bytes, i, out, next, more);
      out, i := more, next;
    }
    assert bytes[i..] == [];
  }

  // ---- Truncation ----

  predicate Continuation(b: Byte) {
    0x80 <= b < 0xC0
  }

  /** A place where the code may cut: the ends, or in front of a byte that continues nothing. */
  predicate Cut(s: Bytes, k: nat) {
    k == 0 || k == |s| || (k < |s| && !Continuation(s[k]))
  }

  /** In valid text the places the code may cut are exactly those between two characters. */
  lemma {:induction false} CutsAreBoundaries(s: Bytes, k: nat)
    requires Valid(s) && k <= |s|
    ensures Cut(s, k) <==> Valid(s[..k])
    ensures Cut(s, k) ==> Valid(s[k..])
  {
    if k == 0 {
    } else {
      var n := ScanFront(s).length;
      var tail := s[n..];
      if k < n {
        CutInsideCharacter(s, k);
      } else {
        CutsAreBoundaries(tail, k - n);
        assert tail[k - n..] == s[k..];
        assert s[..k][n..] == tail[..k - n];
        assert s[..k][..n] == s[..n];
        assert ScanFront(s[..k]) == ScanFront(s);
        if k == n && tail != [] {
          assert tail[0] == s[n];
        }
      }
    }
  }

  lemma CutInsideCharacter(s: Bytes, k: nat)
    requires s != [] && ScanFront(s).Whole? && 0 < k < ScanFront(s).length
    ensures Continuation(s[k]) && !Valid(s[..k])
  {
    assert ScanFront(s[..k]).Broken?;
  }

  /** The longest cut not past the limit, found by stepping back from it. */
  method Utf8Fits(encoded: Bytes, limit: nat) returns (length: nat)
    ensures length == Fits(encoded, limit)
  {
    length := Min(|encoded|, limit);
    while length > 0 && length < |encoded| && Continuation(encoded[length])
      invariant length <= |encoded|
      invariant Fits(encoded, limit) == LastCut(encoded, length)
    {
      length := length - 1;
    }
  }

  function LastCut(s: Bytes, k: nat): (r: nat)
    requires k <= |s|
    ensures r <= k && Cut(s, r)
    ensures forall j :: r < j <= k ==> !Cut(s, j)
  {
    if Cut(s, k) then k else LastCut(s, k - 1)
  }

  function Fits(s: Bytes, limit: nat): (r: nat)
    ensures r <= |s| && r <= limit
  {
    LastCut(s, Min(|s|, limit))
  }

  /** For valid text it is the longest valid prefix within the limit; all of it when it fits. */
  lemma FitsIsLongest(s: Bytes, limit: nat, k: nat)
    requires Valid(s) && k <= |s| && k <= limit
    ensures Valid(s[..Fits(s, limit)]) && Valid(s[Fits(s, limit)..])
    ensures Valid(s[..k]) ==> k <= Fits(s, limit)
    ensures |s| <= limit ==> Fits(s, limit) == |s|
  {
    CutsAreBoundaries(s, Fits(s, limit));
    CutsAreBoundaries(s, k);
  }

  lemma FitsKeepsValid(s: Bytes, limit: nat, n: nat)
    requires Valid(s) && n == Fits(s, limit)
    ensures n <= |s| && n <= limit && Valid(s[..n]) && (|s| <= limit ==> n == |s|)
  {
    FitsIsLongest(s, limit, 0);
  }

  // ---- Fixed fields ----

  /** What a field of `size` bytes holds after `value` was written to it. */
  function FieldOf(size: nat, value: Bytes): (r: Bytes)
    ensures |r| == size
  {
    if size < 2 then Zeros(size)
    else value[..Fits(value, size - 1)] + Zeros(size - Fits(value, size - 1))
  }

  /** Fills a fixed field in place: zeros, then as many whole characters as leave a NUL. */
  method FixedUtf8(destination: array<Byte>, value: Bytes)
    modifies destination
    ensures destination[..] == FieldOf(destination.Length, value)
  {
    for i := 0 to destination.Length
      invariant forall j :: 0 <= j < i ==> destination[j] == 0
    {
      destination[i] := 0;
    }
    if value == [] || destination.Length < 2 {
      assert destination[..] == Zeros(destination.Length);
      assert value == [] ==> [] + Zeros(destination.Length) == Zeros(destination.Length);
      return;
    }
    var length := Utf8Fits(value, destination.Length - 1);
    for i := 0 to length
      invariant destination[..i] == value[..i]
      invariant forall j :: i <= j < destination.Length ==> destination[j] == 0
    {
      destination[i] := value[i];
    }
  }

  function FirstNul(field: Bytes): (r: nat)
    ensures r <= |field| && (r < |field| ==> field[r] == 0)
    ensures forall j :: 0 <= j < r ==> field[j] != 0
  {
    if field == [] || field[0] == 0 then 0 else 1 + FirstNul(field[1..])
  }

  lemma NulAfter(text: Bytes, zeros: Bytes)
    requires 0 !in text && zeros != [] && zeros[0] == 0
    ensures FirstNul(text + zeros) == |text|
    ensures (text + zeros)[..|text|] == text
  {
    var field := text + zeros;
    assert field[|text|] == 0;
    assert forall j :: 0 <= j < |text| ==> field[j] == text[j] != 0;
  }

  /** A NUL-terminated field as text, ill-formed parts replaced. */
  function Text(field: Bytes): (r: Bytes) {
    Lossy(field[..FirstNul(field)])
  }

  /**
   Reading back a field gives the longest whole-character prefix that leaves room for a NUL, and
   all of the text when that fits. What ends up in the field is never ill-formed.
   */
  lemma FieldRoundTrip(size: nat, value: Bytes, field: Bytes)
    requires size >= 2 && Valid(value) && 0 !in value && field == FieldOf(size, value)
    ensures Text(field) == value[..Fits(value, size - 1)]
    ensures |value| < size ==> value[..Fits(value, size - 1)] == value
  {
    var n := Fits(value, size - 1);
    FitsKeepsValid(value, size - 1, n);
    FieldIs(size, value, n);
    FieldReads(value, n, field, Zeros(size - n));
  }

  lemma FieldIs(size: nat, value: Bytes, n: nat)
    requires size >= 2 && n == Fits(value, size - 1)
    ensures n < size && FieldOf(size, value) == value[..n] + Zeros(size - n)
  {
  }

  lemma FieldReads(value: Bytes, n: nat, field: Bytes, zeros: Bytes)
    requires n <= |value| && Valid(value[..n]) && 0 !in value
    requires field == value[..n] + zeros && zeros != [] && zeros[0] == 0
    ensures Text(field) == value[..n]
  {
    PaddedText(field, value[..n], zeros);
  }

  lemma PaddedText(field: Bytes, text: Bytes, zeros: Bytes)
    requires field == text + zeros && Valid(text) && 0 !in text && zeros != [] && zeros[0] == 0
    ensures Text(field) == text
  {
    NulAfter(text, zeros);
    LossyKeepsValid(text);
  }
}
