/**
 The conversion between the guest's `key NUL value NUL` blob and the JSON object the console
 publishes for it: BlobToAppField and AppFieldToBlob of friend_structs.cpp.
 */
module AppField {
  import opened Basics
  import opened Utf8
  import opened Json

  predicate KeyByte(b: Byte) {
    0x61 <= b <= 0x7A || 0x41 <= b <= 0x5A || 0x30 <= b <= 0x39 || b == 0x5F
  }

  predicate ValidKey(key: Bytes) {
    key != [] && forall i :: 0 <= i < |key| ==> KeyByte(key[i])
  }

  /** One pair in the blob: the key and the value, both NUL-terminated. */
  function Laid(pair: Pair): (r: Bytes)
    ensures r != []
  {
    pair.key + ([0] + (pair.value + [0]))
  }

  function Layout(pairs: seq<Pair>): Bytes {
    if pairs == [] then [] else Laid(pairs[0]) + Layout(pairs[1..])
  }

  predicate Distinct(pairs: seq<Pair>) {
    forall i, j :: 0 <= i < j < |pairs| ==> pairs[i].key != pairs[j].key
  }

  /** Pairs a blob may hold: valid distinct keys, values that are NUL-free UTF-8. */
  predicate Publishable(pairs: seq<Pair>) {
    Distinct(pairs) &&
    forall i :: 0 <= i < |pairs| ==> ValidKey(pairs[i].key) && Valid(pairs[i].value) && 0 !in pairs[i].value
  }

  // ---- Reading the blob ----

  predicate Known(key: Bytes, pairs: seq<Pair>) {
    exists i :: 0 <= i < |pairs| && pairs[i].key == key
  }

  /** One pair off the front of the blob. */
  datatype Taken = Taken(pair: Pair, rest: Bytes)

  function TakePair(rest: Bytes): (r: Option<Taken>)
    ensures r.Some? ==> |r.value.rest| < |rest|
  {
    var k := FirstNul(rest);
    if k == |rest| then None
    else
      var after := rest[k + 1..];
      var v := FirstNul(after);
      if v == |after| then None else Some(Taken(Pair(rest[..k], after[..v]), after[v + 1..]))
  }

  lemma TakenWasLaid(rest: Bytes)
    requires TakePair(rest).Some?
    ensures rest == Laid(TakePair(rest).value.pair) + TakePair(rest).value.rest
    ensures 0 !in TakePair(rest).value.pair.value
  {
    var k := FirstNul(rest);
    var after := rest[k + 1..];
    var v := FirstNul(after);
    SplitAt(rest, k);
    SplitAt(after, v);
    LaidThen(Pair(rest[..k], after[..v]), after[v + 1..]);
  }

  lemma LaidThen(pair: Pair, rest: Bytes)
    ensures Laid(pair) + rest == pair.key + ([0] + (pair.value + ([0] + rest)))
  {
    Assoc(pair.value, [0], rest);
    Assoc([0], pair.value + [0], rest);
    Assoc(pair.key, [0] + (pair.value + [0]), rest);
  }

  lemma LaidIsTaken(pair: Pair, rest: Bytes)
    requires 0 !in pair.key && 0 !in pair.value
    ensures TakePair(Laid(pair) + rest) == Some(Taken(pair, rest))
  {
    var after := pair.value + ([0] + rest);
    LaidThen(pair, rest);
    NulAfter(pair.key, [0] + after);
    NulAfter(pair.value, [0] + rest);
    assert (pair.key + ([0] + after))[|pair.key| + 1..] == after;
    assert after[|pair.value| + 1..] == rest;
  }

  /** The pairs the blob goes on to hold after `seen`; None when what follows is malformed. */
  function PairsAfter(rest: Bytes, seen: seq<Pair>): Option<seq<Pair>>
    decreases |rest|
  {
    if rest == [] || rest[0] == 0 then Some(seen)
    else
      match TakePair(rest)
      case None => None
      case Some(taken) =>
        if !Valid(taken.pair.value) || !ValidKey(taken.pair.key) || Known(taken.pair.key, seen) then None
        else PairsAfter(taken.rest, seen + [taken.pair])
  }

  function PairsOf(blob: Bytes): Option<seq<Pair>> {
    PairsAfter(blob, [])
  }

  lemma {:induction false} LayoutAppend(a: seq<Pair>, b: seq<Pair>)
    ensures Layout(a + b) == Layout(a) + Layout(b)
  {
    if a == [] {
      assert a + b == b;
    } else {
      assert (a + b)[1..] == a[1..] + b;
      LayoutAppend(a[1..], b);
    }
  }

  /** A blob is the layout of `pairs`, padded with anything that starts with a NUL. */
  predicate Holds(blob: Bytes, pairs: seq<Pair>) {
    Layout(pairs) <= blob && (blob[|Layout(pairs)|..] == [] || blob[|Layout(pairs)|] == 0)
  }

  lemma {:induction false} ParsedPairsHold(rest: Bytes, seen: seq<Pair>, blob: Bytes)
    requires blob == Layout(seen) + rest && Publishable(seen) && PairsAfter(rest, seen).Some?
    ensures Publishable(PairsAfter(rest, seen).value) && Holds(blob, PairsAfter(rest, seen).value)
    decreases |rest|
  {
    if rest == [] || rest[0] == 0 {
      assert blob[|Layout(seen)|..] == rest;
    } else {
      var taken := TakePair(rest).value;
      TakenWasLaid(rest);
      LayoutOne(seen, taken.pair);
      Assoc(Layout(seen), Laid(taken.pair), taken.rest);
      PublishableOne(seen, taken.pair);
      ParsedPairsHold(taken.rest, seen + [taken.pair], blob);
    }
  }

  lemma LayoutOne(seen: seq<Pair>, pair: Pair)
    ensures Layout(seen + [pair]) == Layout(seen) + Laid(pair)
  {
    LayoutAppend(seen, [pair]);
    assert Layout([pair]) == Laid(pair) + [] == Laid(pair);
  }

  lemma PublishableOne(seen: seq<Pair>, pair: Pair)
    ensures Publishable(seen + [pair]) <==>
            Publishable(seen) && !Known(pair.key, seen) && ValidKey(pair.key) && Valid(pair.value) && 0 !in pair.value
  {
    var all := seen + [pair];
    assert all[|seen|] == pair && forall i :: 0 <= i < |seen| ==> all[i] == seen[i];
  }

  lemma PublishablePrefix(seen: seq<Pair>, rest: seq<Pair>)
    requires Publishable(seen + rest)
    ensures Publishable(seen)
  {
    assert forall i :: 0 <= i < |seen| ==> (seen + rest)[i] == seen[i];
  }

  lemma LaidPairParses(pair: Pair, rest: Bytes, seen: seq<Pair>)
    requires ValidKey(pair.key) && Valid(pair.value) && 0 !in pair.value && !Known(pair.key, seen)
    ensures PairsAfter(Laid(pair) + rest, seen) == PairsAfter(rest, seen + [pair])
  {
    assert (Laid(pair) + rest)[0] == pair.key[0];
    LaidIsTaken(pair, rest);
  }

  lemma {:induction false} HeldPairsParse(pairs: seq<Pair>, tail: Bytes, seen: seq<Pair>)
    requires Publishable(seen + pairs) && (tail == [] || tail[0] == 0)
    ensures PairsAfter(Layout(pairs) + tail, seen) == Some(seen + pairs)
    decreases |pairs|
  {
    if pairs == [] {
      assert Layout(pairs) + tail == tail && seen + pairs == seen;
    } else {
      var pair, more := pairs[0], pairs[1..];
      assert seen + pairs == seen + [pair] + more;
      PublishablePrefix(seen + [pair], more);
      PublishableOne(seen, pair);
      LaidPairParses(pair, Layout(more) + tail, seen);
      Assoc(Laid(pair), Layout(more), tail);
      HeldPairsParse(more, tail, seen + [pair]);
    }
  }

  /** The blob parses to `pairs` exactly when it is their layout and they may be published. */
  lemma PairsExactly(blob: Bytes, pairs: seq<Pair>)
    ensures PairsOf(blob) == Some(pairs) <==> Publishable(pairs) && Holds(blob, pairs)
  {
    if PairsOf(blob) == Some(pairs) {
      ParsedPairsHold(blob, [], blob);
    }
    if Publishable(pairs) && Holds(blob, pairs) {
      var tail := blob[|Layout(pairs)|..];
      assert blob == Layout(pairs) + tail && [] + pairs == pairs;
      HeldPairsParse(pairs, tail, []);
    }
  }

  // ---- Printing the object ----

  function PrintPair(pair: Pair): Bytes {
    Quoted(pair.key) + [COLON] + Quoted(pair.value)
  }

  /** The pairs from here on, a comma between two, and the closing brace. */
  function PrintPairs(pairs: seq<Pair>): Bytes {
    if pairs == [] then [CLOSE]
    else PrintPair(pairs[0]) + ((if |pairs| > 1 then [COMMA] else []) + PrintPairs(pairs[1..]))
  }

  function Print(pairs: seq<Pair>): Bytes {
    [OPEN] + PrintPairs(pairs)
  }

  /** The text BlobToAppField publishes: "{}" when the blob does not validate. */
  function Published(blob: Bytes): Bytes {
    match PairsOf(blob)
    case None => [OPEN, CLOSE]
    case Some(pairs) => Print(pairs)
  }

  method Contains(pairs: seq<Pair>, key: Bytes) returns (found: bool)
    ensures found <==> Known(key, pairs)
  {
    for i := 0 to |pairs|
      invariant !Known(key, pairs[..i])
    {
      if pairs[i].key == key {
        return true;
      }
      assert pairs[..i + 1] == pairs[..i] + [pairs[i]];
    }
    assert pairs[..|pairs|] == pairs;
    return false;
  }

  method NextPair(rest: Bytes) returns (whole: bool, key: Bytes, value: Bytes, after: Bytes)
    ensures TakePair(rest) == if whole then Some(Taken(Pair(key, value), after)) else None
  {
    key, value, after := [], [], [];
    var keyEnd := FirstNul(rest);
    if keyEnd == |rest| {
      return false, key, value, after;
    }
    key := rest[..keyEnd];
    after := rest[keyEnd + 1..];
    var valueEnd := FirstNul(after);
    if valueEnd == |after| {
      return false, key, value, after;
    }
    return true, key, after[..valueEnd], after[valueEnd + 1..];
  }

  method BlobToAppField(blob: Bytes) returns (out: Bytes)
    ensures out == Published(blob)
  {
    var rest := blob;
    var pairs: seq<Pair> := [];
    while rest != [] && rest[0] != 0
      invariant PairsAfter(rest, pairs) == PairsOf(blob)
      decreases |rest|
    {
      var whole, key, value, after := NextPair(rest);
      if !whole {
        return [OPEN, CLOSE];
      }
      rest := after;
      var valid := ValidUtf8(value);
      ValidExactly(value);
      var known := Contains(pairs, key);
      if !valid || !ValidKey(key) || known {
        return [OPEN, CLOSE];
      }
      pairs := pairs + [Pair(key, value)];
    }
    out := WriteObject(pairs);
  }

  method WriteObject(pairs: seq<Pair>) returns (out: Bytes)
    ensures out == Print(pairs)
  {
    out := [OPEN];
    for i := 0 to |pairs|
      invariant out + PrintAt(pairs, i) == Print(pairs)
    {
      PrintStep(pairs, i, out);
      out := WriteMember(out, pairs[i], i != 0);
    }
    out := out + [CLOSE];
  }

  method WriteMember(out: Bytes, pair: Pair, comma: bool) returns (more: Bytes)
    ensures more == out + (if comma then [COMMA] else []) + Quoted(pair.key) + [COLON] + Quoted(pair.value)
  {
    more := out;
    if comma {
      more := more + [COMMA];
    }
    more := AppendJsonString(more, pair.key);
    more := more + [COLON];
    more := AppendJsonString(more, pair.value);
  }

  /** What is still to print once `i` pairs are out. */
  function PrintAt(pairs: seq<Pair>, i: nat): Bytes
    requires i <= |pairs|
  {
    (if 0 < i < |pairs| then [COMMA] else []) + PrintPairs(pairs[i..])
  }

  lemma PrintStep(pairs: seq<Pair>, i: nat, out: Bytes)
    requires i < |pairs|
    ensures var comma := if i != 0 then [COMMA] else [];
            out + PrintAt(pairs, i) ==
            out + comma + Quoted(pairs[i].key) + [COLON] + Quoted(pairs[i].value) + PrintAt(pairs, i + 1)
  {
    assert pairs[i..][1..] == pairs[i + 1..];
    var comma := if i != 0 then [COMMA] else [];
    Five(out, comma, Quoted(pairs[i].key), [COLON], Quoted(pairs[i].value), PrintAt(pairs, i + 1));
  }

  lemma Five(out: Bytes, comma: Bytes, key: Bytes, colon: Bytes, value: Bytes, more: Bytes)
    ensures out + (comma + (key + colon + value + more)) == out + comma + key + colon + value + more
  {
  }

  // ---- Writing the blob ----

  /** The collected pairs that reach the blob: invalid keys skipped, stopping at the first misfit. */
  function Kept(pairs: seq<Pair>, room: nat): (r: seq<Pair>)
    ensures |Layout(r)| <= room
  {
    if pairs == [] then []
    else if !ValidKey(pairs[0].key) then Kept(pairs[1..], room)
    else if |pairs[0].key| + |pairs[0].value| + 2 > room then []
    else
      var r := [pairs[0]] + Kept(pairs[1..], room - |Laid(pairs[0])|);
      assert Layout(r) == Laid(pairs[0]) + Layout(r[1..]);
      r
  }

  /** The pairs whose key a game could have. */
  function Keyed(pairs: seq<Pair>): seq<Pair> {
    if pairs == [] then []
    else if ValidKey(pairs[0].key) then [pairs[0]] + Keyed(pairs[1..])
    else Keyed(pairs[1..])
  }

  /** So many of the pairs fit, and not one more. */
  predicate Fit(pairs: seq<Pair>, n: nat, room: nat) {
    n <= |pairs| && |Layout(pairs[..n])| <= room && (n < |pairs| ==> |Layout(pairs[..n + 1])| > room)
  }

  lemma FrontLayout(pairs: seq<Pair>, n: nat)
    requires n < |pairs|
    ensures pairs[..n + 1] == [pairs[0]] + pairs[1..][..n]
    ensures |Layout(pairs[..n + 1])| == |Laid(pairs[0])| + |Layout(pairs[1..][..n])|
  {
    assert pairs[..n + 1][1..] == pairs[1..][..n];
  }

  /** What is kept: of the pairs with a valid key, the longest front that fits. A shorter pair later is not tried. */
  lemma {:induction false} KeptExactly(pairs: seq<Pair>, room: nat, n: nat)
    ensures n == |Kept(pairs, room)| <==> Fit(Keyed(pairs), n, room)
    ensures Kept(pairs, room) <= Keyed(pairs)
    decreases |pairs|
  {
    if pairs != [] && ValidKey(pairs[0].key) {
      var keyed, rest := Keyed(pairs), Keyed(pairs[1..]);
      assert keyed[1..] == rest;
      FrontLayout(keyed, 0);
      if |Laid(pairs[0])| > room {
        if n > 0 && Fit(keyed, n, room) {
          FrontLayout(keyed, n - 1);
        }
      } else if n > 0 {
        KeptExactly(pairs[1..], room - |Laid(pairs[0])|, n - 1);
        if n <= |keyed| {
          FrontLayout(keyed, n - 1);
        }
        if n < |keyed| {
          FrontLayout(keyed, n);
        }
      } else {
        KeptExactly(pairs[1..], room - |Laid(pairs[0])|, 0);
      }
    } else if pairs != [] {
      KeptExactly(pairs[1..], room, n);
    }
  }

  /** A blob of `size` bytes with some pairs at its front and zeros after them. */
  function Padded(pairs: seq<Pair>, size: nat): (r: Bytes)
    requires |Layout(pairs)| <= size
    ensures |r| == size
  {
    Layout(pairs) + Zeros(size - |Layout(pairs)|)
  }

  /** The pairs a text asks for; None when nothing is written at all. */
  function Requested(text: Bytes): Option<seq<Pair>> {
    if text == [] || text[0] != OPEN || text[|text| - 1] != CLOSE then None
    else
      match ParseDocument(text)
      case None => None
      case Some(v) => Collected(v)
  }

  function Restored(text: Bytes, size: nat): (r: Bytes)
    ensures |r| == size
  {
    match Requested(text)
    case None => Zeros(size)
    case Some(pairs) => Padded(Kept(pairs, size), size)
  }

  /**
   What a text becomes as a blob: when it stands in braces, is one JSON document and nests no deeper than
   the limit, the pairs of its top strings that are kept, laid out, and zeros; else zeros alone.
   */
  lemma RestoredExactly(text: Bytes, size: nat)
    ensures Restored(text, size) ==
            if text != [] && text[0] == 0x7B && text[|text| - 1] == 0x7D && ParseDocument(text).Some? &&
               Depth(ParseDocument(text).value) <= 64
            then Padded(Kept(TopStrings(ParseDocument(text).value), size), size)
            else Zeros(size)
  {
    if ParseDocument(text).Some? {
      CollectsTopStrings(ParseDocument(text).value);
    }
  }

  function Patch(s: Bytes, offset: nat, bytes: Bytes): (r: Bytes)
    requires offset + |bytes| <= |s|
    ensures |r| == |s|
  {
    s[..offset] + bytes + s[offset + |bytes|..]
  }

  /** Copies `bytes` into the blob and leaves the rest of it alone. */
  method CopyTo(blob: array<Byte>, offset: nat, bytes: Bytes)
    requires offset + |bytes| <= blob.Length
    modifies blob
    ensures blob[..] == Patch(old(blob[..]), offset, bytes)
  {
    for i := 0 to |bytes|
      invariant forall j :: 0 <= j < i ==> blob[offset + j] == bytes[j]
      invariant forall j :: 0 <= j < offset || offset + i <= j < blob.Length ==> blob[j] == old(blob[j])
    {
      blob[offset + i] := bytes[i];
    }
  }

  /** The library's parse, seen through the callbacks it makes. */
  method SaxParse(text: Bytes) returns (ok: bool, pairs: seq<Pair>)
    ensures match ParseDocument(text)
            case None => !ok
            case Some(v) => (ok <==> Collected(v).Some?) && (ok ==> pairs == Collected(v).value)
  {
    pairs := [];
    match ParseDocument(text) {
      case None => ok := false;
      case Some(v) =>
        var collected := new TopLevelStrings();
        ok := collected.ReceiveAll(Events(v));
        pairs := collected.pairs;
    }
  }

  method AppFieldToBlob(text: Bytes, blob: array<Byte>)
    modifies blob
    ensures blob[..] == Restored(text, blob.Length)
  {
    for i := 0 to blob.Length
      invariant forall j :: 0 <= j < i ==> blob[j] == 0
    {
      blob[i] := 0;
    }
    assert blob[..] == Zeros(blob.Length);
    if text == [] || text[0] != OPEN || text[|text| - 1] != CLOSE {
      return;
    }
    var ok, pairs := SaxParse(text);
    if !ok {
      return;
    }
    WritePairs(pairs, blob);
  }

  /** What the two copies of a pair's key and value make of the blob. */
  lemma PaddedOne(written: seq<Pair>, pair: Pair, size: nat)
    requires |Layout(written)| + |Laid(pair)| <= size
    ensures |Layout(written + [pair])| <= size
    ensures var before, o := Padded(written, size), |Layout(written)|;
            Patch(Patch(before, o, pair.key), o + |pair.key| + 1, pair.value) == Padded(written + [pair], size)
  {
    var before, o := Padded(written, size), |Layout(written)|;
    var zeros := Zeros(size - o);
    var keyed := Patch(before, o, pair.key);
    LayoutOne(written, pair);
    Cuts(Layout(written), zeros);
    assert keyed == Layout(written) + (pair.key + zeros[|pair.key|..]);
  }

  method WritePairs(pairs: seq<Pair>, blob: array<Byte>)
    requires blob[..] == Zeros(blob.Length)
    modifies blob
    ensures blob[..] == Padded(Kept(pairs, blob.Length), blob.Length)
  {
    var offset := 0;
    ghost var written: seq<Pair> := [];
    for i := 0 to |pairs|
      invariant offset == |Layout(written)| <= blob.Length
      invariant blob[..] == Padded(written, blob.Length)
      invariant Going(pairs, i, written, blob.Length)
    {
      var key, value := pairs[i].key, pairs[i].value;
      KeptStep(pairs, i, written, blob.Length);
      if !ValidKey(key) {
        continue;
      }
      if offset + |key| + |value| + 2 > blob.Length {
        return;
      }
      offset := WritePair(pairs[i], blob, offset, written);
      written := written + [pairs[i]];
    }
    NoneLeft(pairs, written, blob.Length);
  }

  /** With the first `i` pairs looked at and these written, what is kept of the others follows. */
  predicate Going(pairs: seq<Pair>, i: nat, written: seq<Pair>, size: nat) {
    i <= |pairs| && |Layout(written)| <= size &&
    Kept(pairs, size) == written + Kept(pairs[i..], size - |Layout(written)|)
  }

  lemma NoneLeft(pairs: seq<Pair>, written: seq<Pair>, size: nat)
    requires Going(pairs, |pairs|, written, size)
    ensures Kept(pairs, size) == written
  {
    assert pairs[|pairs|..] == [] && written + [] == written;
  }

  lemma KeptStep(pairs: seq<Pair>, i: nat, written: seq<Pair>, size: nat)
    requires Going(pairs, i, written, size) && i < |pairs|
    ensures var p, at := pairs[i], |Layout(written)|;
            if !ValidKey(p.key) then Going(pairs, i + 1, written, size)
            else if at + |p.key| + |p.value| + 2 > size then Kept(pairs, size) == written
            else Going(pairs, i + 1, written + [p], size)
  {
    var p, room := pairs[i], size - |Layout(written)|;
    assert pairs[i..][1..] == pairs[i + 1..];
    if ValidKey(p.key) && |p.key| + |p.value| + 2 <= room {
      LayoutOne(written, p);
      Assoc(written, [p], Kept(pairs[i + 1..], room - |Laid(p)|));
    }
  }

  /** A key, a NUL, a value and a NUL over the zeros: the two copies, one after the other. */
  method CopyTwo(blob: array<Byte>, offset: nat, key: Bytes, value: Bytes) returns (next: nat)
    requires offset + |key| + |value| + 2 <= blob.Length
    modifies blob
    ensures next == offset + |key| + |value| + 2
    ensures blob[..] == Patch(Patch(old(blob[..]), offset, key), offset + |key| + 1, value)
  {
    CopyTo(blob, offset, key);
    next := offset + |key| + 1;
    CopyTo(blob, next, value);
    next := next + |value| + 1;
  }

  /** Puts one pair into the blob; returns the offset after it. */
  method WritePair(pair: Pair, blob: array<Byte>, offset: nat, ghost written: seq<Pair>) returns (next: nat)
    requires offset == |Layout(written)| && offset + |pair.key| + |pair.value| + 2 <= blob.Length
    requires blob[..] == Padded(written, blob.Length)
    modifies blob
    ensures next == offset + |Laid(pair)| == |Layout(written + [pair])| <= blob.Length
    ensures blob[..] == Padded(written + [pair], blob.Length)
  {
    PaddedOne(written, pair, blob.Length);
    LayoutOne(written, pair);
    next := CopyTwo(blob, offset, pair.key, pair.value);
  }

  // ---- There and back ----

  function MembersOf(pairs: seq<Pair>): Members {
    if pairs == [] then NoMembers
    else Member(pairs[0].key, Str(pairs[0].value), MembersOf(pairs[1..]))
  }

  lemma {:induction false} MembersOfStrings(pairs: seq<Pair>)
    ensures StringMembers(MembersOf(pairs)) == pairs
    ensures MembersDepth(MembersOf(pairs)) == 0
  {
    if pairs != [] {
      MembersOfStrings(pairs[1..]);
    }
  }

  lemma {:induction false} KeysAreText(key: Bytes)
    requires forall i :: 0 <= i < |key| ==> KeyByte(key[i])
    ensures Valid(key)
  {
    if key != [] {
      KeysAreText(key[1..]);
    }
  }

  predicate Textual(pairs: seq<Pair>) {
    forall i :: 0 <= i < |pairs| ==> Valid(pairs[i].key) && Valid(pairs[i].value)
  }

  lemma QuotedSplits(s: Bytes, rest: Bytes, body: Bytes)
    requires body == EscapeAll(s) + [QUOTE] + rest
    ensures Quoted(s) + rest == [QUOTE] + body
  {
    AssocFour([QUOTE], EscapeAll(s), [QUOTE], rest);
  }

  lemma StringInFront(body: Bytes, s: Bytes, rest: Bytes)
    requires ParseStringBody(body) == Some(Parsed(s, rest))
    ensures Expect([QUOTE] + body, QUOTE) == Some(body)
    ensures ParseValue([QUOTE] + body) == Some(Parsed(Str(s), rest))
  {
    Cuts([QUOTE], body);
  }

  /** A printed string in front of anything, as the value parser meets it. */
  lemma QuotedValueParses(s: Bytes, rest: Bytes)
    requires Valid(s)
    ensures ParseValue(Quoted(s) + rest) == Some(Parsed(Str(s), rest))
  {
    var body := EscapeAll(s) + [QUOTE] + rest;
    QuotedParses(s, rest);
    QuotedSplits(s, rest, body);
    StringInFront(body, s, rest);
  }

  lemma QuotedKeyParses(s: Bytes, rest: Bytes)
    requires Valid(s)
    ensures Expect(Quoted(s) + rest, QUOTE).Some?
    ensures ParseStringBody(Expect(Quoted(s) + rest, QUOTE).value) == Some(Parsed(s, rest))
  {
    var body := EscapeAll(s) + [QUOTE] + rest;
    QuotedParses(s, rest);
    QuotedSplits(s, rest, body);
    StringInFront(body, s, rest);
  }

  lemma Punctuation(b: Byte, rest: Bytes)
    requires !Blank(b)
    ensures Expect([b] + rest, b) == Some(rest)
    ensures forall other :: other != b ==> Expect([b] + rest, other) == None
  {
    Cuts([b], rest);
  }

  lemma {:induction false} PrintedMembersParse(pairs: seq<Pair>, rest: Bytes)
    requires pairs != [] && Textual(pairs)
    ensures ParseMembers(PrintPairs(pairs) + rest) == Some(Parsed(MembersOf(pairs), rest))
    decreases |pairs|
  {
    var pair, more := pairs[0], pairs[1..];
    var ending := Following(pairs, rest);
    var afterKey := [COLON] + (Quoted(pair.value) + ending);
    PrintedShape(pairs, rest);
    QuotedKeyParses(pair.key, afterKey);
    Punctuation(COLON, Quoted(pair.value) + ending);
    QuotedValueParses(pair.value, ending);
    MemberUnfolds(Quoted(pair.key) + afterKey, pair, afterKey, Quoted(pair.value) + ending, ending);
    if more == [] {
      Punctuation(CLOSE, rest);
    } else {
      Punctuation(COMMA, PrintPairs(more) + rest);
      PrintedMembersParse(more, rest);
    }
  }

  /** One member of the grammar, its parts parsed already. */
  lemma MemberUnfolds(s: Bytes, pair: Pair, afterKey: Bytes, afterColon: Bytes, ending: Bytes)
    requires Expect(s, QUOTE).Some? && ParseStringBody(Expect(s, QUOTE).value) == Some(Parsed(pair.key, afterKey))
    requires Expect(afterKey, COLON) == Some(afterColon)
    requires ParseValue(afterColon) == Some(Parsed(Str(pair.value), ending))
    ensures Expect(ending, CLOSE).Some? ==>
              ParseMembers(s) == Some(Parsed(Member(pair.key, Str(pair.value), NoMembers), Expect(ending, CLOSE).value))
    ensures Expect(ending, CLOSE).None? && Expect(ending, COMMA).Some? ==>
              ParseMembers(s) ==
              match ParseMembers(Expect(ending, COMMA).value)
              case None => None
              case Some(more) => Some(Parsed(Member(pair.key, Str(pair.value), more.item), more.rest))
  {
  }

  /** What follows the first pair of a printed object. */
  function Following(pairs: seq<Pair>, rest: Bytes): Bytes
    requires pairs != []
  {
    if |pairs| == 1 then [CLOSE] + rest else [COMMA] + (PrintPairs(pairs[1..]) + rest)
  }

  lemma PrintedShape(pairs: seq<Pair>, rest: Bytes)
    requires pairs != []
    ensures PrintPairs(pairs) + rest ==
            Quoted(pairs[0].key) + ([COLON] + (Quoted(pairs[0].value) + Following(pairs, rest)))
  {
    var key, value := Quoted(pairs[0].key), Quoted(pairs[0].value);
    var ending := (if |pairs| > 1 then [COMMA] else []) + PrintPairs(pairs[1..]);
    assert ending + rest == Following(pairs, rest);
    Assoc(key + [COLON] + value, ending, rest);
    Assoc(key + [COLON], value, Following(pairs, rest));
    Assoc(key, [COLON], value + Following(pairs, rest));
  }

  lemma PrintedParses(pairs: seq<Pair>)
    requires Textual(pairs)
    ensures ParseDocument(Print(pairs)) == Some(Obj(MembersOf(pairs)))
  {
    var body := PrintPairs(pairs);
    Cuts([OPEN], body);
    if pairs == [] {
      Punctuation(CLOSE, []);
      assert [CLOSE] + [] == body;
    } else {
      PrintedMembersParse(pairs, []);
      assert body + [] == body && body[0] == QUOTE;
      ObjectUnfolds(Print(pairs), body, MembersOf(pairs));
    }
  }

  lemma ObjectUnfolds(s: Bytes, body: Bytes, members: Members)
    requires s == [OPEN] + body && body != [] && body[0] == QUOTE
    requires ParseMembers(body) == Some(Parsed(members, []))
    ensures ParseDocument(s) == Some(Obj(members))
  {
    Cuts([OPEN], body);
  }

  lemma {:induction false} PrintEnds(pairs: seq<Pair>)
    ensures PrintPairs(pairs)[|PrintPairs(pairs)| - 1] == CLOSE
  {
    if pairs != [] {
      PrintEnds(pairs[1..]);
    }
  }

  /** Reading back a printed object asks for exactly the pairs that were printed. */
  lemma PrintedIsRequested(pairs: seq<Pair>)
    requires Textual(pairs)
    ensures Requested(Print(pairs)) == Some(pairs)
  {
    PrintedParses(pairs);
    PrintEnds(pairs);
    MembersOfStrings(pairs);
    CollectsTopStrings(Obj(MembersOf(pairs)));
  }

  lemma {:induction false} AllKept(pairs: seq<Pair>, room: nat)
    requires |Layout(pairs)| <= room && forall i :: 0 <= i < |pairs| ==> ValidKey(pairs[i].key)
    ensures Kept(pairs, room) == pairs
    decreases |pairs|
  {
    if pairs != [] {
      AllKept(pairs[1..], room - |Laid(pairs[0])|);
    }
  }

  /** What publishing a blob and reading the text back leaves of it. */
  function Canonical(blob: Bytes): (r: Bytes)
  {
    match PairsOf(blob)
    case None => Zeros(|blob|)
    case Some(pairs) =>
      PairsExactly(blob, pairs);
      blob[..|Layout(pairs)|] + Zeros(|blob| - |Layout(pairs)|)
  }

  lemma PublishableIsRequested(pairs: seq<Pair>)
    requires Publishable(pairs)
    ensures Requested(Print(pairs)) == Some(pairs)
  {
    forall i | 0 <= i < |pairs| ensures Valid(pairs[i].key) {
      KeysAreText(pairs[i].key);
    }
    PrintedIsRequested(pairs);
  }

  lemma PrintedIsRestored(pairs: seq<Pair>, size: nat)
    requires Publishable(pairs) && |Layout(pairs)| <= size
    ensures Restored(Print(pairs), size) == Padded(pairs, size)
  {
    PublishableIsRequested(pairs);
    AllKept(pairs, size);
  }

  lemma CanonicalIsPadded(blob: Bytes, pairs: seq<Pair>)
    requires pairs == if PairsOf(blob).Some? then PairsOf(blob).value else []
    ensures Publishable(pairs) && |Layout(pairs)| <= |blob| && Canonical(blob) == Padded(pairs, |blob|)
    ensures Published(blob) == Print(pairs)
  {
    if PairsOf(blob).Some? {
      PairsExactly(blob, pairs);
    } else {
      assert Padded([], |blob|) == Zeros(|blob|);
      assert Print([]) == [OPEN, CLOSE];
    }
  }

  /** A blob put in its canonical form still parses to the same pairs. */
  lemma CanonicalPairs(blob: Bytes)
    ensures PairsOf(Canonical(blob)) == Some(if PairsOf(blob).Some? then PairsOf(blob).value else [])
  {
    match PairsOf(blob)
    case None =>
      PairsExactly(Zeros(|blob|), []);
    case Some(pairs) =>
      PairsExactly(blob, pairs);
      Cuts(Layout(pairs), Zeros(|blob| - |Layout(pairs)|));
      PairsExactly(Canonical(blob), pairs);
  }

  /**
   The blob comes back with everything after its parsed pairs zeroed, or all zeros when it does
   not validate; and what comes back publishes as the same text.
   */
  lemma BlobRoundTrip(blob: Bytes)
    ensures Restored(Published(blob), |blob|) == Canonical(blob)
    ensures Published(Canonical(blob)) == Published(blob)
  {
    var pairs := if PairsOf(blob).Some? then PairsOf(blob).value else [];
    CanonicalIsPadded(blob, pairs);
    PrintedIsRestored(pairs, |blob|);
    CanonicalPairs(blob);
  }
}
