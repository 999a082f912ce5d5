/**
 The JSON the appField codec reads and writes: the string printer of friend_structs.cpp, the
 grammar of RFC 8259 as its library parses it, and the collector of top-level strings that
 listens to the parser's events.
 */
module Json {
  import opened Basics
  import opened Utf8

  // ---- Values and text ----

  datatype Value =
    | Atom                      // null, true, false or a number: the collector ignores all four
    | Str(text: Bytes)
    | Arr(items: Items)
    | Obj(members: Members)

  datatype Items = NoItems | Item(head: Value, tail: Items)

  datatype Members = NoMembers | Member(key: Bytes, value: Value, tail: Members)

  const QUOTE: Byte := 0x22
  const BACKSLASH: Byte := 0x5C
  const COMMA: Byte := 0x2C
  const COLON: Byte := 0x3A
  const OPEN: Byte := 0x7B
  const CLOSE: Byte := 0x7D

  // ---- Printing a string ----

  function HexDigit(n: nat): Byte
    requires n < 16
  {
    if n < 10 then 0x30 + n else 0x41 + (n - 10)
  }

  function EscapeByte(b: Byte): (r: Bytes)
    ensures r != []
  {
    if b == QUOTE then [BACKSLASH, QUOTE]
    else if b == BACKSLASH then [BACKSLASH, BACKSLASH]
    else if b == 0x08 then [BACKSLASH, 0x62]
    else if b == 0x0C then [BACKSLASH, 0x66]
    else if b == 0x0A then [BACKSLASH, 0x6E]
    else if b == 0x0D then [BACKSLASH, 0x72]
    else if b == 0x09 then [BACKSLASH, 0x74]
    else if b < 0x20 then [BACKSLASH, 0x75, 0x30, 0x30, HexDigit(b / 16), HexDigit(b % 16)]
    else [b]
  }

  function EscapeAll(s: Bytes): Bytes {
    if s == [] then [] else EscapeByte(s[0]) + EscapeAll(s[1..])
  }

  function Quoted(s: Bytes): Bytes {
    [QUOTE] + EscapeAll(s) + [QUOTE]
  }

  lemma EscapeStep(out: Bytes, value: Bytes, i: nat)
    requires i < |value|
    ensures out + EscapeAll(value[i..]) == out + EscapeByte(value[i]) + EscapeAll(value[i + 1..])
  {
    assert value[i..][1..] == value[i + 1..];
  }

  method AppendJsonString(out: Bytes, value: Bytes) returns (result: Bytes)
    ensures result == out + Quoted(value)
  {
    result := out + [QUOTE];
    for i := 0 to |value|
      invariant result + EscapeAll(value[i..]) == out + [QUOTE] + EscapeAll(value)
    {
      var byte := value[i];
      var piece: Bytes := [byte];
      if byte == 0x22 {
        piece := [0x5C, 0x22];
      } else if byte == 0x5C {
        piece := [0x5C, 0x5C];
      } else if byte == 0x08 {
        piece := [0x5C, 0x62];
      } else if byte == 0x0C {
        piece := [0x5C, 0x66];
      } else if byte == 0x0A {
        piece := [0x5C, 0x6E];
      } else if byte == 0x0D {
        piece := [0x5C, 0x72];
      } else if byte == 0x09 {
        piece := [0x5C, 0x74];
      } else if byte < 0x20 {
        piece := [0x5C, 0x75, 0x30, 0x30, HexDigit(byte / 16), HexDigit(byte % 16)];
      }
      assert piece == EscapeByte(byte);
      EscapeStep(result, value, i);
      result := result + piece;
    }
    assert result == out + [QUOTE] + EscapeAll(value);
    result := result + [QUOTE];
  }

  // ---- Parsing a string ----

  function HexValue(b: Byte): (r: Option<nat>)
    ensures r.Some? ==> r.value < 16
  {
    if 0x30 <= b <= 0x39 then Some(b - 0x30)
    else if 0x41 <= b <= 0x46 then Some(b - 0x41 + 10)
    else if 0x61 <= b <= 0x66 then Some(b - 0x61 + 10)
    else None
  }

  /** Four hex digits, either case. */
  function Hex4(s: Bytes): (r: Option<nat>)
    ensures r.Some? ==> |s| >= 4 && r.value < 0x1_0000
  {
    if |s| < 4 then None
    else
      match (HexValue(s[0]), HexValue(s[1]), HexValue(s[2]), HexValue(s[3]))
      case (Some(a), Some(b), Some(c), Some(d)) => Some(a * 0x1000 + b * 0x100 + c * 0x10 + d)
      case _ => None
  }

  /** The bytes one piece of a string stands for, and how much text it takes. */
  datatype Piece = Piece(bytes: Bytes, length: nat)

  /** `\uXXXX`, or two of them for a surrogate pair; a surrogate on its own is an error. */
  function UnicodeEscape(s: Bytes): (r: Option<Piece>)
    requires |s| >= 2
    ensures r.Some? ==> 0 < r.value.length <= |s|
  {
    match Hex4(s[2..])
    case None => None
    case Some(high) =>
      if high < 0xD800 || high >= 0xE000 then Some(Piece(Encode(high), 6))
      else if high >= 0xDC00 || |s| < 8 || s[6] != BACKSLASH || s[7] != 0x75 then None
      else
        match Hex4(s[8..])
        case None => None
        case Some(low) =>
          if low < 0xDC00 || low >= 0xE000 then None
          else Some(Piece(Encode(0x1_0000 + (high - 0xD800) * 0x400 + (low - 0xDC00)), 12))
  }

  function ParsePiece(s: Bytes): (r: Option<Piece>)
    requires s != []
    ensures r.Some? ==> 0 < r.value.length <= |s|
  {
    if s[0] == BACKSLASH then
      if |s| < 2 then None
      else if s[1] == QUOTE || s[1] == BACKSLASH || s[1] == 0x2F then Some(Piece([s[1]], 2))
      else if s[1] == 0x62 then Some(Piece([0x08], 2))
      else if s[1] == 0x66 then Some(Piece([0x0C], 2))
      else if s[1] == 0x6E then Some(Piece([0x0A], 2))
      else if s[1] == 0x72 then Some(Piece([0x0D], 2))
      else if s[1] == 0x74 then Some(Piece([0x09], 2))
      else if s[1] == 0x75 then UnicodeEscape(s)
      else None
    else if s[0] < 0x20 || ScanFront(s).Broken? then None
    else Some(Piece(s[..ScanFront(s).length], ScanFront(s).length))
  }

  /** What a parse took off the front of the text, and the text after it. */
  datatype Parsed<+T> = Parsed(item: T, rest: Bytes)

  /** The rest of a string, its opening quote read already. */
  function ParseStringBody(s: Bytes): (r: Option<Parsed<Bytes>>)
    ensures r.Some? ==> |r.value.rest| < |s|
  {
    if s == [] then None
    else if s[0] == QUOTE then Some(Parsed([], s[1..]))
    else
      match ParsePiece(s)
      case None => None
      case Some(piece) =>
        match ParseStringBody(s[piece.length..])
        case None => None
        case Some(more) => Some(Parsed(piece.bytes + more.item, more.rest))
  }

  // ---- Parsing a value ----

  predicate Blank(b: Byte) {
    b == 0x20 || b == 0x09 || b == 0x0A || b == 0x0D
  }

  function Skip(s: Bytes): (r: Bytes)
    ensures |r| <= |s|
  {
    if s != [] && Blank(s[0]) then Skip(s[1..]) else s
  }

  /** The text after a key's or value's expected punctuation, blanks before it skipped. */
  function Expect(s: Bytes, b: Byte): (r: Option<Bytes>)
    ensures r.Some? ==> |r.value| < |s|
  {
    var t := Skip(s);
    if t != [] && t[0] == b then Some(t[1..]) else None
  }

  function SkipDigits(s: Bytes): (r: Bytes)
    ensures |r| <= |s|
  {
    if s != [] && 0x30 <= s[0] <= 0x39 then SkipDigits(s[1..]) else s
  }

  predicate DigitFirst(s: Bytes) {
    s != [] && 0x30 <= s[0] <= 0x39
  }

  /** A number's text: sign, integer part, fraction, exponent. */
  function ParseNumber(s: Bytes): (r: Option<Bytes>)
    ensures r.Some? ==> |r.value| < |s|
  {
    var t := if s != [] && s[0] == 0x2D then s[1..] else s;
    if !DigitFirst(t) then None
    else
      var whole := if t[0] == 0x30 then t[1..] else SkipDigits(t[1..]);
      if whole != [] && whole[0] == 0x2E && !DigitFirst(whole[1..]) then None
      else
        var fraction := if whole != [] && whole[0] == 0x2E then SkipDigits(whole[1..]) else whole;
        if fraction == [] || (fraction[0] != 0x65 && fraction[0] != 0x45) then Some(fraction)
        else
          var e := fraction[1..];
          var digits := if e != [] && (e[0] == 0x2B || e[0] == 0x2D) then e[1..] else e;
          if DigitFirst(digits) then Some(SkipDigits(digits)) else None
  }

  const TRUE: Bytes := [0x74, 0x72, 0x75, 0x65]
  const FALSE: Bytes := [0x66, 0x61, 0x6C, 0x73, 0x65]
  const NULL: Bytes := [0x6E, 0x75, 0x6C, 0x6C]

  function ParseAtom(s: Bytes): (r: Option<Parsed<Value>>)
    ensures r.Some? ==> |r.value.rest| < |s|
  {
    if TRUE <= s then Some(Parsed(Atom, s[4..]))
    else if FALSE <= s then Some(Parsed(Atom, s[5..]))
    else if NULL <= s then Some(Parsed(Atom, s[4..]))
    else
      match ParseNumber(s)
      case None => None
      case Some(rest) => Some(Parsed(Atom, rest))
  }

  function ParseValue(s: Bytes): (r: Option<Parsed<Value>>)
    ensures r.Some? ==> |r.value.rest| < |s|
    decreases |s|, 0
  {
    var t := Skip(s);
    if t == [] then None
    else if t[0] == QUOTE then
      match ParseStringBody(t[1..])
      case None => None
      case Some(p) => Some(Parsed(Str(p.item), p.rest))
    else if t[0] == OPEN then
      if Expect(t[1..], CLOSE).Some? then Some(Parsed(Obj(NoMembers), Expect(t[1..], CLOSE).value))
      else
        match ParseMembers(t[1..])
        case None => None
        case Some(p) => Some(Parsed(Obj(p.item), p.rest))
    else if t[0] == 0x5B then
      if Expect(t[1..], 0x5D).Some? then Some(Parsed(Arr(NoItems), Expect(t[1..], 0x5D).value))
      else
        match ParseItems(t[1..])
        case None => None
        case Some(p) => Some(Parsed(Arr(p.item), p.rest))
    else ParseAtom(t)
  }

  /** One or more members and the closing brace. */
  function ParseMembers(s: Bytes): (r: Option<Parsed<Members>>)
    ensures r.Some? ==> |r.value.rest| < |s|
    decreases |s|, 1
  {
    match Expect(s, QUOTE)
    case None => None
    case Some(inKey) =>
      match ParseStringBody(inKey)
      case None => None
      case Some(key) =>
        match Expect(key.rest, COLON)
        case None => None
        case Some(afterColon) =>
          match ParseValue(afterColon)
          case None => None
          case Some(value) =>
            if Expect(value.rest, CLOSE).Some? then
              Some(Parsed(Member(key.item, value.item, NoMembers), Expect(value.rest, CLOSE).value))
            else
              match Expect(value.rest, COMMA)
              case None => None
              case Some(afterComma) =>
                match ParseMembers(afterComma)
                case None => None
                case Some(more) => Some(Parsed(Member(key.item, value.item, more.item), more.rest))
  }

  /** One or more array elements and the closing bracket. */
  function ParseItems(s: Bytes): (r: Option<Parsed<Items>>)
    ensures r.Some? ==> |r.value.rest| < |s|
    decreases |s|, 1
  {
    match ParseValue(s)
    case None => None
    case Some(value) =>
      if Expect(value.rest, 0x5D).Some? then Some(Parsed(Item(value.item, NoItems), Expect(value.rest, 0x5D).value))
      else
        match Expect(value.rest, COMMA)
        case None => None
        case Some(afterComma) =>
          match ParseItems(afterComma)
          case None => None
          case Some(more) => Some(Parsed(Item(value.item, more.item), more.rest))
  }

  /** A whole document; the library's scanner takes a NUL byte for the end of its input. */
  function ParseDocument(s: Bytes): Option<Value> {
    match ParseValue(s)
    case None => None
    case Some(p) => if Skip(p.rest) == [] || Skip(p.rest)[0] == 0 then Some(p.item) else None
  }

  // ---- A printed string parses back ----

  lemma EscapedByteParses(b: Byte, rest: Bytes)
    requires b < 0x80
    ensures ParsePiece(EscapeByte(b) + rest) == Some(Piece([b], |EscapeByte(b)|))
    ensures EscapeByte(b)[0] != QUOTE
  {
    if b < 0x20 && |EscapeByte(b)| == 6 {
      var s := EscapeByte(b) + rest;
      assert s[2..][0] == 0x30 && s[2..][1] == 0x30;
      assert s[2..][2] == HexDigit(b / 16) && s[2..][3] == HexDigit(b % 16);
      assert Hex4(s[2..]) == Some(b);
    }
  }

  lemma {:induction false} EscapeAppend(s: Bytes, t: Bytes)
    ensures EscapeAll(s + t) == EscapeAll(s) + EscapeAll(t)
  {
    if s == [] {
      assert s + t == t;
    } else {
      assert (s + t)[1..] == s[1..] + t;
      EscapeAppend(s[1..], t);
    }
  }

  lemma {:induction false} HighBytesUnescaped(s: Bytes)
    requires forall i :: 0 <= i < |s| ==> s[i] >= 0x80
    ensures EscapeAll(s) == s
  {
    if s != [] {
      HighBytesUnescaped(s[1..]);
    }
  }

  /** The first character of valid text, escaped, is read back as one piece. */
  lemma EscapedFrontParses(s: Bytes, rest: Bytes)
    requires s != [] && ScanFront(s).Whole?
    ensures var n := ScanFront(s).length;
            var front := EscapeAll(s[..n]);
            front != [] && front[0] != QUOTE && ParsePiece(front + rest) == Some(Piece(s[..n], |front|))
  {
    var n := ScanFront(s).length;
    if n == 1 {
      EscapedByteParses(s[0], rest);
      assert s[..1] == [s[0]];
      assert EscapeAll([s[0]]) == EscapeByte(s[0]) + [] == EscapeByte(s[0]);
    } else {
      HighBytesUnescaped(s[..n]);
      FrontAlone(s);
      FrontStable(s[..n], rest);
    }
  }

  lemma {:induction false} QuotedParses(s: Bytes, rest: Bytes)
    requires Valid(s)
    ensures ParseStringBody(EscapeAll(s) + [QUOTE] + rest) == Some(Parsed(s, rest))
  {
    if s == [] {
      assert (EscapeAll(s) + [QUOTE] + rest)[1..] == rest;
    } else {
      var n := ScanFront(s).length;
      var front, tail := EscapeAll(s[..n]), EscapeAll(s[n..]) + [QUOTE] + rest;
      EscapeAppend(s[..n], s[n..]);
      assert s[..n] + s[n..] == s;
      AssocFour(front, EscapeAll(s[n..]), [QUOTE], rest);
      EscapedFrontParses(s, tail);
      Cuts(front, tail);
      QuotedParses(s[n..], rest);
    }
  }

  // ---- The collector of top-level strings ----

  datatype Event = ScalarEvent | StringEvent(text: Bytes) | KeyEvent(key: Bytes) | Start(isObject: bool) | End

  datatype Pair = Pair(key: Bytes, value: Bytes)

  /** The collector's fields. */
  datatype Collector = Collector(pairs: seq<Pair>, depth: int, inObjectTop: bool, key: Bytes)

  const FRESH := Collector([], 0, false, [])

  const DEPTH_LIMIT := 64

  /** One callback; None when it stops the parse. */
  function Notify(c: Collector, e: Event): Option<Collector> {
    match e
    case ScalarEvent => Some(c)
    case StringEvent(text) =>
      Some(if c.depth == 1 && c.inObjectTop then c.(pairs := c.pairs + [Pair(c.key, text)]) else c)
    case KeyEvent(key) => Some(if c.depth == 1 then c.(key := key) else c)
    case Start(isObject) =>
      if c.depth + 1 <= DEPTH_LIMIT
      then Some(c.(depth := c.depth + 1, inObjectTop := if c.depth == 0 then isObject else c.inObjectTop))
      else None
    case End => Some(c.(depth := c.depth - 1))
  }

  function NotifyAll(c: Collector, events: seq<Event>): Option<Collector>
    decreases |events|
  {
    if events == [] then Some(c)
    else
      match Notify(c, events[0])
      case None => None
      case Some(next) => NotifyAll(next, events[1..])
  }

  /** The callbacks the library makes while it parses `v`, in order. */
  function Events(v: Value): seq<Event> {
    match v
    case Atom => [ScalarEvent]
    case Str(text) => [StringEvent(text)]
    case Arr(items) => [Start(false)] + ItemEvents(items) + [End]
    case Obj(members) => [Start(true)] + MemberEvents(members) + [End]
  }

  function ItemEvents(items: Items): seq<Event> {
    match items
    case NoItems => []
    case Item(head, tail) => Events(head) + ItemEvents(tail)
  }

  function MemberEvents(members: Members): seq<Event> {
    match members
    case NoMembers => []
    case Member(key, value, tail) => [KeyEvent(key)] + Events(value) + MemberEvents(tail)
  }

  /** The class behind the callbacks. */
  class TopLevelStrings {
    var pairs: seq<Pair>
    var depth: int
    var inObjectTop: bool
    var key: Bytes

    ghost function State(): Collector
      reads this
    {
      Collector(pairs, depth, inObjectTop, key)
    }

    constructor ()
      ensures State() == FRESH
    {
      pairs, depth, inObjectTop, key := [], 0, false, [];
    }

    method Receive(e: Event) returns (go: bool)
      modifies this
      ensures go <==> Notify(old(State()), e).Some?
      ensures go ==> State() == Notify(old(State()), e).value
    {
      go := true;
      match e {
        case ScalarEvent =>
        case StringEvent(text) =>
          if depth == 1 && inObjectTop {
            pairs := pairs + [Pair(key, text)];
          }
        case KeyEvent(name) =>
          if depth == 1 {
            key := name;
          }
        case Start(isObject) =>
          if depth == 0 {
            inObjectTop := isObject;
          }
          depth := depth + 1;
          go := depth <= DEPTH_LIMIT;
        case End =>
          depth := depth - 1;
      }
    }

    /** The library driving the callbacks; false as soon as one of them says stop. */
    method ReceiveAll(events: seq<Event>) returns (go: bool)
      modifies this
      ensures go <==> NotifyAll(old(State()), events).Some?
      ensures go ==> State() == NotifyAll(old(State()), events).value
    {
      for i := 0 to |events|
        invariant NotifyAll(old(State()), events) == NotifyAll(State(), events[i..])
      {
        assert events[i..][1..] == events[i + 1..];
        go := Receive(events[i]);
        if !go {
          return;
        }
      }
      return true;
    }
  }

  // ---- What the collector collects ----

  /** How many objects and arrays are open at the deepest place. */
  function Depth(v: Value): nat {
    match v
    case Atom => 0
    case Str(_) => 0
    case Arr(items) => 1 + ItemsDepth(items)
    case Obj(members) => 1 + MembersDepth(members)
  }

  function ItemsDepth(items: Items): nat {
    match items
    case NoItems => 0
    case Item(head, tail) => Max(Depth(head), ItemsDepth(tail))
  }

  function MembersDepth(members: Members): nat {
    match members
    case NoMembers => 0
    case Member(_, value, tail) => Max(Depth(value), MembersDepth(tail))
  }

  /** The string members of an object, in order, duplicates included; nothing nested. */
  function StringMembers(members: Members): seq<Pair> {
    match members
    case NoMembers => []
    case Member(key, Str(text), tail) => [Pair(key, text)] + StringMembers(tail)
    case Member(_, _, tail) => StringMembers(tail)
  }

  function TopStrings(v: Value): seq<Pair> {
    if v.Obj? then StringMembers(v.members) else []
  }

  lemma {:induction false} NotifyAppend(c: Collector, a: seq<Event>, b: seq<Event>)
    ensures NotifyAll(c, a + b) ==
            match NotifyAll(c, a) case None => None case Some(next) => NotifyAll(next, b)
    decreases |a|
  {
    if a == [] {
      assert a + b == b;
    } else {
      assert (a + b)[1..] == a[1..] + b;
      match Notify(c, a[0])
      case None =>
      case Some(next) => NotifyAppend(next, a[1..], b);
    }
  }

  lemma OneEvent(c: Collector, e: Event)
    ensures NotifyAll(c, [e]) == Notify(c, e)
  {
    assert [e][1..] == [];
  }

  /** Below the top object nothing is recorded: only the depth limit can be noticed. */
  predicate Buried(c: Collector, v: Value) {
    c.depth >= 1 && (v.Str? ==> !(c.depth == 1 && c.inObjectTop))
  }

  function Unchanged(c: Collector, depth: nat): Option<Collector> {
    if c.depth + depth <= DEPTH_LIMIT then Some(c) else None
  }

  lemma {:induction false} BuriedValue(c: Collector, v: Value)
    requires Buried(c, v) && c.depth <= DEPTH_LIMIT
    ensures NotifyAll(c, Events(v)) == Unchanged(c, Depth(v))
    decreases v
  {
    match v
    case Atom =>
    case Str(text) =>
    case Arr(items) =>
      if c.depth < DEPTH_LIMIT {
        var inner := c.(depth := c.depth + 1);
        BuriedItems(inner, items);
        NotifyAppend(inner, ItemEvents(items), [End]);
        assert Events(v)[1..] == ItemEvents(items) + [End];
        OneEvent(inner, End);
      }
    case Obj(members) =>
      if c.depth < DEPTH_LIMIT {
        var inner := c.(depth := c.depth + 1);
        BuriedMembers(inner, members);
        NotifyAppend(inner, MemberEvents(members), [End]);
        assert Events(v)[1..] == MemberEvents(members) + [End];
        OneEvent(inner, End);
      }
  }

  lemma {:induction false} BuriedItems(c: Collector, items: Items)
    requires (c.depth >= 2 || (c.depth == 1 && !c.inObjectTop)) && c.depth <= DEPTH_LIMIT
    ensures NotifyAll(c, ItemEvents(items)) == Unchanged(c, ItemsDepth(items))
    decreases items
  {
    match items
    case NoItems =>
    case Item(head, tail) =>
      BuriedValue(c, head);
      BuriedItems(c, tail);
      NotifyAppend(c, Events(head), ItemEvents(tail));
  }

  lemma {:induction false} BuriedMembers(c: Collector, members: Members)
    requires 2 <= c.depth <= DEPTH_LIMIT
    ensures NotifyAll(c, MemberEvents(members)) == Unchanged(c, MembersDepth(members))
    decreases members
  {
    match members
    case NoMembers =>
    case Member(key, value, tail) =>
      BuriedValue(c, value);
      BuriedMembers(c, tail);
      NotifyAppend(c, Events(value), MemberEvents(tail));
      assert MemberEvents(members)[1..] == Events(value) + MemberEvents(tail);
  }

  /** The members of the top object: every string is kept under its key. */
  lemma {:induction false} TopMembers(c: Collector, members: Members)
    requires c.depth == 1 && c.inObjectTop
    ensures NotifyAll(c, MemberEvents(members)).Some? <==> 1 + MembersDepth(members) <= DEPTH_LIMIT
    ensures var r := NotifyAll(c, MemberEvents(members));
            r.Some? ==> r.value.pairs == c.pairs + StringMembers(members)
    decreases members
  {
    match members
    case NoMembers =>
    case Member(key, value, tail) =>
      var named := c.(key := key);
      var next := if value.Str? then named.(pairs := named.pairs + [Pair(key, value.text)]) else named;
      assert MemberEvents(members)[1..] == Events(value) + MemberEvents(tail);
      NotifyAppend(named, Events(value), MemberEvents(tail));
      if value.Str? {
        OneEvent(named, StringEvent(value.text));
      } else {
        BuriedValue(named, value);
      }
      TopMembers(next, tail);
  }

  /** What a whole parse leaves in the collector; None when the callbacks stopped it. */
  function Collected(v: Value): Option<seq<Pair>> {
    match NotifyAll(FRESH, Events(v))
    case None => None
    case Some(c) => Some(c.pairs)
  }

  lemma CollectsArray(items: Items)
    ensures NotifyAll(FRESH, Events(Arr(items))).Some? <==> 1 + ItemsDepth(items) <= DEPTH_LIMIT
    ensures NotifyAll(FRESH, Events(Arr(items))).Some? ==> NotifyAll(FRESH, Events(Arr(items))).value.pairs == []
  {
    var inner := FRESH.(depth := 1);
    BuriedItems(inner, items);
    OneEvent(inner, End);
    NotifyAppend(inner, ItemEvents(items), [End]);
    assert Events(Arr(items))[1..] == ItemEvents(items) + [End];
  }

  lemma CollectsObject(members: Members)
    ensures NotifyAll(FRESH, Events(Obj(members))).Some? <==> 1 + MembersDepth(members) <= DEPTH_LIMIT
    ensures NotifyAll(FRESH, Events(Obj(members))).Some? ==>
              NotifyAll(FRESH, Events(Obj(members))).value.pairs == StringMembers(members)
  {
    var inner := FRESH.(depth := 1, inObjectTop := true);
    TopMembers(inner, members);
    var filled := NotifyAll(inner, MemberEvents(members));
    if filled.Some? {
      OneEvent(filled.value, End);
      assert [] + StringMembers(members) == StringMembers(members);
    }
    NotifyAppend(inner, MemberEvents(members), [End]);
    assert Events(Obj(members))[1..] == MemberEvents(members) + [End];
  }

  /** The depth limit aside, the collector holds exactly the top object's string members. */
  lemma CollectsTopStrings(v: Value)
    ensures Collected(v) == if Depth(v) <= DEPTH_LIMIT then Some(TopStrings(v)) else None
  {
    match v
    case Atom => OneEvent(FRESH, ScalarEvent);
    case Str(text) => OneEvent(FRESH, StringEvent(text));
    case Arr(items) => CollectsArray(items);
    case Obj(members) => CollectsObject(members);
  }
}
