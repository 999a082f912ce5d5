/**
 The signed ceiling of network_ceiling.cpp: verifying an envelope, the boot decision between the
 cached and the fetched one, and the two files that survive a restart.

 Signatures and the JSON text are foreign: a `World` says which signatures verify and what a text
 parses to. Everything decided about the parsed values is here.
 */
module SignedCeiling {
  import opened Basics
  import opened Families
  import Words
  import Base64
  import Decimal

  // ---- Values the library parses ----

  datatype Doc =
    | Null | Bool(b: bool) | Integer(i: int) | Float
    | Text(text: string) | List(items: seq<Doc>) | Object(members: seq<(string, Doc)>)

  datatype Key = Key(raw: Bytes, keyid: string)

  datatype World = World(parse: Bytes -> Option<Doc>, ed25519: (Key, Bytes, Bytes) -> bool)

  /** An empty file is no JSON document. */
  predicate Sane(w: World) {
    w.parse([]) == None
  }

  function Lookup(members: seq<(string, Doc)>, name: string): Option<Doc> {
    if members == [] then None
    else if members[0].0 == name then Some(members[0].1)
    else Lookup(members[1..], name)
  }

  function Member(d: Doc, name: string): Option<Doc> {
    if d.Object? then Lookup(d.members, name) else None
  }

  /** An integer read as a `long long`. */
  function LongLong(i: int): (r: int)
    ensures -0x8000_0000_0000_0000 <= r < 0x8000_0000_0000_0000 && (r - i) % 0x1_0000_0000_0000_0000 == 0
  {
    (i + 0x8000_0000_0000_0000) % 0x1_0000_0000_0000_0000 - 0x8000_0000_0000_0000
  }

  // ---- Verification ----

  datatype Ceiling = Ceiling(version: int, platforms: map<string, seq<string>>) {
    /** An unnamed platform has an empty list. */
    function FamiliesFor(platform: string): seq<string> {
      if platform in platforms then platforms[platform] else []
    }
  }

  /** What DecodeBase64 returns. */
  function Decoded(text: string): Option<Bytes> {
    if text == "" then None else Base64.StrictOf(text)
  }

  predicate KeySigned(w: World, key: Key, keyid: string, payload: Bytes, sig: Option<Bytes>) {
    key.keyid == keyid && sig.Some? && |sig.value| == 64 && w.ed25519(key, payload, sig.value)
  }

  /** One entry of the signatures is good under one of the keys. */
  predicate Signs(w: World, entry: Doc, keys: seq<Key>, payload: Bytes) {
    match (Member(entry, "keyid"), Member(entry, "sig"))
    case (Some(Text(keyid)), Some(Text(sig))) =>
      exists k :: 0 <= k < |keys| && KeySigned(w, keys[k], Lower(keyid), payload, Decoded(sig))
    case _ => false
  }

  /** The payload bytes of an envelope with at least one good signature over exactly those bytes. */
  function SignedPayload(w: World, envelope: Bytes, keys: seq<Key>): Option<Bytes> {
    match w.parse(envelope)
    case None => None
    case Some(env) =>
      match (Member(env, "payload"), Member(env, "signatures"))
      case (Some(Text(text)), Some(List(entries))) =>
        (match Decoded(text)
         case None => None
         case Some(payload) =>
           if exists i :: 0 <= i < |entries| && Signs(w, entries[i], keys, payload) then Some(payload) else None)
      case _ => None
  }

  predicate FamilyEntry(d: Doc) {
    d.Text? && WellFormed(d.text)
  }

  predicate FamilyList(d: Doc) {
    d.List? && forall i :: 0 <= i < |d.items| ==> FamilyEntry(d.items[i])
  }

  function Texts(items: seq<Doc>): (r: seq<string>)
    requires forall i :: 0 <= i < |items| ==> items[i].Text?
    ensures |r| == |items| && forall i :: 0 <= i < |r| ==> r[i] == items[i].text
  {
    if items == [] then [] else Texts(items[..|items| - 1]) + [items[|items| - 1].text]
  }

  /** The platforms of a payload; one bad entry rejects them all. */
  function Platforms(members: seq<(string, Doc)>): Option<map<string, seq<string>>> {
    if members == [] then Some(map[])
    else
      var last := members[|members| - 1];
      match Platforms(members[..|members| - 1])
      case None => None
      case Some(before) => if FamilyList(last.1) then Some(before[last.0 := Texts(last.1.items)]) else None
  }

  function CeilingOf(doc: Doc): Option<Ceiling> {
    match (Member(doc, "type"), Member(doc, "version"), Member(doc, "platforms"))
    case (Some(Text(kind)), Some(Integer(i)), Some(Object(members))) =>
      if kind != "openpak-ceiling" || LongLong(i) <= 0 then None
      else
        (match Platforms(members)
         case None => None
         case Some(platforms) => Some(Ceiling(LongLong(i), platforms)))
    case _ => None
  }

  function Verified(w: World, envelope: Bytes, keys: seq<Key>): Option<Ceiling> {
    match SignedPayload(w, envelope, keys)
    case None => None
    case Some(payload) =>
      match w.parse(payload)
      case None => None
      case Some(doc) => CeilingOf(doc)
  }

  // ---- The code's loops ----

  method AnySigns(w: World, entries: seq<Doc>, keys: seq<Key>, payload: Bytes) returns (verified: bool)
    ensures verified <==> exists i :: 0 <= i < |entries| && Signs(w, entries[i], keys, payload)
  {
    verified := false;
    for i := 0 to |entries|
      invariant verified <==> exists j :: 0 <= j < i && Signs(w, entries[j], keys, payload)
    {
      var keyid, sig := Member(entries[i], "keyid"), Member(entries[i], "sig");
      if keyid.None? || !keyid.value.Text? || sig.None? || !sig.value.Text? {
        continue;
      }
      var wanted := Lower(keyid.value.text);
      var decoded := Base64.DecodeBase64(sig.value.text);
      var good := false;
      for k := 0 to |keys|
        invariant good <==> exists j :: 0 <= j < k && KeySigned(w, keys[j], wanted, payload, decoded)
      {
        if keys[k].keyid != wanted {
          continue;
        }
        if decoded.Some? && |decoded.value| == 64 && w.ed25519(keys[k], payload, decoded.value) {
          good := true;
        }
      }
      assert good <==> Signs(w, entries[i], keys, payload);
      verified := verified || good;
    }
  }

  method ReadFamilies(items: seq<Doc>) returns (families: Option<seq<string>>)
    ensures families == if FamilyList(List(items)) then Some(Texts(items)) else None
  {
    var read: seq<string> := [];
    for i := 0 to |items|
      invariant forall j :: 0 <= j < i ==> FamilyEntry(items[j])
      invariant read == Texts(items[..i])
    {
      if !items[i].Text? {
        assert !FamilyEntry(items[i]);
        return None;
      }
      var ok := FamilyWellFormed(items[i].text);
      if !ok {
        assert !FamilyEntry(items[i]);
        return None;
      }
      assert items[..i + 1][..i] == items[..i];
      read := read + [items[i].text];
    }
    assert items[..|items|] == items;
    return Some(read);
  }

  method ReadPlatforms(members: seq<(string, Doc)>) returns (platforms: Option<map<string, seq<string>>>)
    ensures platforms == Platforms(members)
  {
    var read: map<string, seq<string>> := map[];
    for i := 0 to |members|
      invariant Platforms(members[..i]) == Some(read)
    {
      assert members[..i + 1][..i] == members[..i];
      if !members[i].1.List? {
        BadPlatformRejects(members, i + 1);
        return None;
      }
      var families := ReadFamilies(members[i].1.items);
      if families.None? {
        BadPlatformRejects(members, i + 1);
        return None;
      }
      read := read[members[i].0 := families.value];
    }
    assert members[..|members|] == members;
    return Some(read);
  }

  lemma {:induction false} BadPlatformRejects(members: seq<(string, Doc)>, k: nat)
    requires k <= |members| && Platforms(members[..k]) == None
    ensures Platforms(members) == None
    decreases |members| - k
  {
    if k == |members| {
      assert members[..k] == members;
    } else {
      assert members[..k + 1][..k] == members[..k];
      BadPlatformRejects(members, k + 1);
    }
  }

  /** The payload's bytes, once a signature over them has been checked. */
  method SignedBytes(w: World, envelope: Bytes, keys: seq<Key>) returns (payload: Option<Bytes>)
    ensures payload == SignedPayload(w, envelope, keys)
  {
    var env := w.parse(envelope);
    if env.None? {
      return None;
    }
    var text := Member(env.value, "payload");
    if text.None? || !text.value.Text? {
      return None;
    }
    payload := Base64.DecodeBase64(text.value.text);
    if payload.None? {
      return None;
    }
    var signatures := Member(env.value, "signatures");
    if signatures.None? || !signatures.value.List? || signatures.value.items == [] {
      return None;
    }
    var verified := AnySigns(w, signatures.value.items, keys, payload.value);
    if !verified {
      return None;
    }
  }

  method ReadPayload(doc: Doc) returns (c: Option<Ceiling>)
    ensures c == CeilingOf(doc)
  {
    var kind, version, platforms := Member(doc, "type"), Member(doc, "version"), Member(doc, "platforms");
    if kind != Some(Text("openpak-ceiling")) {
      return None;
    }
    if version.None? || !version.value.Integer? || LongLong(version.value.i) <= 0 {
      return None;
    }
    if platforms.None? || !platforms.value.Object? {
      return None;
    }
    var read := ReadPlatforms(platforms.value.members);
    if read.None? {
      return None;
    }
    return Some(Ceiling(LongLong(version.value.i), read.value));
  }

  /** Only bytes whose signature was checked are parsed as a ceiling. */
  method VerifyCeiling(w: World, envelope: Bytes, keys: seq<Key>) returns (c: Option<Ceiling>)
    ensures c == Verified(w, envelope, keys)
    ensures forall x :: c == Some(x) <==> Vouches(w, envelope, keys, x)
  {
    c := None;
    var payload := SignedBytes(w, envelope, keys);
    if payload.Some? {
      var doc := w.parse(payload.value);
      if doc.Some? {
        c := ReadPayload(doc.value);
      }
    }
    forall x {
      VerifiedExactly(w, envelope, keys, x);
    }
  }

  // ---- What a verified ceiling rests on ----

  /** A signature found in an envelope: which key, which entry, its bytes, and the bytes it signs. */
  datatype Evidence = Evidence(key: nat, entry: nat, sig: Bytes, payload: Bytes)

  /** A member holds these bytes in Base64. */
  predicate Holds(d: Doc, name: string, bytes: Bytes) {
    match Member(d, name)
    case Some(Text(text)) => text != "" && Base64.StrictOf(text) == Some(bytes)
    case _ => false
  }

  /** A member is the name of a key, in either case. */
  predicate Names(d: Doc, name: string, keyid: string) {
    match Member(d, name)
    case Some(Text(text)) => Lower(text) == keyid
    case _ => false
  }

  /** The envelope holds those bytes and, under the name of a pinned key, 64 bytes that sign them. */
  predicate SignedBy(w: World, env: Doc, keys: seq<Key>, e: Evidence) {
    Holds(env, "payload", e.payload) &&
    match Member(env, "signatures")
    case Some(List(entries)) =>
      e.key < |keys| && e.entry < |entries| &&
      Names(entries[e.entry], "keyid", keys[e.key].keyid) && Holds(entries[e.entry], "sig", e.sig) &&
      |e.sig| == 64 && w.ed25519(keys[e.key], e.payload, e.sig)
    case _ => false
  }

  /** A list of well-formed families, these. */
  predicate Lists(d: Doc, families: seq<string>) {
    d.List? && |families| == |d.items| &&
    forall i :: 0 <= i < |families| ==> d.items[i] == Text(families[i]) && WellFormed(families[i])
  }

  /** Every member lists families, and each name has those of its last member. */
  ghost predicate ListsByName(members: seq<(string, Doc)>, platforms: map<string, seq<string>>) {
    && (forall j :: 0 <= j < |members| ==> members[j].0 in platforms && FamilyList(members[j].1))
    && (forall name :: name in platforms ==> LastLists(members, name, platforms[name]))
  }

  ghost predicate LastLists(members: seq<(string, Doc)>, name: string, families: seq<string>) {
    exists j: nat :: LastOf(members, j, name) && Lists(members[j].1, families)
  }

  predicate LastOf(members: seq<(string, Doc)>, j: nat, name: string) {
    j < |members| && members[j].0 == name && forall k :: j < k < |members| ==> members[k].0 != name
  }

  /** A payload says exactly this ceiling. */
  ghost predicate Says(doc: Doc, c: Ceiling) {
    Member(doc, "type") == Some(Text("openpak-ceiling")) &&
    (match Member(doc, "version") case Some(Integer(i)) => 0 < c.version == LongLong(i) case _ => false) &&
    (match Member(doc, "platforms") case Some(Object(members)) => ListsByName(members, c.platforms) case _ => false)
  }

  /** Some pinned key has signed bytes that say this ceiling. */
  ghost predicate Vouched(w: World, keys: seq<Key>, c: Ceiling) {
    exists key: Key, payload: Bytes, sig: Bytes ::
      key in keys && |sig| == 64 && w.ed25519(key, payload, sig) &&
      w.parse(payload).Some? && Says(w.parse(payload).value, c)
  }

  /** The envelope holds such bytes and such a signature. */
  ghost predicate Vouches(w: World, envelope: Bytes, keys: seq<Key>, c: Ceiling) {
    w.parse(envelope).Some? &&
    exists e: Evidence ::
      SignedBy(w, w.parse(envelope).value, keys, e) && w.parse(e.payload).Some? && Says(w.parse(e.payload).value, c)
  }

  lemma SameFamilies(d: Doc, a: seq<string>, b: seq<string>)
    requires Lists(d, a) && Lists(d, b)
    ensures a == b
  {
    forall i | 0 <= i < |a| ensures a[i] == b[i] {
      assert d.items[i] == Text(a[i]);
    }
  }

  lemma OneReading(members: seq<(string, Doc)>, a: map<string, seq<string>>, b: map<string, seq<string>>)
    requires ListsByName(members, a) && ListsByName(members, b)
    ensures a == b
  {
    forall name | name in a ensures name in b && a[name] == b[name] {
      var j: nat :| LastOf(members, j, name) && Lists(members[j].1, a[name]);
      var k: nat :| LastOf(members, k, name) && Lists(members[k].1, b[name]);
      assert j == k;
      SameFamilies(members[j].1, a[name], b[name]);
    }
    forall name | name in b ensures name in a {
      var j: nat :| LastOf(members, j, name) && Lists(members[j].1, b[name]);
    }
  }

  lemma {:induction false} PlatformsRead(members: seq<(string, Doc)>)
    ensures Platforms(members).Some? <==> forall j :: 0 <= j < |members| ==> FamilyList(members[j].1)
    ensures Platforms(members).Some? ==> ListsByName(members, Platforms(members).value)
  {
    if members != [] {
      var n := |members| - 1;
      var before, last := members[..n], members[n];
      PlatformsRead(before);
      if Platforms(members).Some? {
        PlatformAdded(members, Platforms(before).value, Platforms(members).value);
      }
    }
  }

  lemma PlatformAdded(members: seq<(string, Doc)>, was: map<string, seq<string>>, now: map<string, seq<string>>)
    requires members != [] && FamilyList(members[|members| - 1].1) && ListsByName(members[..|members| - 1], was)
    requires now == was[members[|members| - 1].0 := Texts(members[|members| - 1].1.items)]
    ensures ListsByName(members, now)
  {
    var n := |members| - 1;
    var before, last := members[..n], members[n];
    forall name | name in now ensures LastLists(members, name, now[name]) {
      if name == last.0 {
        TextsAreListed(last.1);
        assert LastOf(members, n, name);
      } else {
        NotTheLast(members, name, was[name]);
      }
    }
    forall j | 0 <= j < |members| ensures members[j].0 in now && FamilyList(members[j].1) {
      assert j < n ==> before[j] == members[j];
    }
  }

  lemma TextsAreListed(d: Doc)
    requires FamilyList(d)
    ensures Lists(d, Texts(d.items))
  {
    forall i | 0 <= i < |d.items| ensures d.items[i] == Text(Texts(d.items)[i]) && WellFormed(d.items[i].text) {
      assert FamilyEntry(d.items[i]);
    }
  }

  lemma NotTheLast(members: seq<(string, Doc)>, name: string, families: seq<string>)
    requires members != [] && members[|members| - 1].0 != name
    requires LastLists(members[..|members| - 1], name, families)
    ensures LastLists(members, name, families)
  {
    var before := members[..|members| - 1];
    var j: nat :| LastOf(before, j, name) && Lists(before[j].1, families);
    assert LastOf(members, j, name);
  }

  lemma CeilingIsSaid(doc: Doc, c: Ceiling)
    ensures CeilingOf(doc) == Some(c) <==> Says(doc, c)
  {
    match Member(doc, "platforms")
    case Some(Object(members)) =>
      PlatformsRead(members);
      if Says(doc, c) {
        OneReading(members, c.platforms, Platforms(members).value);
      }
    case _ =>
  }

  lemma SignedExactly(w: World, envelope: Bytes, keys: seq<Key>, payload: Bytes)
    requires w.parse(envelope).Some?
    ensures SignedPayload(w, envelope, keys) == Some(payload) <==>
            exists e: Evidence :: SignedBy(w, w.parse(envelope).value, keys, e) && e.payload == payload
  {
    var env := w.parse(envelope).value;
    if SignedPayload(w, envelope, keys) == Some(payload) {
      var entries := Member(env, "signatures").value.items;
      var i :| 0 <= i < |entries| && Signs(w, entries[i], keys, payload);
      var keyid, sig := Member(entries[i], "keyid").value.text, Member(entries[i], "sig").value.text;
      var k :| 0 <= k < |keys| && KeySigned(w, keys[k], Lower(keyid), payload, Decoded(sig));
      assert SignedBy(w, env, keys, Evidence(k, i, Decoded(sig).value, payload));
    }
    if e: Evidence :| SignedBy(w, env, keys, e) && e.payload == payload {
      var entries := Member(env, "signatures").value.items;
      var sig := Member(entries[e.entry], "sig").value.text;
      assert KeySigned(w, keys[e.key], keys[e.key].keyid, payload, Decoded(sig));
      assert Signs(w, entries[e.entry], keys, payload);
    }
  }

  /**
   An envelope is read as a ceiling exactly when a pinned key has signed the bytes it holds, and those
   bytes say that ceiling.
   */
  lemma VerifiedExactly(w: World, envelope: Bytes, keys: seq<Key>, c: Ceiling)
    ensures Verified(w, envelope, keys) == Some(c) <==> Vouches(w, envelope, keys, c)
    ensures Vouches(w, envelope, keys, c) ==> Vouched(w, keys, c)
  {
    if w.parse(envelope).Some? {
      var env := w.parse(envelope).value;
      if Verified(w, envelope, keys) == Some(c) {
        var payload := SignedPayload(w, envelope, keys).value;
        SignedExactly(w, envelope, keys, payload);
        CeilingIsSaid(w.parse(payload).value, c);
      }
      if e: Evidence :| SignedBy(w, env, keys, e) && w.parse(e.payload).Some? && Says(w.parse(e.payload).value, c) {
        SignedExactly(w, envelope, keys, e.payload);
        CeilingIsSaid(w.parse(e.payload).value, c);
        assert keys[e.key] in keys;
      }
    }
  }

  /** An envelope put together from a payload and one signature over it. */
  function Enveloped(payload: Bytes, keyid: string, sig: Bytes): Doc {
    Object([("payload", Text(Base64.Encode(payload))),
            ("signatures", List([Object([("keyid", Text(keyid)), ("sig", Text(Base64.Encode(sig)))])]))])
  }

  lemma TwoMembers(one: string, x: Doc, two: string, y: Doc)
    requires one != two
    ensures var d := Object([(one, x), (two, y)]);
            Member(d, one) == Some(x) && Member(d, two) == Some(y)
  {
    var members := [(one, x), (two, y)];
    assert members[1..] == [(two, y)];
    assert Lookup(members[1..], two) == Some(y);
  }

  lemma EncodedHolds(d: Doc, name: string, bytes: Bytes)
    requires Member(d, name) == Some(Text(Base64.Encode(bytes))) && bytes != []
    ensures Holds(d, name, bytes)
  {
    Base64.StrictRoundTrip(bytes, Base64.Encode(bytes));
  }

  lemma EnvelopedReads(payload: Bytes, keyid: string, sig: Bytes, entry: Doc)
    requires payload != [] && sig != []
    requires entry == Object([("keyid", Text(keyid)), ("sig", Text(Base64.Encode(sig)))])
    ensures Holds(Enveloped(payload, keyid, sig), "payload", payload)
    ensures Member(Enveloped(payload, keyid, sig), "signatures") == Some(List([entry]))
    ensures Names(entry, "keyid", Lower(keyid)) && Holds(entry, "sig", sig)
  {
    assert "payload"[0] != "signatures"[0] && "keyid"[0] != "sig"[0];
    TwoMembers("payload", Text(Base64.Encode(payload)), "signatures", List([entry]));
    TwoMembers("keyid", Text(keyid), "sig", Text(Base64.Encode(sig)));
    EncodedHolds(Enveloped(payload, keyid, sig), "payload", payload);
    EncodedHolds(entry, "sig", sig);
  }

  /** What a publisher puts together is accepted exactly when a pinned key of that name verifies it. */
  lemma EnvelopedIsAccepted(w: World, envelope: Bytes, keys: seq<Key>, payload: Bytes, keyid: string, sig: Bytes,
                            c: Ceiling)
    requires w.parse(envelope) == Some(Enveloped(payload, keyid, sig)) && payload != [] && sig != []
    requires w.parse(payload).Some? && Says(w.parse(payload).value, c)
    ensures Verified(w, envelope, keys) == Some(c) <==>
            exists k :: 0 <= k < |keys| && keys[k].keyid == Lower(keyid) && |sig| == 64 &&
                        w.ed25519(keys[k], payload, sig)
  {
    var env := Enveloped(payload, keyid, sig);
    var entry := Object([("keyid", Text(keyid)), ("sig", Text(Base64.Encode(sig)))]);
    EnvelopedReads(payload, keyid, sig, entry);
    VerifiedExactly(w, envelope, keys, c);
    if k :| 0 <= k < |keys| && keys[k].keyid == Lower(keyid) && |sig| == 64 && w.ed25519(keys[k], payload, sig) {
      assert SignedBy(w, env, keys, Evidence(k, 0, sig, payload));
    }
    if Vouches(w, envelope, keys, c) {
      var e: Evidence :| SignedBy(w, env, keys, e);
      assert keys[e.key].keyid == Lower(keyid) && e.payload == payload && e.sig == sig;
    }
  }

  // ---- Every family in use is well formed ----

  predicate FamiliesWellFormed(c: Ceiling) {
    forall platform :: platform in c.platforms ==>
      forall i :: 0 <= i < |c.platforms[platform]| ==> WellFormed(c.platforms[platform][i])
  }

  lemma {:induction false} PlatformsAreWellFormed(members: seq<(string, Doc)>)
    ensures Platforms(members).Some? ==>
              forall platform :: platform in Platforms(members).value ==>
                forall i :: 0 <= i < |Platforms(members).value[platform]| ==>
                  WellFormed(Platforms(members).value[platform][i])
  {
    if members != [] {
      PlatformsAreWellFormed(members[..|members| - 1]);
    }
  }

  lemma VerifiedIsWellFormed(w: World, envelope: Bytes, keys: seq<Key>)
    requires Verified(w, envelope, keys).Some?
    ensures FamiliesWellFormed(Verified(w, envelope, keys).value)
    ensures 0 < Verified(w, envelope, keys).value.version < 0x8000_0000_0000_0000
  {
    var doc := w.parse(SignedPayload(w, envelope, keys).value).value;
    PlatformsAreWellFormed(Member(doc, "platforms").value.members);
  }

  /** The families every build carried before the ceiling was signed, by their labels. */
  const COMPILED_NAMES: seq<seq<string>> := [
    ["nintendo", "net"], ["nintendo", "com"], ["nintendo", "co", "jp"], ["nintendowifi", "net"],
    ["nintendo-europe", "com"], ["gamespy", "com"], ["openpak", "org"], ["among", "us"], ["photonengine", "io"]]

  /** The family of some labels: each with a dot in front. */
  function Dotted(labels: seq<string>): string {
    if labels == [] then "" else ['.'] + Words.Join(labels, '.')
  }

  function CompiledFamilies(): (r: seq<string>)
    ensures |r| == |COMPILED_NAMES|
  {
    seq(|COMPILED_NAMES|, i requires 0 <= i < |COMPILED_NAMES| =>
      Dotted(COMPILED_NAMES[i]))
  }

  function Compiled(): Ceiling {
    var families := CompiledFamilies();
    Ceiling(0, map["switch" := families, "wiiu" := families, "3ds" := families, "wii" := families,
                   "ds" := families])
  }

  lemma DottedIsWellFormed(labels: seq<string>)
    requires |labels| >= 2 && AllWellFormed(labels)
    ensures WellFormed(Dotted(labels))
  {
    forall i | 0 <= i < |labels| ensures '.' !in labels[i] {
      assert LabelWellFormed(labels[i]);
    }
    Words.SplitJoin(labels, '.');
    assert Dotted(labels)[1..] == Words.Join(labels, '.');
  }

  lemma CompiledLabels()
    ensures forall i :: 0 <= i < |COMPILED_NAMES| ==>
              |COMPILED_NAMES[i]| >= 2 && AllWellFormed(COMPILED_NAMES[i])
  {
    assert LabelWellFormed("nintendo") && LabelWellFormed("nintendowifi") && LabelWellFormed("nintendo-europe");
    assert LabelWellFormed("gamespy") && LabelWellFormed("openpak") && LabelWellFormed("among");
    assert LabelWellFormed("photonengine") && LabelWellFormed("net") && LabelWellFormed("com");
    assert LabelWellFormed("co") && LabelWellFormed("jp") && LabelWellFormed("org") && LabelWellFormed("us");
    assert LabelWellFormed("io");
  }

  lemma TwoLabels(a: string, b: string)
    ensures Dotted([a, b]) == "." + a + "." + b
  {
    assert [a, b][1..] == [b];
    assert Words.Join([b], '.') == b;
  }

  lemma ThreeLabels(a: string, b: string, c: string)
    ensures Dotted([a, b, c]) == "." + a + "." + b + "." + c
  {
    TwoLabels(b, c);
    assert [a, b, c][1..] == [b, c];
    assert Words.Join([a, b, c], '.') == a + ['.'] + Words.Join([b, c], '.');
  }

  /** A compiled-in family as it is spelt. */
  predicate Spelt(i: nat, text: string) {
    i < |COMPILED_NAMES| && Dotted(COMPILED_NAMES[i]) == text
  }

  lemma NintendoSpelt()
    ensures Spelt(0, ".nintendo.net") && Spelt(1, ".nintendo.com") && Spelt(2, ".nintendo.co.jp")
  {
    TwoLabels("nintendo", "net");
    TwoLabels("nintendo", "com");
    ThreeLabels("nintendo", "co", "jp");
  }

  lemma OthersSpelt()
    ensures Spelt(3, ".nintendowifi.net") && Spelt(4, ".nintendo-europe.com") && Spelt(5, ".gamespy.com")
  {
    TwoLabels("nintendowifi", "net");
    TwoLabels("nintendo-europe", "com");
    TwoLabels("gamespy", "com");
  }

  lemma LastSpelt()
    ensures Spelt(6, ".openpak.org") && Spelt(7, ".among.us") && Spelt(8, ".photonengine.io")
  {
    TwoLabels("openpak", "org");
    TwoLabels("among", "us");
    TwoLabels("photonengine", "io");
  }

  lemma CompiledIsWellFormed()
    ensures FamiliesWellFormed(Compiled())
  {
    CompiledLabels();
    forall i | 0 <= i < |COMPILED_NAMES| ensures WellFormed(CompiledFamilies()[i]) {
      DottedIsWellFormed(COMPILED_NAMES[i]);
    }
  }

  // ---- The boot decision ----

  datatype Source = Fetched | Cached | BuiltIn

  datatype Decision = Decision(ceiling: Ceiling, source: Source, store: bool, highest: int)

  function VerifiedCache(w: World, cached: Option<Bytes>, keys: seq<Key>): Option<Ceiling> {
    if cached.None? then None else Verified(w, cached.value, keys)
  }

  /** The cache against the highest version accepted; the fetched envelope against both. */
  function Decide(w: World, cached: Option<Bytes>, fetched: Option<Bytes>, highest: int, keys: seq<Key>): Decision {
    var cache := VerifiedCache(w, cached, keys);
    var held :=
      if cache.Some? && cache.value.version >= highest
      then Decision(cache.value, Cached, false, Max(highest, cache.value.version))
      else Decision(Compiled(), BuiltIn, false, highest);
    if fetched.None? then held
    else
      match Verified(w, fetched.value, keys)
      case None => held
      case Some(c) => if c.version < held.highest then held else Decision(c, Fetched, true, c.version)
  }

  // ---- The files ----

  /** The cached envelope and the text of the highest version accepted; None for a missing file. */
  datatype Disk = Disk(cache: Option<Bytes>, version: Option<string>)

  function ReadWhole(file: Option<Bytes>): Option<Bytes> {
    if file == Some([]) then None else file
  }

  function ReadHighest(file: Option<string>): (r: int)
    ensures r >= 0
  {
    if file.None? || file.value == "" then 0
    else
      match Decimal.Stoll(file.value)
      case None => 0
      case Some(n) => Max(0, n)
  }

  /** What a load writes, either write free to fail. */
  function DiskAfter(w: World, keys: seq<Key>, disk: Disk, fetched: Option<Bytes>, cacheWrites: bool,
                     versionWrites: bool): Disk
  {
    var d := Decide(w, ReadWhole(disk.cache), fetched, ReadHighest(disk.version), keys);
    Disk(if d.store && cacheWrites then fetched else disk.cache,
         if d.highest > ReadHighest(disk.version) && versionWrites then Some(Decimal.ToString(d.highest))
         else disk.version)
  }

  function InUseAfter(w: World, keys: seq<Key>, disk: Disk, fetched: Option<Bytes>): Ceiling {
    Decide(w, ReadWhole(disk.cache), fetched, ReadHighest(disk.version), keys).ceiling
  }

  class CeilingStore {
    const w: World
    const keys: seq<Key>
    var disk: Disk
    var current: Option<Ceiling>

    constructor (w: World, keys: seq<Key>, disk: Disk)
      ensures this.w == w && this.keys == keys && this.disk == disk && current == None
    {
      this.w, this.keys, this.disk, current := w, keys, disk, None;
    }

    /** `cacheWrites` and `versionWrites` say whether each atomic write succeeds. */
    method LoadCeiling(fetched: Option<Bytes>, cacheWrites: bool, versionWrites: bool) returns (d: Decision)
      modifies this
      ensures d == Decide(w, ReadWhole(old(disk.cache)), fetched, ReadHighest(old(disk.version)), keys)
      ensures disk == DiskAfter(w, keys, old(disk), fetched, cacheWrites, versionWrites)
      ensures current == Some(d.ceiling)
    {
      d := Decide(w, ReadWhole(disk.cache), fetched, ReadHighest(disk.version), keys);
      if d.store {
        if cacheWrites {
          disk := disk.(cache := fetched);
        }
      }
      if d.highest > ReadHighest(disk.version) {
        if versionWrites {
          disk := disk.(version := Some(Decimal.ToString(d.highest)));
        }
      }
      current := Some(d.ceiling);
    }

    method CurrentCeiling() returns (c: Ceiling)
      modifies this`current
      ensures c == if old(current).Some? then old(current).value else InUseAfter(w, keys, disk, None)
      ensures current == Some(c)
    {
      if current.Some? {
        return current.value;
      }
      var d := Decide(w, ReadWhole(disk.cache), None, ReadHighest(disk.version), keys);
      current := Some(d.ceiling);
      return d.ceiling;
    }
  }

  // ---- No step back ----

  /** The larger of the stored highest version and the version the verified cache carries. */
  function Floor(w: World, keys: seq<Key>, disk: Disk): (r: int)
    ensures r >= 0
  {
    var cache := VerifiedCache(w, ReadWhole(disk.cache), keys);
    Max(ReadHighest(disk.version), if cache.Some? then cache.value.version else 0)
  }

  /** A ceiling in use: the compiled one, or one a pinned key has signed, no older than the floor. */
  ghost predicate Sound(w: World, keys: seq<Key>, c: Ceiling, floor: int) {
    FamiliesWellFormed(c) &&
    (c == Compiled() ||
     (c.version >= floor && Vouched(w, keys, c)))
  }

  lemma VerifiedIsSound(w: World, envelope: Bytes, keys: seq<Key>, c: Ceiling)
    requires Verified(w, envelope, keys) == Some(c)
    ensures FamiliesWellFormed(c) && Vouched(w, keys, c) && 0 < c.version < 0x8000_0000_0000_0000
  {
    VerifiedIsWellFormed(w, envelope, keys);
    VerifiedExactly(w, envelope, keys, c);
  }

  /**
   One load, whichever of its writes happen: the floor does not fall, and what is put in use is
   sound against the floor before and after. Stopping between the two writes leaves what a
   failed version write leaves.
   */
  lemma LoadKeepsFloor(w: World, keys: seq<Key>, disk: Disk, fetched: Option<Bytes>, cacheWrites: bool,
                       versionWrites: bool)
    requires Sane(w)
    ensures var after := DiskAfter(w, keys, disk, fetched, cacheWrites, versionWrites);
            Floor(w, keys, disk) <= Floor(w, keys, after) &&
            Sound(w, keys, InUseAfter(w, keys, disk, fetched), Floor(w, keys, after))
  {
    var highest := ReadHighest(disk.version);
    var d := Decide(w, ReadWhole(disk.cache), fetched, highest, keys);
    CompiledIsWellFormed();
    if d.source.Cached? {
      VerifiedIsSound(w, disk.cache.value, keys, d.ceiling);
    } else if d.source.Fetched? {
      VerifiedIsSound(w, fetched.value, keys, d.ceiling);
      assert fetched != Some([]);
    }
    if d.highest > highest {
      Decimal.PrintedReads(d.highest);
    }
  }

  /** A verified fetched ceiling is put in use exactly when it is no older than the floor. */
  lemma FetchedIsUsedExactly(w: World, keys: seq<Key>, disk: Disk, fetched: Bytes)
    requires Verified(w, fetched, keys).Some?
    ensures Decide(w, ReadWhole(disk.cache), Some(fetched), ReadHighest(disk.version), keys).source.Fetched? <==>
            Verified(w, fetched, keys).value.version >= Floor(w, keys, disk)
  {
    var cache := VerifiedCache(w, ReadWhole(disk.cache), keys);
    if cache.Some? {
      VerifiedIsWellFormed(w, disk.cache.value, keys);
    }
  }

  /**
   What is put in use, in every case: what was fetched if it is no older than the floor; else the cache
   if it verifies and is no older than the version on file; else what was compiled in.
   */
  lemma DecidedExactly(w: World, keys: seq<Key>, disk: Disk, fetched: Option<Bytes>)
    ensures var cache, highest := VerifiedCache(w, ReadWhole(disk.cache), keys), ReadHighest(disk.version);
            var brought := VerifiedCache(w, fetched, keys);
            InUseAfter(w, keys, disk, fetched) ==
            if brought.Some? && brought.value.version >= Floor(w, keys, disk) then brought.value
            else if cache.Some? && cache.value.version >= highest then cache.value
            else Compiled()
  {
    var cache := VerifiedCache(w, ReadWhole(disk.cache), keys);
    if cache.Some? {
      VerifiedIsWellFormed(w, disk.cache.value, keys);
    }
    if fetched.Some? && Verified(w, fetched.value, keys).Some? {
      FetchedIsUsedExactly(w, keys, disk, fetched.value);
    }
  }

  /**
   A load raises the floor to the version it put in use as soon as one of its writes happens; nothing
   older is used again. The version file takes the number whatever the cache does.
   */
  lemma LoadRaisesFloor(w: World, keys: seq<Key>, disk: Disk, fetched: Option<Bytes>, cacheWrites: bool,
                        versionWrites: bool)
    requires Sane(w)
    ensures var after := DiskAfter(w, keys, disk, fetched, cacheWrites, versionWrites);
            var used := InUseAfter(w, keys, disk, fetched).version;
            Floor(w, keys, after) == (if cacheWrites || versionWrites then Max(Floor(w, keys, disk), used)
                                      else Floor(w, keys, disk)) &&
            ReadHighest(after.version) == (if versionWrites then Max(ReadHighest(disk.version), used)
                                           else ReadHighest(disk.version))
  {
    var d := Decide(w, ReadWhole(disk.cache), fetched, ReadHighest(disk.version), keys);
    if d.source.Cached? {
      VerifiedIsWellFormed(w, disk.cache.value, keys);
    } else if d.source.Fetched? {
      VerifiedIsWellFormed(w, fetched.value, keys);
      assert fetched != Some([]);
    }
    if d.highest > ReadHighest(disk.version) {
      Decimal.PrintedReads(d.highest);
    }
  }

  /** Once cached, it is what a later start without the network uses, its version written or not. */
  lemma AcceptedIsRemembered(w: World, keys: seq<Key>, disk: Disk, fetched: Bytes, versionWrites: bool)
    requires Sane(w) && Verified(w, fetched, keys).Some?
    requires Verified(w, fetched, keys).value.version >= Floor(w, keys, disk)
    ensures var after := DiskAfter(w, keys, disk, Some(fetched), true, versionWrites);
            InUseAfter(w, keys, after, None) == Verified(w, fetched, keys).value
  {
    FetchedIsUsedExactly(w, keys, disk, fetched);
    VerifiedIsWellFormed(w, fetched, keys);
    Decimal.PrintedReads(Verified(w, fetched, keys).value.version);
  }

  // ---- Runs ----

  datatype Step =
    | Load(fetched: Option<Bytes>, cacheWrites: bool, versionWrites: bool)
    | Look
    | Restart

  datatype State = State(disk: Disk, current: Option<Ceiling>)

  function After(w: World, keys: seq<Key>, s: State, step: Step): State {
    match step
    case Load(fetched, cacheWrites, versionWrites) =>
      State(DiskAfter(w, keys, s.disk, fetched, cacheWrites, versionWrites),
            Some(InUseAfter(w, keys, s.disk, fetched)))
    case Look => if s.current.Some? then s else s.(current := Some(InUseAfter(w, keys, s.disk, None)))
    case Restart => s.(current := None)
  }

  function AfterAll(w: World, keys: seq<Key>, disk: Disk, steps: seq<Step>): State {
    if steps == [] then State(disk, None)
    else After(w, keys, AfterAll(w, keys, disk, steps[..|steps| - 1]), steps[|steps| - 1])
  }

  lemma LookWritesNothing(w: World, keys: seq<Key>, disk: Disk)
    requires Sane(w)
    ensures Sound(w, keys, InUseAfter(w, keys, disk, None), Floor(w, keys, disk))
  {
    LoadKeepsFloor(w, keys, disk, None, false, false);
  }

  /** Over any run the floor never falls, and the ceiling in use is always sound against it. */
  lemma {:induction false} RunsKeepFloor(w: World, keys: seq<Key>, disk: Disk, steps: seq<Step>, i: nat)
    requires Sane(w) && i <= |steps|
    ensures Floor(w, keys, AfterAll(w, keys, disk, steps[..i]).disk) <=
            Floor(w, keys, AfterAll(w, keys, disk, steps).disk)
    ensures var s := AfterAll(w, keys, disk, steps);
            s.current.Some? ==> Sound(w, keys, s.current.value, Floor(w, keys, s.disk))
    decreases |steps|
  {
    if steps != [] {
      var before, last := steps[..|steps| - 1], steps[|steps| - 1];
      var s := AfterAll(w, keys, disk, before);
      if i == |steps| {
        assert steps[..i] == steps;
        RunsKeepFloor(w, keys, disk, before, 0);
      } else {
        assert before[..i] == steps[..i];
        RunsKeepFloor(w, keys, disk, before, i);
      }
      match last
      case Load(fetched, cacheWrites, versionWrites) =>
        LoadKeepsFloor(w, keys, s.disk, fetched, cacheWrites, versionWrites);
      case Look => LookWritesNothing(w, keys, s.disk);
      case Restart =>
    }
  }
}
