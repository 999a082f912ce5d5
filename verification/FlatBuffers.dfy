/**
 The read side of FlatBuffers, as much of it as push.cpp needs: offsets chased through a frame,
 every position checked against the frame before it is read.
 */
module FlatBuffers {
  import opened Basics
  import opened LittleEndian

  const TYPE_PUT_RECORD: Byte := 0x04

  datatype Message = Message(name: Bytes, body: Bytes)

  /** A 32-bit word read as a signed integer. */
  function Signed(x: nat): int {
    if x < 0x8000_0000 then x else x - 0x1_0000_0000
  }

  /** A position, when `size` bytes stand there. */
  function Checked(b: Bytes, position: int, size: int): (r: Option<nat>)
    ensures r.Some? <==> 0 <= position && 0 <= size && position + size <= |b|
    ensures r.Some? ==> r.value == position
  {
    if position < 0 || size < 0 || position + size > |b| then None else Some(position)
  }

  function Root(b: Bytes): (r: Option<nat>)
    ensures r.Some? ==> r.value + 4 <= |b|
  {
    if |b| < 4 then None else Checked(b, U32(b, 0), 4)
  }

  /** The place of one field of a table, found through its vtable; None when the table lacks it. */
  function Field(b: Bytes, table: nat, slot: nat): (r: Option<nat>)
    requires table + 4 <= |b|
    ensures r.Some? ==> r.value < |b|
  {
    match Checked(b, table - Signed(U32(b, table)), 4)
    case None => None
    case Some(start) =>
      var entry := 4 + 2 * slot;
      if entry + 2 > U16(b, start) then None
      else
        match Checked(b, start + entry, 2)
        case None => None
        case Some(at) => if U16(b, at) == 0 then None else Checked(b, table + U16(b, at), 1)
  }

  function U8(b: Bytes, table: nat, slot: nat): Option<Byte>
    requires table + 4 <= |b|
  {
    match Field(b, table, slot)
    case None => None
    case Some(at) => Some(b[at])
  }

  function Indirect(b: Bytes, at: nat): (r: Option<nat>)
    ensures r.Some? ==> r.value + 4 <= |b|
  {
    match Checked(b, at, 4)
    case None => None
    case Some(position) => Checked(b, position + U32(b, position), 4)
  }

  function Table(b: Bytes, table: nat, slot: nat): (r: Option<nat>)
    requires table + 4 <= |b|
    ensures r.Some? ==> r.value + 4 <= |b|
  {
    match Field(b, table, slot)
    case None => None
    case Some(at) => Indirect(b, at)
  }

  function String(b: Bytes, table: nat, slot: nat): (r: Option<Bytes>)
    requires table + 4 <= |b|
  {
    match Table(b, table, slot)
    case None => None
    case Some(position) =>
      match Checked(b, position + 4, U32(b, position))
      case None => None
      case Some(start) => Some(b[start..start + U32(b, position)])
  }

  function VectorTable(b: Bytes, table: nat, slot: nat, index: nat): (r: Option<nat>)
    requires table + 4 <= |b|
    ensures r.Some? ==> r.value + 4 <= |b|
  {
    match Table(b, table, slot)
    case None => None
    case Some(vector) =>
      if index >= U32(b, vector) then None else Indirect(b, vector + 4 + 4 * index)
  }

  function EnvelopeType(frame: Bytes): Option<Byte> {
    match Root(frame)
    case None => None
    case Some(root) => U8(frame, root, 0)
  }

  /** The first entry of a PutRecord, when it is a kind-1 message's table. */
  function MessageTable(frame: Bytes): (r: Option<nat>)
    ensures r.Some? ==> r.value + 4 <= |frame|
  {
    match Root(frame)
    case None => None
    case Some(root) =>
      if U8(frame, root, 0) != Some(TYPE_PUT_RECORD) then None
      else
        match Table(frame, root, 1)
        case None => None
        case Some(payload) =>
          match VectorTable(frame, payload, 0, 0)
          case None => None
          case Some(entry) => if U8(frame, entry, 0) != Some(1) then None else Table(frame, entry, 1)
  }

  function ReadMessage(frame: Bytes): Option<Message> {
    match MessageTable(frame)
    case None => None
    case Some(message) =>
      match String(frame, message, 4)
      case None => None
      case Some(body) =>
        Some(Message(match String(frame, message, 0) case None => [] case Some(name) => name, body))
  }

  // ---- Never outside the frame ----

  ghost predicate SliceOf(part: Bytes, b: Bytes) {
    exists at: nat :: Stands(b, at, part)
  }

  lemma StringIsSlice(b: Bytes, table: nat, slot: nat)
    requires table + 4 <= |b| && String(b, table, slot).Some?
    ensures SliceOf(String(b, table, slot).value, b)
  {
    var position := Table(b, table, slot).value;
    assert Stands(b, position + 4, String(b, table, slot).value);
  }

  /**
   Every index above is checked to lie in the frame, for every frame; so what is returned is
   contiguous bytes of it, and only a PutRecord returns anything.
   */
  lemma MessageIsInside(frame: Bytes)
    requires ReadMessage(frame).Some?
    ensures SliceOf(ReadMessage(frame).value.body, frame) && SliceOf(ReadMessage(frame).value.name, frame)
    ensures EnvelopeType(frame) == Some(TYPE_PUT_RECORD)
  {
    var message := MessageTable(frame).value;
    StringIsSlice(frame, message, 4);
    if String(frame, message, 0).Some? {
      StringIsSlice(frame, message, 0);
    } else {
      assert Stands(frame, 0, []);
    }
  }

  // ---- When a message is read, and which ----

  /** The vtable at `vtable`, a signed distance before the table, has an entry for the slot that is not 0. */
  predicate EntryOf(b: Bytes, table: nat, slot: nat, at: nat, vtable: nat)
    requires table + 4 <= |b|
  {
    && -0x8000_0000 <= table - vtable < 0x8000_0000 && (table - vtable) % 0x1_0000_0000 == U32(b, table)
    && vtable + 4 <= |b| && vtable + 4 + 2 * slot + 2 <= |b| && 4 + 2 * slot + 2 <= U16(b, vtable)
    && table < at < |b| && at - table == U16(b, vtable + 4 + 2 * slot)
  }

  ghost predicate HasField(b: Bytes, table: nat, slot: nat, at: nat) {
    table + 4 <= |b| && exists vtable: nat :: EntryOf(b, table, slot, at, vtable)
  }

  lemma FieldExactly(b: Bytes, table: nat, slot: nat, at: nat)
    requires table + 4 <= |b|
    ensures Field(b, table, slot) == Some(at) <==> HasField(b, table, slot, at)
  {
    var back := Signed(U32(b, table));
    if Field(b, table, slot) == Some(at) {
      assert EntryOf(b, table, slot, at, table - back);
    }
    if vtable: nat :| EntryOf(b, table, slot, at, vtable) {
      assert table - vtable == back;
    }
  }

  /** The offset stored at `at` leads to `target`, where at least a length or a table starts. */
  predicate Leads(b: Bytes, at: nat, target: nat) {
    at + 4 <= |b| && target == at + U32(b, at) && target + 4 <= |b|
  }

  /** A field that leads to a place. */
  ghost predicate FieldLeads(b: Bytes, table: nat, slot: nat, target: nat) {
    exists at: nat :: HasField(b, table, slot, at) && Leads(b, at, target)
  }

  lemma TableExactly(b: Bytes, table: nat, slot: nat, target: nat)
    requires table + 4 <= |b|
    ensures Table(b, table, slot) == Some(target) <==> FieldLeads(b, table, slot, target)
  {
    if Field(b, table, slot).Some? {
      FieldExactly(b, table, slot, Field(b, table, slot).value);
    }
    if at: nat :| HasField(b, table, slot, at) && Leads(b, at, target) {
      FieldExactly(b, table, slot, at);
    }
  }

  /** A field that holds one byte. */
  ghost predicate FieldIs(b: Bytes, table: nat, slot: nat, value: Byte) {
    exists at: nat :: HasField(b, table, slot, at) && b[at] == value
  }

  lemma ByteExactly(b: Bytes, table: nat, slot: nat, value: Byte)
    requires table + 4 <= |b|
    ensures U8(b, table, slot) == Some(value) <==> FieldIs(b, table, slot, value)
  {
    if Field(b, table, slot).Some? {
      FieldExactly(b, table, slot, Field(b, table, slot).value);
    }
    if at: nat :| HasField(b, table, slot, at) && b[at] == value {
      FieldExactly(b, table, slot, at);
    }
  }

  /** A length and as many bytes. */
  predicate TextAt(b: Bytes, at: nat, text: Bytes) {
    at + 4 <= |b| && U32(b, at) == |text| && Stands(b, at + 4, text)
  }

  ghost predicate FieldHolds(b: Bytes, table: nat, slot: nat, text: Bytes) {
    exists at: nat :: FieldLeads(b, table, slot, at) && TextAt(b, at, text)
  }

  lemma StringIsText(b: Bytes, table: nat, slot: nat, text: Bytes, at: nat)
    requires table + 4 <= |b| && Table(b, table, slot) == Some(at)
    ensures String(b, table, slot) == Some(text) <==> TextAt(b, at, text)
  {
  }

  lemma StringExactly(b: Bytes, table: nat, slot: nat, text: Bytes)
    requires table + 4 <= |b|
    ensures String(b, table, slot) == Some(text) <==> FieldHolds(b, table, slot, text)
  {
    var found := Table(b, table, slot);
    if found.Some? {
      TableExactly(b, table, slot, found.value);
      StringIsText(b, table, slot, text, found.value);
    }
    if at: nat :| FieldLeads(b, table, slot, at) && TextAt(b, at, text) {
      TableExactly(b, table, slot, at);
    }
  }

  /** A vector of tables with at least one, and the first one is at `target`. */
  predicate FirstAt(b: Bytes, vector: nat, target: nat) {
    vector + 4 <= |b| && U32(b, vector) > 0 && Leads(b, vector + 4, target)
  }

  ghost predicate FirstOf(b: Bytes, table: nat, slot: nat, target: nat) {
    exists vector: nat :: FieldLeads(b, table, slot, vector) && FirstAt(b, vector, target)
  }

  lemma FirstIsTarget(b: Bytes, table: nat, slot: nat, target: nat, vector: nat)
    requires table + 4 <= |b| && Table(b, table, slot) == Some(vector)
    ensures VectorTable(b, table, slot, 0) == Some(target) <==> FirstAt(b, vector, target)
  {
  }

  lemma FirstExactly(b: Bytes, table: nat, slot: nat, target: nat)
    requires table + 4 <= |b|
    ensures VectorTable(b, table, slot, 0) == Some(target) <==> FirstOf(b, table, slot, target)
  {
    var found := Table(b, table, slot);
    if found.Some? {
      TableExactly(b, table, slot, found.value);
      FirstIsTarget(b, table, slot, target, found.value);
    }
    if vector: nat :| FieldLeads(b, table, slot, vector) && FirstAt(b, vector, target) {
      TableExactly(b, table, slot, vector);
    }
  }

  /** A PutRecord's first entry, of kind 1, whose message is at `message`. */
  ghost predicate MessageAt(b: Bytes, root: nat, payload: nat, entry: nat, message: nat) {
    && |b| >= 4 && root == U32(b, 0) && root + 4 <= |b|
    && FieldIs(b, root, 0, TYPE_PUT_RECORD) && FieldLeads(b, root, 1, payload)
    && FirstOf(b, payload, 0, entry) && FieldIs(b, entry, 0, 1) && FieldLeads(b, entry, 1, message)
  }

  lemma EntryExactly(b: Bytes, payload: nat, message: nat)
    requires payload + 4 <= |b|
    ensures (match VectorTable(b, payload, 0, 0)
             case None => false
             case Some(entry) => U8(b, entry, 0) == Some(1) && Table(b, entry, 1) == Some(message)) <==>
            exists entry: nat ::
              FirstOf(b, payload, 0, entry) && FieldIs(b, entry, 0, 1) && FieldLeads(b, entry, 1, message)
  {
    if VectorTable(b, payload, 0, 0).Some? {
      var entry := VectorTable(b, payload, 0, 0).value;
      FirstExactly(b, payload, 0, entry);
      ByteExactly(b, entry, 0, 1);
      TableExactly(b, entry, 1, message);
    }
    if entry: nat :| FirstOf(b, payload, 0, entry) && FieldIs(b, entry, 0, 1) && FieldLeads(b, entry, 1, message) {
      FirstExactly(b, payload, 0, entry);
      ByteExactly(b, entry, 0, 1);
      TableExactly(b, entry, 1, message);
    }
  }

  lemma MessageTableExactly(b: Bytes, message: nat)
    ensures MessageTable(b) == Some(message) <==>
            exists root: nat, payload: nat, entry: nat :: MessageAt(b, root, payload, entry, message)
  {
    if |b| >= 4 && U32(b, 0) + 4 <= |b| {
      var root := U32(b, 0);
      assert Root(b) == Some(root);
      ByteExactly(b, root, 0, TYPE_PUT_RECORD);
      if Table(b, root, 1).Some? {
        var payload := Table(b, root, 1).value;
        TableExactly(b, root, 1, payload);
        EntryExactly(b, payload, message);
        if MessageTable(b) == Some(message) {
          var entry := VectorTable(b, payload, 0, 0).value;
          FirstExactly(b, payload, 0, entry);
          ByteExactly(b, entry, 0, 1);
          TableExactly(b, entry, 1, message);
          assert MessageAt(b, root, payload, entry, message);
        }
      }
      if r: nat, payload: nat, entry: nat :| MessageAt(b, r, payload, entry, message) {
        TableExactly(b, root, 1, payload);
        EntryExactly(b, payload, message);
      }
    }
  }

  /** The message's body, and its name if it has one; a missing name is empty. */
  ghost predicate Texts(b: Bytes, message: nat, m: Message) {
    FieldHolds(b, message, 4, m.body) &&
    (FieldHolds(b, message, 0, m.name) || (m.name == [] && forall name :: !FieldHolds(b, message, 0, name)))
  }

  lemma TextsExactly(b: Bytes, message: nat, m: Message)
    requires MessageTable(b) == Some(message)
    ensures ReadMessage(b) == Some(m) <==> Texts(b, message, m)
  {
    StringExactly(b, message, 4, m.body);
    forall name ensures String(b, message, 0) == Some(name) <==> FieldHolds(b, message, 0, name) {
      StringExactly(b, message, 0, name);
    }
  }

  /**
   A frame is read as a message exactly when the way through root, payload, first entry and message table
   exists, every step of it inside the frame, and the body is there.
   */
  lemma ReadExactly(b: Bytes, m: Message)
    ensures ReadMessage(b) == Some(m) <==>
            exists root: nat, payload: nat, entry: nat, message: nat ::
              MessageAt(b, root, payload, entry, message) && Texts(b, message, m)
  {
    var found := MessageTable(b);
    if found.Some? {
      MessageTableExactly(b, found.value);
      TextsExactly(b, found.value, m);
    }
    if root: nat, payload: nat, entry: nat, message: nat :|
      MessageAt(b, root, payload, entry, message) && Texts(b, message, m)
    {
      MessageTableExactly(b, message);
    }
  }

  // ---- Frames laid out by a writer ----

  predicate Word16(b: Bytes, at: nat, x: int) {
    at + 2 <= |b| && U16(b, at) == x
  }

  predicate Word32(b: Bytes, at: nat, x: int) {
    at + 4 <= |b| && U32(b, at) == x
  }

  /** Where a writer put a table and its vtable: the table starts with the signed way back to it. */
  datatype Place = Place(table: nat, vtable: nat, vtableSize: nat)

  predicate TableAt(b: Bytes, p: Place) {
    && p.vtable + 4 <= |b| && 4 <= p.vtableSize && p.vtable + p.vtableSize <= |b|
    && p.table + 4 <= |b| && Signed(U32(b, p.table)) == p.table - p.vtable
    && Word16(b, p.vtable, p.vtableSize)
  }

  /** Field `slot` of a table lies at `at`: its vtable entry holds the distance. */
  predicate FieldAt(b: Bytes, p: Place, slot: nat, at: nat) {
    p.table < at < |b| && 4 + 2 * slot + 2 <= p.vtableSize && Word16(b, p.vtable + 4 + 2 * slot, at - p.table)
  }

  /** The offset stored at `at` leads forward to `target`. */
  predicate Points(b: Bytes, at: nat, target: nat) {
    target + 4 <= |b| && Word32(b, at, target - at)
  }

  predicate StringAt(b: Bytes, at: nat, text: Bytes) {
    Word32(b, at, |text|) && Stands(b, at + 4, text)
  }

  /** Every place in a PutRecord frame, in whatever order and distance a writer chose. */
  datatype Plan = Plan(
    root: Place, rootType: nat, rootPayload: nat,
    payload: Place, payloadEntries: nat, entries: nat, count: nat,
    entry: Place, entryKind: nat, entryMessage: nat,
    message: Place, nameField: nat, name: nat, bodyField: nat, body: nat)

  predicate EnvelopeLaidOut(b: Bytes, p: Plan) {
    && Word32(b, 0, p.root.table) && TableAt(b, p.root)
    && FieldAt(b, p.root, 0, p.rootType) && b[p.rootType] == TYPE_PUT_RECORD
    && FieldAt(b, p.root, 1, p.rootPayload) && Points(b, p.rootPayload, p.payload.table)
  }

  predicate EntryLaidOut(b: Bytes, p: Plan) {
    && TableAt(b, p.payload) && FieldAt(b, p.payload, 0, p.payloadEntries) && Points(b, p.payloadEntries, p.entries)
    && 0 < p.count && Word32(b, p.entries, p.count) && Points(b, p.entries + 4, p.entry.table)
    && TableAt(b, p.entry) && FieldAt(b, p.entry, 0, p.entryKind) && b[p.entryKind] == 1
    && FieldAt(b, p.entry, 1, p.entryMessage) && Points(b, p.entryMessage, p.message.table)
  }

  predicate MessageLaidOut(b: Bytes, p: Plan, m: Message) {
    && TableAt(b, p.message)
    && FieldAt(b, p.message, 0, p.nameField) && Points(b, p.nameField, p.name) && StringAt(b, p.name, m.name)
    && FieldAt(b, p.message, 4, p.bodyField) && Points(b, p.bodyField, p.body) && StringAt(b, p.body, m.body)
  }

  lemma FieldFound(b: Bytes, p: Place, slot: nat, at: nat)
    requires TableAt(b, p) && FieldAt(b, p, slot, at)
    ensures Field(b, p.table, slot) == Some(at)
  {
  }

  lemma StringFound(b: Bytes, p: Place, slot: nat, field: nat, at: nat, text: Bytes)
    requires TableAt(b, p) && FieldAt(b, p, slot, field) && Points(b, field, at) && StringAt(b, at, text)
    ensures String(b, p.table, slot) == Some(text)
  {
    FieldFound(b, p, slot, field);
  }

  lemma TableFound(b: Bytes, p: Place, slot: nat, field: nat, target: nat)
    requires TableAt(b, p) && FieldAt(b, p, slot, field) && Points(b, field, target)
    ensures Table(b, p.table, slot) == Some(target)
  {
    FieldFound(b, p, slot, field);
  }

  lemma KindFound(b: Bytes, p: Place, at: nat)
    requires TableAt(b, p) && FieldAt(b, p, 0, at)
    ensures U8(b, p.table, 0) == Some(b[at])
  {
    FieldFound(b, p, 0, at);
  }

  lemma VectorFound(b: Bytes, p: Place, field: nat, vector: nat, count: nat, target: nat)
    requires TableAt(b, p) && FieldAt(b, p, 0, field) && Points(b, field, vector)
    requires 0 < count && Word32(b, vector, count) && Points(b, vector + 4, target)
    ensures VectorTable(b, p.table, 0, 0) == Some(target)
  {
    TableFound(b, p, 0, field, vector);
  }

  lemma FirstEntryFound(b: Bytes, p: Plan)
    requires EntryLaidOut(b, p)
    ensures VectorTable(b, p.payload.table, 0, 0) == Some(p.entry.table)
    ensures U8(b, p.entry.table, 0) == Some(1) && Table(b, p.entry.table, 1) == Some(p.message.table)
  {
    VectorFound(b, p.payload, p.payloadEntries, p.entries, p.count, p.entry.table);
    KindFound(b, p.entry, p.entryKind);
    TableFound(b, p.entry, 1, p.entryMessage, p.message.table);
  }

  lemma EntryFound(b: Bytes, p: Plan)
    requires EnvelopeLaidOut(b, p) && EntryLaidOut(b, p)
    ensures MessageTable(b) == Some(p.message.table)
  {
    KindFound(b, p.root, p.rootType);
    TableFound(b, p.root, 1, p.rootPayload, p.payload.table);
    FirstEntryFound(b, p);
    assert Root(b) == Some(p.root.table);
  }

  /** Whatever the layout, the reader finds the name and the body the writer put there. */
  lemma LaidOutIsRead(b: Bytes, p: Plan, m: Message)
    requires EnvelopeLaidOut(b, p) && EntryLaidOut(b, p) && MessageLaidOut(b, p, m)
    ensures ReadMessage(b) == Some(m)
  {
    EntryFound(b, p);
    StringFound(b, p.message, 0, p.nameField, p.name, m.name);
    StringFound(b, p.message, 4, p.bodyField, p.body, m.body);
  }

  // ---- One such writer ----

  // The fixed part of a frame, piece by piece, each a vtable and its table.
  const ENVELOPE: Bytes := [8, 0, 12, 0, 4, 0, 8, 0, 8, 0, 0, 0, 4, 0, 0, 0, 12, 0, 0, 0]
  const PAYLOAD: Bytes := [6, 0, 8, 0, 4, 0, 0, 0, 8, 0, 0, 0, 4, 0, 0, 0, 1, 0, 0, 0, 12, 0, 0, 0]
  const ENTRY: Bytes := [8, 0, 12, 0, 4, 0, 8, 0, 8, 0, 0, 0, 1, 0, 0, 0, 20, 0, 0, 0]
  const MESSAGE: Bytes := [14, 0, 12, 0, 4, 0, 0, 0, 0, 0, 0, 0, 8, 0, 0, 0, 16, 0, 0, 0, 8, 0, 0, 0]

  function WriteString(text: Bytes): Bytes {
    Put32(|text|) + text
  }

  /** A PutRecord frame carrying one message. */
  function WriteMessage(m: Message): Bytes {
    Put32(12) + ENVELOPE + PAYLOAD + ENTRY + MESSAGE + Put32(8 + |m.name|) + WriteString(m.name) + WriteString(m.body)
  }

  function PlanOf(m: Message): Plan {
    Plan(Place(12, 4, 8), 16, 20,
         Place(32, 24, 6), 36, 40, 1,
         Place(56, 48, 8), 60, 64,
         Place(84, 68, 14), 88, 96, 92, 100 + |m.name|)
  }

  /** A byte, and the words it starts, are the same wherever the bytes they are made of stand. */
  lemma WordsOf(b: Bytes, at: nat, piece: Bytes, k: nat)
    requires Stands(b, at, piece) && k < |piece|
    ensures b[at + k] == piece[k]
    ensures k + 2 <= |piece| ==> U16(b, at + k) == U16(piece, k)
    ensures k + 4 <= |piece| ==> U32(b, at + k) == U32(piece, k)
  {
    var s := b[at..at + |piece|];
    assert s[k] == b[at + k];
    if k + 2 <= |piece| {
      assert s[k + 1] == b[at + k + 1];
    }
    if k + 4 <= |piece| {
      assert s[k + 2] == b[at + k + 2] && s[k + 3] == b[at + k + 3];
    }
  }

  lemma TableWritten(b: Bytes, at: nat, piece: Bytes, k: nat, size: nat, p: Place)
    requires Stands(b, at, piece) && k + 4 <= |piece| && size + 4 <= |piece|
    requires U16(piece, 0) == size >= 4 && U32(piece, k) == k < 0x8000_0000
    requires p == Place(at + k, at, size)
    ensures TableAt(b, p)
  {
    WordsOf(b, at, piece, 0);
    WordsOf(b, at, piece, k);
  }

  lemma FieldWritten(b: Bytes, at: nat, piece: Bytes, p: Place, slot: nat, distance: nat)
    requires Stands(b, at, piece) && p.vtable == at && p.table + distance < |b| && 0 < distance
    requires 6 + 2 * slot <= p.vtableSize <= |piece| && U16(piece, 4 + 2 * slot) == distance
    ensures FieldAt(b, p, slot, p.table + distance)
  {
    WordsOf(b, at, piece, 4 + 2 * slot);
  }

  lemma Half(piece: Bytes, k: nat, x: Byte)
    requires k + 2 <= |piece| && piece[k] == x && piece[k + 1] == 0
    ensures U16(piece, k) == x
  {
  }

  lemma Word(piece: Bytes, k: nat, x: Byte)
    requires k + 4 <= |piece| && piece[k] == x && piece[k + 1] == 0 && piece[k + 2] == 0 && piece[k + 3] == 0
    ensures U32(piece, k) == x
  {
    Half(piece, k, x);
    Half(piece, k + 2, 0);
  }

  lemma EnvelopeHalves()
    ensures U16(ENVELOPE, 0) == 8 && U16(ENVELOPE, 4) == 4 && U16(ENVELOPE, 6) == 8
  {
    Half(ENVELOPE, 0, 8);
    Half(ENVELOPE, 4, 4);
    Half(ENVELOPE, 6, 8);
  }

  lemma EnvelopeWords()
    ensures U32(ENVELOPE, 8) == 8 && U32(ENVELOPE, 16) == 12
    ensures ENVELOPE[12] == TYPE_PUT_RECORD
  {
    Word(ENVELOPE, 8, 8);
    Word(ENVELOPE, 16, 12);
  }

  lemma PayloadHalves()
    ensures U16(PAYLOAD, 0) == 6 && U16(PAYLOAD, 4) == 4
  {
    Half(PAYLOAD, 0, 6);
    Half(PAYLOAD, 4, 4);
  }

  lemma PayloadTable()
    ensures U32(PAYLOAD, 8) == 8
  {
    Word(PAYLOAD, 8, 8);
  }

  lemma PayloadField()
    ensures U32(PAYLOAD, 12) == 4
  {
    Word(PAYLOAD, 12, 4);
  }

  lemma PayloadVector()
    ensures U32(PAYLOAD, 16) == 1
  {
    Word(PAYLOAD, 16, 1);
  }

  lemma PayloadElement()
    ensures U32(PAYLOAD, 20) == 12
  {
    Word(PAYLOAD, 20, 12);
  }

  lemma EntryHalves()
    ensures U16(ENTRY, 0) == 8 && U16(ENTRY, 4) == 4 && U16(ENTRY, 6) == 8
  {
    Half(ENTRY, 0, 8);
    Half(ENTRY, 4, 4);
    Half(ENTRY, 6, 8);
  }

  lemma EntryWords()
    ensures U32(ENTRY, 8) == 8 && U32(ENTRY, 16) == 20
    ensures ENTRY[12] == 1
  {
    Word(ENTRY, 8, 8);
    Word(ENTRY, 16, 20);
  }

  lemma MessageHalves()
    ensures U16(MESSAGE, 0) == 14 && U16(MESSAGE, 4) == 4 && U16(MESSAGE, 12) == 8
  {
    Half(MESSAGE, 0, 14);
    Half(MESSAGE, 4, 4);
    Half(MESSAGE, 12, 8);
  }

  lemma MessageWords()
    ensures U32(MESSAGE, 16) == 16 && U32(MESSAGE, 20) == 8
  {
    Word(MESSAGE, 16, 16);
    Word(MESSAGE, 20, 8);
  }

  lemma EnvelopeWritten(b: Bytes, m: Message)
    requires Stands(b, 0, Put32(12)) && Stands(b, 4, ENVELOPE) && |b| > 68
    ensures EnvelopeLaidOut(b, PlanOf(m))
  {
    var p := PlanOf(m);
    EnvelopeHalves();
    EnvelopeWords();
    Get32(b, 0, 12);
    TableWritten(b, 4, ENVELOPE, 8, 8, p.root);
    FieldWritten(b, 4, ENVELOPE, p.root, 0, 4);
    FieldWritten(b, 4, ENVELOPE, p.root, 1, 8);
    WordsOf(b, 4, ENVELOPE, 12);
    WordsOf(b, 4, ENVELOPE, 16);
  }

  lemma PayloadWritten(b: Bytes, p: Plan)
    requires Stands(b, 24, PAYLOAD) && |b| > 92
    requires p.payload == Place(32, 24, 6) && p.payloadEntries == 36 && p.entries == 40 && p.count == 1
    requires p.entry.table == 56
    ensures TableAt(b, p.payload) && FieldAt(b, p.payload, 0, p.payloadEntries)
    ensures Points(b, p.payloadEntries, p.entries) && Word32(b, p.entries, p.count)
    ensures Points(b, p.entries + 4, p.entry.table)
  {
    PayloadHalves();
    PayloadTable();
    PayloadField();
    PayloadVector();
    PayloadElement();
    TableWritten(b, 24, PAYLOAD, 8, 6, p.payload);
    FieldWritten(b, 24, PAYLOAD, p.payload, 0, 4);
    WordsOf(b, 24, PAYLOAD, 12);
    WordsOf(b, 24, PAYLOAD, 16);
    WordsOf(b, 24, PAYLOAD, 20);
  }

  lemma EntryWritten(b: Bytes, m: Message)
    requires Stands(b, 24, PAYLOAD) && Stands(b, 48, ENTRY) && |b| > 92
    ensures EntryLaidOut(b, PlanOf(m))
  {
    var p := PlanOf(m);
    PayloadWritten(b, p);
    EntryHalves();
    EntryWords();
    TableWritten(b, 48, ENTRY, 8, 8, p.entry);
    FieldWritten(b, 48, ENTRY, p.entry, 0, 4);
    FieldWritten(b, 48, ENTRY, p.entry, 1, 8);
    WordsOf(b, 48, ENTRY, 12);
    WordsOf(b, 48, ENTRY, 16);
  }

  lemma MessageTableWritten(b: Bytes, p: Place)
    requires Stands(b, 68, MESSAGE) && |b| >= 100 && p == Place(84, 68, 14)
    ensures TableAt(b, p) && FieldAt(b, p, 0, 88) && FieldAt(b, p, 4, 92) && Points(b, 88, 96)
  {
    MessageHalves();
    MessageWords();
    TableWritten(b, 68, MESSAGE, 16, 14, p);
    FieldWritten(b, 68, MESSAGE, p, 0, 4);
    FieldWritten(b, 68, MESSAGE, p, 4, 8);
    WordsOf(b, 68, MESSAGE, 20);
  }

  lemma MessageWritten(b: Bytes, m: Message)
    requires Stands(b, 68, MESSAGE) && Stands(b, 92, Put32(8 + |m.name|))
    requires Stands(b, 96, WriteString(m.name)) && Stands(b, 100 + |m.name|, WriteString(m.body))
    requires |m.name| + 8 < 0x1_0000_0000 && |m.body| < 0x1_0000_0000
    ensures MessageLaidOut(b, PlanOf(m), m)
  {
    MessageTableWritten(b, PlanOf(m).message);
    Put32Reads(b, 92, 8 + |m.name|);
    StringWritten(b, 96, m.name);
    StringWritten(b, 100 + |m.name|, m.body);
  }

  lemma StringWritten(b: Bytes, at: nat, text: Bytes)
    requires Stands(b, at, WriteString(text)) && |text| < 0x1_0000_0000
    ensures StringAt(b, at, text)
  {
    var s := b[at..at + |WriteString(text)|];
    assert b[at..at + 4] == s[..4] == Put32(|text|);
    assert b[at + 4..at + 4 + |text|] == s[4..] == text;
    Put32Reads(b, at, |text|);
  }

  lemma TablesStand(m: Message)
    ensures var b := WriteMessage(m);
            Stands(b, 0, Put32(12)) && Stands(b, 4, ENVELOPE) && Stands(b, 24, PAYLOAD) && Stands(b, 48, ENTRY)
  {
  }

  lemma TextsStand(m: Message)
    ensures var b := WriteMessage(m);
            Stands(b, 68, MESSAGE) && Stands(b, 92, Put32(8 + |m.name|)) && Stands(b, 96, WriteString(m.name)) &&
            Stands(b, 100 + |m.name|, WriteString(m.body))
  {
  }

  /** Writing a message and reading it back gives the message, for every name and body. */
  lemma MessageRoundTrip(m: Message)
    requires |m.name| + 8 < 0x1_0000_0000 && |m.body| < 0x1_0000_0000
    ensures ReadMessage(WriteMessage(m)) == Some(m)
  {
    var b := WriteMessage(m);
    TablesStand(m);
    TextsStand(m);
    EnvelopeWritten(b, m);
    EntryWritten(b, m);
    MessageWritten(b, m);
    LaidOutIsRead(b, PlanOf(m), m);
  }
}
