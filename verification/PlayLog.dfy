/**
 The play log of a profile, ParsePlayLog of baas_parsing.cpp: one entry per title, each with the largest
 of the numbers its rows give, and at most twenty of them.
 */
module PlayLog {
  import opened Basics

  const MOST := 20

  /** A row that has all the fields the code needs. */
  datatype Row = Row(id: nat, index: nat, group: nat, count: int, time: int, first: int, last: int)

  /** Rows as parsed; None for one that lacks a field. */
  type Rows = seq<Option<Row>>

  function Larger(known: Row, row: Row): Row {
    known.(count := Max(known.count, row.count), time := Max(known.time, row.time),
           first := Max(known.first, row.first), last := Max(known.last, row.last))
  }

  /** The rows of one title put together, in order. */
  function Merged(rows: Rows, id: nat): (r: Option<Row>)
    ensures r.Some? ==> r.value.id == id
    ensures r.Some? <==> exists i :: 0 <= i < |rows| && rows[i].Some? && rows[i].value.id == id
  {
    if rows == [] then None
    else
      var before, row := Merged(rows[..|rows| - 1], id), rows[|rows| - 1];
      if row.None? || row.value.id != id then before
      else if before.None? then row
      else Some(Larger(before.value, row.value))
  }

  predicate OfTitle(rows: Rows, i: nat, id: nat)
    requires i < |rows|
  {
    rows[i].Some? && rows[i].value.id == id
  }

  /** The merged numbers bound those of every row of the title, and the first row names the rest. */
  lemma {:induction false} MergedBounds(rows: Rows, i: nat, id: nat)
    requires i < |rows| && OfTitle(rows, i, id)
    ensures var m, row := Merged(rows, id).value, rows[i].value;
            row.count <= m.count && row.time <= m.time && row.first <= m.first && row.last <= m.last &&
            ((forall j :: 0 <= j < i ==> !OfTitle(rows, j, id)) ==> m.group == row.group && m.index == row.index)
    decreases |rows|
  {
    var before := rows[..|rows| - 1];
    if i < |before| {
      MergedBounds(before, i, id);
      assert forall j :: 0 <= j < i ==> (OfTitle(before, j, id) <==> OfTitle(rows, j, id));
    } else if Merged(before, id).Some? {
      var k :| 0 <= k < |before| && before[k].Some? && before[k].value.id == id;
      assert OfTitle(rows, k, id);
    }
  }

  /** The four numbers of a row. */
  const COUNT: Row -> int := (r: Row) => r.count
  const TIME: Row -> int := (r: Row) => r.time
  const FIRST: Row -> int := (r: Row) => r.first
  const LAST: Row -> int := (r: Row) => r.last

  /** Each merged number is that of some row of the title. */
  lemma MergedIsReached(rows: Rows, id: nat, number: Row -> int)
    requires Merged(rows, id).Some? && (number == COUNT || number == TIME || number == FIRST || number == LAST)
    ensures exists i :: 0 <= i < |rows| && OfTitle(rows, i, id) &&
                        number(rows[i].value) == number(Merged(rows, id).value)
  {
    OneIsReached(rows, id, number);
  }

  lemma {:induction false} OneIsReached(rows: Rows, id: nat, number: Row -> int)
    requires Merged(rows, id).Some?
    requires forall a: Row, b: Row :: number(Larger(a, b)) == Max(number(a), number(b))
    ensures exists i :: 0 <= i < |rows| && OfTitle(rows, i, id) &&
                        number(rows[i].value) == number(Merged(rows, id).value)
  {
    var before, row := rows[..|rows| - 1], rows[|rows| - 1];
    if Merged(before, id).Some? {
      OneIsReached(before, id, number);
      var i :| 0 <= i < |before| && OfTitle(before, i, id) &&
               number(before[i].value) == number(Merged(before, id).value);
      assert OfTitle(rows, i, id);
      if OfTitle(rows, |rows| - 1, id) {
        assert number(Merged(rows, id).value) == Max(number(Merged(before, id).value), number(row.value));
      }
    } else {
      assert OfTitle(rows, |rows| - 1, id);
    }
  }

  // ---- The code ----

  predicate Known(entries: seq<Row>, id: nat) {
    exists i :: 0 <= i < |entries| && entries[i].id == id
  }

  /** The entries are the merged rows of different titles, and no title is missing. */
  ghost predicate Tallies(entries: seq<Row>, rows: Rows) {
    && (forall i, j :: 0 <= i < j < |entries| ==> entries[i].id != entries[j].id)
    && (forall i :: 0 <= i < |entries| ==> Merged(rows, entries[i].id) == Some(entries[i]))
    && (forall i :: 0 <= i < |rows| && rows[i].Some? ==> Known(entries, rows[i].value.id))
  }

  method FindTitle(entries: seq<Row>, id: nat) returns (at: nat)
    ensures at <= |entries| && (at < |entries| ==> entries[at].id == id)
    ensures at == |entries| ==> !Known(entries, id)
  {
    at := 0;
    while at < |entries| && entries[at].id != id
      invariant at <= |entries| && forall i :: 0 <= i < at ==> entries[i].id != id
    {
      at := at + 1;
    }
  }

  lemma TallyNew(entries: seq<Row>, rows: Rows, k: nat)
    requires k < |rows| && Tallies(entries, rows[..k])
    requires rows[k].Some? && !Known(entries, rows[k].value.id)
    ensures Tallies(entries + [rows[k].value], rows[..k + 1])
  {
    var row := rows[k].value;
    var more := entries + [row];
    assert rows[..k + 1][..k] == rows[..k];
    forall i | 0 <= i < |more| ensures Merged(rows[..k + 1], more[i].id) == Some(more[i]) {
    }
    forall i | 0 <= i < k + 1 && rows[i].Some? ensures Known(more, rows[i].value.id) {
      if i < k {
        assert rows[..k][i] == rows[i];
        var j :| 0 <= j < |entries| && entries[j].id == rows[i].value.id;
        assert more[j].id == rows[i].value.id;
      } else {
        assert more[|entries|].id == row.id;
      }
    }
  }

  lemma TallyKnown(entries: seq<Row>, rows: Rows, k: nat, at: nat)
    requires k < |rows| && Tallies(entries, rows[..k])
    requires rows[k].Some? && at < |entries| && entries[at].id == rows[k].value.id
    ensures Tallies(entries[at := Larger(entries[at], rows[k].value)], rows[..k + 1])
  {
    var more := entries[at := Larger(entries[at], rows[k].value)];
    assert rows[..k + 1][..k] == rows[..k];
    forall i | 0 <= i < |more| ensures Merged(rows[..k + 1], more[i].id) == Some(more[i]) {
    }
    forall i | 0 <= i < k + 1 && rows[i].Some? ensures Known(more, rows[i].value.id) {
      if i < k {
        assert rows[..k][i] == rows[i];
        var j :| 0 <= j < |entries| && entries[j].id == rows[i].value.id;
        assert more[j].id == rows[i].value.id;
      } else {
        assert more[at].id == rows[k].value.id;
      }
    }
  }

  lemma TallySkip(entries: seq<Row>, rows: Rows, k: nat)
    requires k < |rows| && Tallies(entries, rows[..k]) && rows[k].None?
    ensures Tallies(entries, rows[..k + 1])
  {
    assert rows[..k + 1][..k] == rows[..k];
    forall i | 0 <= i < k + 1 && rows[i].Some? ensures Known(entries, rows[i].value.id) {
      assert rows[..k][i] == rows[i];
    }
  }

  /** `read` rows are read: all of them, unless twenty titles were found first. */
  method ParsePlayLog(rows: Rows) returns (entries: seq<Row>, ghost read: nat)
    ensures read <= |rows| && Tallies(entries, rows[..read]) && |entries| <= MOST
    ensures |entries| < MOST ==> read == |rows|
  {
    entries, read := [], 0;
    for k := 0 to |rows|
      invariant read == k && Tallies(entries, rows[..k]) && |entries| <= MOST
    {
      if |entries| == MOST {
        return;
      }
      if rows[k].None? {
        TallySkip(entries, rows, k);
        read := k + 1;
        continue;
      }
      var row := rows[k].value;
      var at := FindTitle(entries, row.id);
      if at == |entries| {
        TallyNew(entries, rows, k);
        entries := entries + [row];
      } else {
        TallyKnown(entries, rows, k, at);
        entries := entries[at := Larger(entries[at], row)];
      }
      read := k + 1;
    }
  }
}
