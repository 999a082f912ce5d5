/**
 Sorting and removing repeats, for any strict total order: what std::sort and std::unique leave,
 and that it depends only on which elements there are.
 */
module Sorting {
  import opened Basics

  // ---- Orders ----

  ghost predicate StrictOrder<T(!new)>(less: (T, T) -> bool) {
    && (forall a :: !less(a, a))
    && (forall a, b, c :: less(a, b) && less(b, c) ==> less(a, c))
    && (forall a, b :: a == b || less(a, b) || less(b, a))
  }

  /** Dictionary order over an order on the elements. */
  predicate Lex<T(==)>(less: (T, T) -> bool, a: seq<T>, b: seq<T>) {
    b != [] && (a == [] || less(a[0], b[0]) || (a[0] == b[0] && Lex(less, a[1..], b[1..])))
  }

  predicate CharLess(a: char, b: char) {
    a < b
  }

  /** How std::string compares. */
  predicate TextLess(a: string, b: string) {
    Lex(CharLess, a, b)
  }

  predicate ByteLess(a: Byte, b: Byte) {
    a < b
  }

  predicate NameLess(a: Bytes, b: Bytes) {
    Lex(ByteLess, a, b)
  }

  /** How std::filesystem::path compares: component by component. */
  predicate PathLess(a: seq<Bytes>, b: seq<Bytes>) {
    Lex(NameLess, a, b)
  }

  lemma {:induction false} LexIrreflexive<T(!new)>(less: (T, T) -> bool, a: seq<T>)
    requires StrictOrder(less)
    ensures !Lex(less, a, a)
  {
    if a != [] {
      LexIrreflexive(less, a[1..]);
    }
  }

  lemma {:induction false} LexTransitive<T(!new)>(less: (T, T) -> bool, a: seq<T>, b: seq<T>, c: seq<T>)
    requires StrictOrder(less) && Lex(less, a, b) && Lex(less, b, c)
    ensures Lex(less, a, c)
  {
    if a != [] && a[0] == b[0] && b[0] == c[0] && !less(a[0], b[0]) && !less(b[0], c[0]) {
      LexTransitive(less, a[1..], b[1..], c[1..]);
    }
  }

  lemma {:induction false} LexTotal<T(!new)>(less: (T, T) -> bool, a: seq<T>, b: seq<T>)
    requires StrictOrder(less)
    ensures a == b || Lex(less, a, b) || Lex(less, b, a)
  {
    if a != [] && b != [] && a[0] == b[0] {
      LexTotal(less, a[1..], b[1..]);
      assert a[1..] == b[1..] ==> a == [a[0]] + a[1..] == b;
    }
  }

  lemma LexIsStrict<T(!new)>(less: (T, T) -> bool, lex: (seq<T>, seq<T>) -> bool)
    requires StrictOrder(less) && forall a, b :: lex(a, b) <==> Lex(less, a, b)
    ensures StrictOrder(lex)
  {
    forall a ensures !lex(a, a) {
      LexIrreflexive(less, a);
    }
    forall a, b, c | lex(a, b) && lex(b, c) ensures lex(a, c) {
      LexTransitive(less, a, b, c);
    }
    forall a, b ensures a == b || lex(a, b) || lex(b, a) {
      LexTotal(less, a, b);
    }
  }

  lemma TextLessIsStrict()
    ensures StrictOrder(TextLess)
  {
    LexIsStrict(CharLess, TextLess);
  }

  lemma PathLessIsStrict()
    ensures StrictOrder(PathLess)
  {
    LexIsStrict(ByteLess, NameLess);
    LexIsStrict(NameLess, PathLess);
  }

  // ---- Sorted sequences ----

  predicate Sorted<T(==)>(less: (T, T) -> bool, s: seq<T>) {
    forall i, j :: 0 <= i < j < |s| ==> less(s[i], s[j]) || s[i] == s[j]
  }

  predicate Ascending<T(==)>(less: (T, T) -> bool, s: seq<T>) {
    forall i, j :: 0 <= i < j < |s| ==> less(s[i], s[j])
  }

  /** An ascending sequence is determined by its elements. */
  lemma {:induction false} AscendingIsUnique<T(!new)>(less: (T, T) -> bool, s: seq<T>, t: seq<T>)
    requires StrictOrder(less) && Ascending(less, s) && Ascending(less, t)
    requires forall x :: x in s <==> x in t
    ensures s == t
    decreases |s|
  {
    if s == [] {
      assert forall i :: 0 <= i < |t| ==> t[i] in t;
    } else {
      assert s[0] in t && t != [] && t[0] in s;
      var i :| 0 <= i < |t| && t[i] == s[0];
      var j :| 0 <= j < |s| && s[j] == t[0];
      assert s[0] == t[0];
      forall x ensures x in s[1..] <==> x in t[1..] {
        if x in s[1..] {
          assert x in t && x != t[0];
        }
        if x in t[1..] {
          assert x in s && x != s[0];
        }
      }
      AscendingIsUnique(less, s[1..], t[1..]);
      assert s == [s[0]] + s[1..] && t == [t[0]] + t[1..];
    }
  }

  // ---- Sorting ----

  function Insert<T(==,!new)>(less: (T, T) -> bool, x: T, s: seq<T>): (r: seq<T>)
    ensures forall y :: y in r <==> y == x || y in s
  {
    if s == [] || !less(s[0], x) then [x] + s else [s[0]] + Insert(less, x, s[1..])
  }

  /** The elements in order, repeats kept. */
  function Sort<T(==,!new)>(less: (T, T) -> bool, s: seq<T>): (r: seq<T>)
    ensures forall y :: y in r <==> y in s
  {
    if s == [] then [] else Insert(less, s[0], Sort(less, s[1..]))
  }

  lemma {:induction false} InsertSorts<T(!new)>(less: (T, T) -> bool, x: T, s: seq<T>)
    requires StrictOrder(less) && Sorted(less, s)
    ensures Sorted(less, Insert(less, x, s))
  {
    if s != [] && less(s[0], x) {
      InsertSorts(less, x, s[1..]);
      var rest := Insert(less, x, s[1..]);
      forall j | 0 <= j < |rest| ensures less(s[0], rest[j]) || s[0] == rest[j] {
        assert rest[j] in rest;
      }
    }
  }

  lemma {:induction false} SortSorts<T(!new)>(less: (T, T) -> bool, s: seq<T>)
    requires StrictOrder(less)
    ensures Sorted(less, Sort(less, s))
  {
    if s != [] {
      SortSorts(less, s[1..]);
      InsertSorts(less, s[0], Sort(less, s[1..]));
    }
  }

  /** Keeps the first of each run of equal elements, in place of the run. */
  method Unique<T(==)>(s: seq<T>) returns (r: seq<T>)
    ensures forall y :: y in r <==> y in s
    ensures r == Deduplicated(s)
  {
    r := [];
    for i := 0 to |s|
      invariant r == Deduplicated(s[..i])
      invariant i > 0 ==> r != [] && r[|r| - 1] == s[i - 1]
      invariant forall y :: y in r <==> y in s[..i]
    {
      assert s[..i + 1][..i] == s[..i] && s[..i + 1] == s[..i] + [s[i]];
      if i == 0 || s[i] != s[i - 1] {
        r := r + [s[i]];
      }
    }
    assert s[..|s|] == s;
  }

  function Deduplicated<T(==)>(s: seq<T>): seq<T> {
    if s == [] then []
    else
      var before, last := Deduplicated(s[..|s| - 1]), s[|s| - 1];
      if |s| > 1 && s[|s| - 2] == last then before else before + [last]
  }

  lemma {:induction false} DeduplicatedAscends<T(!new)>(less: (T, T) -> bool, s: seq<T>)
    requires StrictOrder(less) && Sorted(less, s)
    ensures Ascending(less, Deduplicated(s))
    ensures forall y :: y in Deduplicated(s) <==> y in s
    ensures s != [] ==> Deduplicated(s) != [] && Deduplicated(s)[|Deduplicated(s)| - 1] == s[|s| - 1]
  {
    if s != [] {
      var before, last := s[..|s| - 1], s[|s| - 1];
      DeduplicatedAscends(less, before);
      assert s == before + [last];
      var kept := Deduplicated(before);
      if |s| > 1 && s[|s| - 2] != last {
        forall i | 0 <= i < |kept| ensures less(kept[i], last) {
          assert kept[i] in before;
          assert less(kept[i], s[|s| - 2]) || kept[i] == s[|s| - 2];
        }
      }
    }
  }

  /** Sorted and without repeats: the canonical list of some elements. */
  function Canonical<T(==,!new)>(less: (T, T) -> bool, s: seq<T>): seq<T> {
    Deduplicated(Sort(less, s))
  }

  lemma CanonicalAscends<T(!new)>(less: (T, T) -> bool, s: seq<T>)
    requires StrictOrder(less)
    ensures Ascending(less, Canonical(less, s))
    ensures forall y :: y in Canonical(less, s) <==> y in s
  {
    SortSorts(less, s);
    DeduplicatedAscends(less, Sort(less, s));
  }

  /** The canonical list is the same exactly when the elements are. */
  lemma CanonicalExactly<T(!new)>(less: (T, T) -> bool, s: seq<T>, t: seq<T>)
    requires StrictOrder(less)
    ensures Canonical(less, s) == Canonical(less, t) <==> forall x :: x in s <==> x in t
  {
    CanonicalAscends(less, s);
    CanonicalAscends(less, t);
    if forall x :: x in s <==> x in t {
      AscendingIsUnique(less, Canonical(less, s), Canonical(less, t));
    }
    if Canonical(less, s) == Canonical(less, t) {
      forall x ensures x in s <==> x in t {
        assert x in s <==> x in Canonical(less, s);
      }
    }
  }

  // ---- Sorting without repeats ----

  predicate NoRepeats<T(==)>(s: seq<T>) {
    forall i, j :: 0 <= i < j < |s| ==> s[i] != s[j]
  }

  lemma {:induction false} InsertNoRepeats<T(!new)>(less: (T, T) -> bool, x: T, s: seq<T>)
    requires NoRepeats(s) && x !in s
    ensures NoRepeats(Insert(less, x, s))
  {
    if s != [] && less(s[0], x) {
      InsertNoRepeats(less, x, s[1..]);
      var rest := Insert(less, x, s[1..]);
      forall j | 0 <= j < |rest| ensures rest[j] != s[0] {
        assert rest[j] in rest;
      }
    }
  }

  lemma {:induction false} SortNoRepeats<T(!new)>(less: (T, T) -> bool, s: seq<T>)
    requires NoRepeats(s)
    ensures NoRepeats(Sort(less, s))
  {
    if s != [] {
      SortNoRepeats(less, s[1..]);
      InsertNoRepeats(less, s[0], Sort(less, s[1..]));
    }
  }

  /** The order in which distinct elements are given does not matter to what sorting leaves. */
  lemma SortForgetsOrder<T(!new)>(less: (T, T) -> bool, s: seq<T>, t: seq<T>)
    requires StrictOrder(less) && NoRepeats(s) && NoRepeats(t) && forall x :: x in s <==> x in t
    ensures Sort(less, s) == Sort(less, t)
  {
    SortSorts(less, s);
    SortSorts(less, t);
    SortNoRepeats(less, s);
    SortNoRepeats(less, t);
    AscendingIsUnique(less, Sort(less, s), Sort(less, t));
  }
}
