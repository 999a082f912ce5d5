/** Text cut at a separator and put together again: lines, labels and path components. */
module Words {

  /** Where the first `c` is; the length when there is none. */
  function Find<T(==)>(s: seq<T>, c: T): (r: nat)
    ensures r <= |s| && (r < |s| ==> s[r] == c) && c !in s[..r]
  {
    if s == [] || s[0] == c then 0
    else
      assert s[..1 + Find(s[1..], c)] == [s[0]] + s[1..][..Find(s[1..], c)];
      1 + Find(s[1..], c)
  }

  /** The pieces between separators; one more piece than there are separators. */
  function Split<T(==)>(s: seq<T>, sep: T): (r: seq<seq<T>>)
    ensures r != []
  {
    if s == [] then [[]]
    else
      var rest := Split(s[1..], sep);
      if s[0] == sep then [[]] + rest else [[s[0]] + rest[0]] + rest[1..]
  }

  function Join<T>(parts: seq<seq<T>>, sep: T): seq<T>
    requires parts != []
  {
    if |parts| == 1 then parts[0] else parts[0] + [sep] + Join(parts[1..], sep)
  }

  lemma {:induction false} SplitWord<T>(word: seq<T>, sep: T)
    requires sep !in word
    ensures Split(word, sep) == [word]
  {
    if word != [] {
      SplitWord(word[1..], sep);
      assert [word[0]] + word[1..] == word;
    }
  }

  /** One more element in front of what was split. */
  function Prepend<T(==)>(c: T, sep: T, rest: seq<seq<T>>): seq<seq<T>>
    requires rest != []
  {
    if c == sep then [[]] + rest else [[c] + rest[0]] + rest[1..]
  }

  lemma SplitStep<T>(c: T, s: seq<T>, sep: T)
    ensures Split([c] + s, sep) == Prepend(c, sep, Split(s, sep))
  {
    assert ([c] + s)[1..] == s;
  }

  lemma PrependAppend<T>(c: T, sep: T, rest: seq<seq<T>>, more: seq<seq<T>>)
    requires rest != []
    ensures Prepend(c, sep, rest + more) == Prepend(c, sep, rest) + more
  {
    assert (rest + more)[1..] == rest[1..] + more;
  }

  lemma {:induction false} SplitAppend<T>(a: seq<T>, sep: T, b: seq<T>)
    ensures Split(a + [sep] + b, sep) == Split(a, sep) + Split(b, sep)
  {
    if a == [] {
      assert a + [sep] + b == [sep] + b;
      SplitStep(sep, b, sep);
    } else {
      var c, t := a[0], a[1..];
      SplitAppend(t, sep, b);
      assert a + [sep] + b == [c] + (t + [sep] + b);
      SplitStep(c, t + [sep] + b, sep);
      assert a == [c] + t;
      SplitStep(c, t, sep);
      PrependAppend(c, sep, Split(t, sep), Split(b, sep));
    }
  }

  lemma {:induction false} SplitJoin<T>(parts: seq<seq<T>>, sep: T)
    requires parts != [] && forall i :: 0 <= i < |parts| ==> sep !in parts[i]
    ensures Split(Join(parts, sep), sep) == parts
  {
    SplitWord(parts[0], sep);
    if |parts| > 1 {
      SplitJoin(parts[1..], sep);
      SplitAppend(parts[0], sep, Join(parts[1..], sep));
    }
  }

  lemma {:induction false} JoinSplit<T>(s: seq<T>, sep: T)
    ensures Join(Split(s, sep), sep) == s
    ensures forall i :: 0 <= i < |Split(s, sep)| ==> sep !in Split(s, sep)[i]
  {
    if s != [] {
      JoinSplit(s[1..], sep);
      var rest, parts := Split(s[1..], sep), Split(s, sep);
      if s[0] == sep {
        assert parts[1..] == rest;
      } else {
        assert parts[1..] == rest[1..];
      }
    }
  }

  /** The first piece ends at the first separator. */
  lemma {:induction false} SplitFirst<T>(s: seq<T>, sep: T, k: nat)
    requires k == Find(s, sep)
    ensures Split(s, sep) == [s[..k]] + (if k == |s| then [] else Split(s[k + 1..], sep))
  {
    if s != [] && s[0] != sep {
      SplitFirst(s[1..], sep, k - 1);
      assert s[1..][..k - 1] == s[1..k];
      assert [s[0]] + s[1..k] == s[..k];
      assert s[1..][k - 1..] == s[k..];
      assert k < |s| ==> s[1..][k..] == s[k + 1..];
    }
  }

  lemma {:induction false} JoinAppend<T>(a: seq<seq<T>>, sep: T, b: seq<seq<T>>)
    requires a != [] && b != []
    ensures Join(a + b, sep) == Join(a, sep) + [sep] + Join(b, sep)
  {
    var all := a + b;
    assert all[0] == a[0];
    if |a| == 1 {
      assert all[1..] == b;
    } else {
      assert all[1..] == a[1..] + b;
      JoinAppend(a[1..], sep, b);
    }
  }
}
