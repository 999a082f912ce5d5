/**
 Host names against domain families: FamilyWellFormed and NameInFamilies of network_ceiling.cpp,
 Matches of network_profile_fetch.cpp. The reference cuts names into their labels.
 */
module Families {
  import opened Words

  function LowerChar(c: char): char {
    if 'A' <= c <= 'Z' then (c as int + 32) as char else c
  }

  /** Lower case as the C locale has it: bytes past ASCII stay. */
  function Lower(s: string): (r: string)
    ensures |r| == |s| && forall i :: 0 <= i < |s| ==> r[i] == LowerChar(s[i])
  {
    seq(|s|, i requires 0 <= i < |s| => LowerChar(s[i]))
  }

  /** The same letter, capital or small, or the very same character. */
  predicate SameLetter(a: char, b: char) {
    a == b || ('A' <= a <= 'Z' && b as int - 'a' as int == a as int - 'A' as int) ||
    ('A' <= b <= 'Z' && a as int - 'a' as int == b as int - 'A' as int)
  }

  /** Two texts agree in lower case exactly when they do letter by letter. */
  lemma LowerExactly(a: string, b: string)
    ensures Lower(a) == Lower(b) <==> |a| == |b| && forall i :: 0 <= i < |a| ==> SameLetter(a[i], b[i])
    ensures Lower(Lower(a)) == Lower(a)
  {
    if Lower(a) == Lower(b) {
      forall i | 0 <= i < |a| ensures SameLetter(a[i], b[i]) {
        assert Lower(a)[i] == Lower(b)[i];
      }
    }
  }

  function Labels(name: string): seq<string> {
    Split(name, '.')
  }

  predicate EndsWith<T(==)>(s: seq<T>, tail: seq<T>) {
    |tail| <= |s| && s[|s| - |tail|..] == tail
  }

  // ---- Well-formed families ----

  predicate LabelChar(c: char) {
    'a' <= c <= 'z' || '0' <= c <= '9' || c == '-'
  }

  predicate LabelWellFormed(word: string) {
    && 1 <= |word| <= 63 && word[0] != '-' && word[|word| - 1] != '-'
    && forall i :: 0 <= i < |word| ==> LabelChar(word[i])
  }

  predicate AllWellFormed(labels: seq<string>) {
    forall i :: 0 <= i < |labels| ==> LabelWellFormed(labels[i])
  }

  predicate LetterOrDigit(c: char) {
    'a' <= c <= 'z' || '0' <= c <= '9'
  }

  /** As section 2.3.1 of RFC 1035 has it, in lower case: a letter or digit at each end, hyphens only inside. */
  lemma LabelExactly(word: string)
    ensures LabelWellFormed(word) <==>
            0 < |word| < 64 && LetterOrDigit(word[0]) && LetterOrDigit(word[|word| - 1]) &&
            forall i :: 0 < i < |word| - 1 ==> LetterOrDigit(word[i]) || word[i] == '-'
  {
    if LabelWellFormed(word) {
      assert LabelChar(word[0]) && LabelChar(word[|word| - 1]);
    }
  }

  /** A dot, then at least two well-formed labels. */
  predicate WellFormed(family: string) {
    family != "" && family[0] == '.' && |Labels(family[1..])| >= 2 && AllWellFormed(Labels(family[1..]))
  }

  method FamilyWellFormed(family: string) returns (ok: bool)
    ensures ok <==> WellFormed(family)
  {
    if |family| < 2 || family[0] != '.' {
      if |family| < 2 {
        ShortIsMalformed(family);
      }
      return false;
    }
    var labels, start := 0, 1;
    ghost var done: seq<string> := [];
    ghost var all := Labels(family[1..]);
    while true
      invariant 1 <= start <= |family| && labels == |done| && AllWellFormed(done)
      invariant all == done + Labels(family[start..])
      decreases |family| - start
    {
      var rest := family[start..];
      var dot := Find(rest, '.');
      var word := rest[..dot];
      NextLabel(rest, dot, done, all);
      var valid := ValidLabel(word);
      if !valid {
        return false;
      }
      labels := labels + 1;
      done := done + [word];
      if dot == |rest| {
        break;
      }
      assert rest[dot + 1..] == family[start + dot + 1..];
      start := start + dot + 1;
    }
    return labels >= 2;
  }

  lemma ShortIsMalformed(family: string)
    requires |family| < 2
    ensures !WellFormed(family)
  {
    if family != "" {
      assert family[1..] == "";
    }
  }

  lemma NextLabel(rest: string, dot: nat, done: seq<string>, all: seq<string>)
    requires dot == Find(rest, '.') && AllWellFormed(done) && all == done + Labels(rest)
    ensures all == (done + [rest[..dot]]) + (if dot == |rest| then [] else Labels(rest[dot + 1..]))
    ensures AllWellFormed(done + [rest[..dot]]) <==> LabelWellFormed(rest[..dot])
    ensures !LabelWellFormed(rest[..dot]) ==> !AllWellFormed(all)
  {
    SplitFirst(rest, '.', dot);
    LabelAfter(done, rest[..dot], if dot == |rest| then [] else Labels(rest[dot + 1..]));
  }

  lemma LabelAfter(done: seq<string>, word: string, more: seq<string>)
    requires AllWellFormed(done)
    ensures done + ([word] + more) == (done + [word]) + more
    ensures AllWellFormed(done + [word]) <==> LabelWellFormed(word)
    ensures !LabelWellFormed(word) ==> !AllWellFormed(done + ([word] + more))
  {
    assert (done + [word])[|done|] == word && (done + ([word] + more))[|done|] == word;
  }

  method ValidLabel(word: string) returns (ok: bool)
    ensures ok <==> LabelWellFormed(word)
  {
    if word == "" || |word| > 63 || word[0] == '-' || word[|word| - 1] == '-' {
      return false;
    }
    for i := 0 to |word|
      invariant forall j :: 0 <= j < i ==> LabelChar(word[j])
    {
      if !LabelChar(word[i]) {
        return false;
      }
    }
    return true;
  }

  lemma {:induction false} LabelsCover(name: string, c: char)
    requires c in name && c != '.'
    ensures exists k :: 0 <= k < |Labels(name)| && c in Labels(name)[k]
  {
    var rest, labels := Labels(name[1..]), Labels(name);
    if c in name[1..] {
      LabelsCover(name[1..], c);
      var k :| 0 <= k < |rest| && c in rest[k];
      assert if name[0] == '.' then labels[k + 1] == rest[k]
             else if k == 0 then labels[0] == [name[0]] + rest[0] else labels[k] == rest[k];
    } else {
      assert c == name[0] && c in labels[0];
    }
  }

  /** A well-formed family is its own lower case, and so inside itself. */
  lemma WellFormedIsInside(family: string)
    requires WellFormed(family)
    ensures Lower(family) == family && InFamily(family, family)
  {
    if |family| < 2 {
      ShortIsMalformed(family);
    }
    forall i | 0 <= i < |family| ensures LowerChar(family[i]) == family[i] {
      if family[i] != '.' {
        assert family[1..][i - 1] == family[i];
        LabelsCover(family[1..], family[i]);
        var k :| 0 <= k < |Labels(family[1..])| && family[i] in Labels(family[1..])[k];
        assert LabelWellFormed(Labels(family[1..])[k]);
      }
    }
  }

  // ---- Names inside families ----

  /** The code's comparison of a lower-case name with one family. */
  predicate InFamily(name: string, family: string) {
    |family| >= 2 &&
    (name == family || name == family[1..] ||
     (|name| > |family| && name[|name| - |family|..] == family))
  }

  predicate InFamilies(host: string, families: seq<string>) {
    exists i :: 0 <= i < |families| && InFamily(Lower(host), families[i])
  }

  method NameInFamilies(host: string, families: seq<string>) returns (inside: bool)
    ensures inside <==> InFamilies(host, families)
  {
    var name := Lower(host);
    for i := 0 to |families|
      invariant forall j :: 0 <= j < i ==> !InFamily(name, families[j])
    {
      var family := families[i];
      if |family| < 2 {
        continue;
      }
      if name == family || name == family[1..] ||
         (|name| > |family| && name[|name| - |family|..] == family) {
        return true;
      }
    }
    return false;
  }

  /** The reference: the family's labels are the last labels of the name. */
  predicate UnderFamily(host: string, family: string) {
    family != "" && EndsWith(Labels(Lower(host)), Labels(family[1..]))
  }

  lemma InsideIsUnder(name: string, family: string)
    requires InFamily(name, family) && family[0] == '.'
    ensures EndsWith(Labels(name), Labels(family[1..]))
  {
    var apex := family[1..];
    if name != apex {
      var front := name[..|name| - |family|];
      assert name == front + ['.'] + apex;
      SplitAppend(front, '.', apex);
    }
  }

  lemma UnderIsInside(name: string, family: string)
    requires |family| >= 2 && family[0] == '.' && EndsWith(Labels(name), Labels(family[1..]))
    ensures InFamily(name, family)
  {
    var apex := family[1..];
    var front := Labels(name)[..|Labels(name)| - |Labels(apex)|];
    JoinSplit(name, '.');
    JoinSplit(apex, '.');
    assert Labels(name) == front + Labels(apex);
    if front != [] {
      JoinAppend(front, '.', Labels(apex));
      assert name == Join(front, '.') + family;
    }
  }

  /** For a well-formed family the comparison is exactly the label test. */
  lemma InFamilyExactly(host: string, family: string)
    requires WellFormed(family)
    ensures InFamily(Lower(host), family) <==> UnderFamily(host, family)
  {
    if |family| < 2 {
      ShortIsMalformed(family);
    }
    if InFamily(Lower(host), family) {
      InsideIsUnder(Lower(host), family);
    }
    if UnderFamily(host, family) {
      UnderIsInside(Lower(host), family);
    }
  }

  // ---- Patterns ----

  /** A pattern with a leading dot matches every name below it, any other matches one name. */
  predicate Matches(host: string, pattern: string) {
    var h, p := Lower(host), Lower(pattern);
    p != "" && (if p[0] == '.' then |h| > |p| && h[|h| - |p|..] == p else h == p)
  }

  /**
   By labels: ".x" covers the names whose last labels are those of x and that have more in front of them
   than a dot; any other pattern but the empty one covers the one name it spells. Case does not count.
   */
  predicate Covers(pattern: string, host: string) {
    pattern != "" &&
    if pattern[0] == '.' then
      |host| > |pattern| && EndsWith(Labels(Lower(host)), Labels(Lower(pattern[1..])))
    else Lower(host) == Lower(pattern)
  }

  lemma EndsUnder(front: string, word: string)
    ensures EndsWith(Labels(front + "." + word), Labels(word))
  {
    SplitAppend(front, '.', word);
  }

  lemma UnderEnds(name: string, word: string)
    requires |name| > |word| && EndsWith(Labels(name), Labels(word))
    ensures name[|name| - |word| - 1..] == "." + word
  {
    var front := Labels(name)[..|Labels(name)| - |Labels(word)|];
    JoinSplit(name, '.');
    JoinSplit(word, '.');
    assert Labels(name) == front + Labels(word);
    if front == [] {
      assert false;
    }
    JoinAppend(front, '.', Labels(word));
    TailAfter(Join(front, '.'), word, name);
  }

  lemma TailAfter(front: string, word: string, name: string)
    requires name == front + ['.'] + word
    ensures name[|name| - |word| - 1..] == "." + word
  {
  }

  lemma DottedExactly(h: string, p: string, word: string)
    requires p == "." + word
    ensures |h| > |p| && h[|h| - |p|..] == p <==> |h| > |p| && EndsWith(Labels(h), Labels(word))
  {
    if |h| > |p| && EndsWith(Labels(h), Labels(word)) {
      UnderEnds(h, word);
    }
    if |h| > |p| && h[|h| - |p|..] == p {
      EndsUnder(h[..|h| - |p|], word);
      assert h == h[..|h| - |p|] + "." + word;
    }
  }

  /** What a pattern matches, by labels. */
  lemma MatchesExactly(host: string, pattern: string)
    ensures Matches(host, pattern) <==> Covers(pattern, host)
  {
    if pattern != "" && pattern[0] == '.' {
      assert Lower(pattern) == "." + Lower(pattern[1..]);
      DottedExactly(Lower(host), Lower(pattern), Lower(pattern[1..]));
    }
  }

  /** A family's own name never starts with a dot: its first word is not empty. */
  lemma ApexHasNoDot(family: string)
    requires WellFormed(family)
    ensures |family| >= 2 && family[1] != '.'
  {
    var apex := family[1..];
    var k := Find(apex, '.');
    SplitFirst(apex, '.', k);
    assert Labels(apex)[0] == apex[..k];
    assert LabelWellFormed(apex[..k]);
  }

  /** A pattern inside a family matches nothing outside it. */
  lemma MatchesStayInside(host: string, pattern: string, family: string)
    requires Matches(host, pattern) && InFamily(Lower(pattern), family) && WellFormed(family)
    ensures InFamily(Lower(host), family)
  {
    var h, p := Lower(host), Lower(pattern);
    ApexHasNoDot(family);
  }
}
