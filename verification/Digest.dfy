/**
 When the player is told that the redirects changed: EffectiveDigest and ShouldAnnounce of
 network_ceiling.cpp. SHA-256 is any function of the text hashed here.
 */
module Digest {
  import opened Basics
  import opened Families
  import opened Profiles
  import opened Sorting
  import Words

  // ---- The text that is hashed ----

  function FamilyEntry(name: string): string {
    "family:" + Lower(name)
  }

  function ExactEntry(name: string): string {
    "exact:" + Lower(name)
  }

  function OverrideEntry(o: (string, string)): string {
    "override:" + (Lower(o.0) + "=" + o.1)
  }

  function AddressEntry(address: string): string {
    "address:" + address
  }

  function ServiceEntry(s: Service): string {
    "service:" + (s.id + "=" + s.url)
  }

  function Mapped<T, U>(f: T -> U, s: seq<T>): (r: seq<U>)
    ensures |r| == |s| && forall i :: 0 <= i < |s| ==> r[i] == f(s[i])
  {
    seq(|s|, i requires 0 <= i < |s| => f(s[i]))
  }

  /** The entries of a profile, in the order they are collected. */
  function Entries(p: Profile): seq<string> {
    Mapped(FamilyEntry, p.suffixes) + Mapped(ExactEntry, p.exact) + Mapped(OverrideEntry, p.overrides) +
    (if p.serverAddress == "" then [] else [AddressEntry(p.serverAddress)]) + Mapped(ServiceEntry, p.services)
  }

  function Lines(entries: seq<string>): string {
    if entries == [] then "" else entries[0] + ['\n'] + Lines(entries[1..])
  }

  lemma {:induction false} LinesGrow(entries: seq<string>, last: string)
    ensures Lines(entries + [last]) == Lines(entries) + (last + ['\n'])
  {
    if entries == [] {
      assert Lines([last][1..]) == "";
    } else {
      LinesGrow(entries[1..], last);
      assert (entries + [last])[1..] == entries[1..] + [last];
      Assoc(entries[0] + ['\n'], Lines(entries[1..]), last + ['\n']);
    }
  }

  /** What EffectiveDigest hashes. */
  function DigestText(p: Profile): string {
    Lines(Canonical(TextLess, Entries(p)))
  }

  method Collect<T>(entries: seq<string>, entry: T -> string, items: seq<T>) returns (all: seq<string>)
    ensures all == entries + Mapped(entry, items)
  {
    all := entries;
    for i := 0 to |items|
      invariant all == entries + Mapped(entry, items[..i])
    {
      assert Mapped(entry, items[..i + 1]) == Mapped(entry, items[..i]) + [entry(items[i])];
      all := all + [entry(items[i])];
    }
    assert items[..|items|] == items;
  }

  method CollectEntries(p: Profile) returns (entries: seq<string>)
    ensures entries == Entries(p)
  {
    entries := Collect([], FamilyEntry, p.suffixes);
    assert entries == Mapped(FamilyEntry, p.suffixes);
    entries := Collect(entries, ExactEntry, p.exact);
    entries := Collect(entries, OverrideEntry, p.overrides);
    if p.serverAddress != "" {
      entries := entries + [AddressEntry(p.serverAddress)];
    } else {
      assert entries + [] == entries;
    }
    entries := Collect(entries, ServiceEntry, p.services);
  }

  method EffectiveText(p: Profile) returns (joined: string)
    ensures joined == DigestText(p)
  {
    var entries := CollectEntries(p);
    entries := Unique(Sort(TextLess, entries));
    joined := "";
    for i := 0 to |entries|
      invariant joined == Lines(entries[..i])
    {
      assert entries[..i + 1] == entries[..i] + [entries[i]];
      LinesGrow(entries[..i], entries[i]);
      joined := joined + (entries[i] + ['\n']);
    }
    assert entries[..|entries|] == entries;
  }

  predicate OneLine(s: string) {
    '\n' !in s
  }

  lemma {:induction false} LinesSplit(entries: seq<string>)
    requires forall i :: 0 <= i < |entries| ==> OneLine(entries[i])
    ensures Words.Split(Lines(entries), '\n') == entries + [""]
  {
    if entries != [] {
      LinesSplit(entries[1..]);
      Words.SplitAppend(entries[0], '\n', Lines(entries[1..]));
      Words.SplitWord(entries[0], '\n');
      assert entries + [""] == [entries[0]] + (entries[1..] + [""]);
    }
  }

  predicate OneLineEach(p: Profile) {
    forall e :: e in Entries(p) ==> OneLine(e)
  }

  /** Whatever the order and the repeats: the hashed text is the same exactly when the entries are. */
  lemma SameTextExactly(p: Profile, q: Profile)
    requires OneLineEach(p) && OneLineEach(q)
    ensures DigestText(p) == DigestText(q) <==> forall e :: e in Entries(p) <==> e in Entries(q)
  {
    TextLessIsStrict();
    CanonicalExactly(TextLess, Entries(p), Entries(q));
    var a, b := Canonical(TextLess, Entries(p)), Canonical(TextLess, Entries(q));
    CanonicalAscends(TextLess, Entries(p));
    CanonicalAscends(TextLess, Entries(q));
    assert forall i :: 0 <= i < |a| ==> a[i] in a;
    assert forall i :: 0 <= i < |b| ==> b[i] in b;
    LinesSplit(a);
    LinesSplit(b);
    if Lines(a) == Lines(b) {
      assert a == (a + [""])[..|a|] == b;
    }
  }

  // ---- What the entries say ----

  /** Override names and service ids must not hold the '=' that ends them in an entry. */
  predicate Unambiguous(p: Profile) {
    && (forall i :: 0 <= i < |p.overrides| ==> '=' !in p.overrides[i].0)
    && (forall i :: 0 <= i < |p.services| ==> '=' !in p.services[i].id)
  }

  predicate Covers(names: seq<string>, name: string) {
    exists i :: 0 <= i < |names| && Lower(names[i]) == Lower(name)
  }

  predicate CoversOverride(overrides: seq<(string, string)>, o: (string, string)) {
    exists i :: 0 <= i < |overrides| && Lower(overrides[i].0) == Lower(o.0) && overrides[i].1 == o.1
  }

  ghost predicate SameRedirects(p: Profile, q: Profile) {
    && (forall x: string :: Covers(p.suffixes, x) <==> Covers(q.suffixes, x))
    && (forall x: string :: Covers(p.exact, x) <==> Covers(q.exact, x))
    && (forall o: (string, string) :: CoversOverride(p.overrides, o) <==> CoversOverride(q.overrides, o))
    && p.serverAddress == q.serverAddress
    && (forall s: Service :: s in p.services <==> s in q.services)
  }

  lemma TailsDiffer(tag: string, a: string, b: string)
    requires tag + a == tag + b
    ensures a == b
  {
    Cuts(tag, a);
    Cuts(tag, b);
  }

  lemma PairsDiffer(a: string, b: string, c: string, d: string)
    requires '=' !in a && '=' !in c && a + "=" + b == c + "=" + d
    ensures a == c && b == d
  {
    EqualsAt(a, b);
    EqualsAt(c, d);
    Cuts(a, "=" + b);
    Cuts(c, "=" + d);
    Assoc(a, "=", b);
    Assoc(c, "=", d);
    TailsDiffer("=", b, d);
  }

  lemma EqualsAt(a: string, b: string)
    requires '=' !in a
    ensures Words.Find(a + "=" + b, '=') == |a|
  {
    var s := a + "=" + b;
    var k := Words.Find(s, '=');
    assert forall i :: 0 <= i < |a| ==> s[i] == a[i];
    assert s[|a|] == '=';
    forall i | 0 <= i < k ensures s[i] != '=' {
      assert s[..k][i] == s[i];
    }
  }

  lemma LowerKeepsEquals(name: string)
    requires '=' !in name
    ensures '=' !in Lower(name)
  {
  }

  lemma Tags(p: Profile, e: string)
    ensures e in Mapped(FamilyEntry, p.suffixes) ==> e != "" && e[0] == 'f'
    ensures e in Mapped(ExactEntry, p.exact) ==> e != "" && e[0] == 'e'
    ensures e in Mapped(OverrideEntry, p.overrides) ==> e != "" && e[0] == 'o'
    ensures e in Mapped(ServiceEntry, p.services) ==> e != "" && e[0] == 's'
    ensures e == AddressEntry(p.serverAddress) ==> e != "" && e[0] == 'a'
    ensures e in Entries(p) <==>
            e in Mapped(FamilyEntry, p.suffixes) || e in Mapped(ExactEntry, p.exact) ||
            e in Mapped(OverrideEntry, p.overrides) || (p.serverAddress != "" && e == AddressEntry(p.serverAddress)) ||
            e in Mapped(ServiceEntry, p.services)
  {
  }

  lemma FamilyPart(p: Profile, x: string)
    ensures FamilyEntry(x) in Entries(p) <==> Covers(p.suffixes, x)
  {
    Tags(p, FamilyEntry(x));
    assert FamilyEntry(x)[0] == 'f';
    if FamilyEntry(x) in Entries(p) {
      var mapped := Mapped(FamilyEntry, p.suffixes);
      var i :| 0 <= i < |mapped| && mapped[i] == FamilyEntry(x);
      TailsDiffer("family:", Lower(x), Lower(p.suffixes[i]));
    }
    if Covers(p.suffixes, x) {
      var i :| 0 <= i < |p.suffixes| && Lower(p.suffixes[i]) == Lower(x);
      assert Mapped(FamilyEntry, p.suffixes)[i] == FamilyEntry(x);
    }
  }

  lemma ExactPart(p: Profile, x: string)
    ensures ExactEntry(x) in Entries(p) <==> Covers(p.exact, x)
  {
    Tags(p, ExactEntry(x));
    assert ExactEntry(x)[0] == 'e';
    if ExactEntry(x) in Entries(p) {
      var mapped := Mapped(ExactEntry, p.exact);
      var i :| 0 <= i < |mapped| && mapped[i] == ExactEntry(x);
      TailsDiffer("exact:", Lower(x), Lower(p.exact[i]));
    }
    if Covers(p.exact, x) {
      var i :| 0 <= i < |p.exact| && Lower(p.exact[i]) == Lower(x);
      assert Mapped(ExactEntry, p.exact)[i] == ExactEntry(x);
    }
  }

  lemma OverridePart(p: Profile, o: (string, string))
    requires Unambiguous(p) && '=' !in o.0
    ensures OverrideEntry(o) in Entries(p) <==> CoversOverride(p.overrides, o)
  {
    Tags(p, OverrideEntry(o));
    assert OverrideEntry(o)[0] == 'o';
    if OverrideEntry(o) in Entries(p) {
      var mapped := Mapped(OverrideEntry, p.overrides);
      var i :| 0 <= i < |mapped| && mapped[i] == OverrideEntry(o);
      TailsDiffer("override:", Lower(o.0) + "=" + o.1, Lower(p.overrides[i].0) + "=" + p.overrides[i].1);
      LowerKeepsEquals(o.0);
      LowerKeepsEquals(p.overrides[i].0);
      PairsDiffer(Lower(o.0), o.1, Lower(p.overrides[i].0), p.overrides[i].1);
    }
    if CoversOverride(p.overrides, o) {
      var i :| 0 <= i < |p.overrides| && Lower(p.overrides[i].0) == Lower(o.0) && p.overrides[i].1 == o.1;
      assert Mapped(OverrideEntry, p.overrides)[i] == OverrideEntry(o);
    }
  }

  lemma AddressPart(p: Profile, address: string)
    requires address != ""
    ensures AddressEntry(address) in Entries(p) <==> p.serverAddress == address
  {
    Tags(p, AddressEntry(address));
    assert AddressEntry(address)[0] == 'a';
    if AddressEntry(address) in Entries(p) {
      TailsDiffer("address:", address, p.serverAddress);
    }
  }

  lemma ServicePart(p: Profile, s: Service)
    requires Unambiguous(p) && '=' !in s.id
    ensures ServiceEntry(s) in Entries(p) <==> s in p.services
  {
    Tags(p, ServiceEntry(s));
    assert ServiceEntry(s)[0] == 's';
    if ServiceEntry(s) in Entries(p) {
      var mapped := Mapped(ServiceEntry, p.services);
      var i :| 0 <= i < |mapped| && mapped[i] == ServiceEntry(s);
      TailsDiffer("service:", s.id + "=" + s.url, p.services[i].id + "=" + p.services[i].url);
      PairsDiffer(s.id, s.url, p.services[i].id, p.services[i].url);
    }
    if s in p.services {
      var i :| 0 <= i < |p.services| && p.services[i] == s;
      assert Mapped(ServiceEntry, p.services)[i] == ServiceEntry(s);
    }
  }

  lemma EntriesSayRedirects(p: Profile, q: Profile)
    requires Unambiguous(p) && Unambiguous(q) && forall e :: e in Entries(p) <==> e in Entries(q)
    ensures SameRedirects(p, q)
  {
    forall x: string ensures Covers(p.suffixes, x) <==> Covers(q.suffixes, x) {
      FamilyPart(p, x);
      FamilyPart(q, x);
    }
    forall x: string ensures Covers(p.exact, x) <==> Covers(q.exact, x) {
      ExactPart(p, x);
      ExactPart(q, x);
    }
    SameOverrides(p, q);
    SameOverrides(q, p);
    if p.serverAddress != "" {
      AddressPart(p, p.serverAddress);
      AddressPart(q, p.serverAddress);
    } else if q.serverAddress != "" {
      AddressPart(p, q.serverAddress);
      AddressPart(q, q.serverAddress);
    }
    SameServices(p, q);
    SameServices(q, p);
  }

  lemma RedirectsSayEntries(p: Profile, q: Profile)
    requires Unambiguous(p) && Unambiguous(q) && SameRedirects(p, q)
    ensures forall e :: e in Entries(p) ==> e in Entries(q)
  {
    forall e | e in Entries(p) ensures e in Entries(q) {
      Tags(p, e);
      if e in Mapped(FamilyEntry, p.suffixes) {
        var mapped := Mapped(FamilyEntry, p.suffixes);
        var i :| 0 <= i < |mapped| && mapped[i] == e;
        assert Covers(p.suffixes, p.suffixes[i]);
        FamilyPart(q, p.suffixes[i]);
      } else if e in Mapped(ExactEntry, p.exact) {
        var mapped := Mapped(ExactEntry, p.exact);
        var i :| 0 <= i < |mapped| && mapped[i] == e;
        assert Covers(p.exact, p.exact[i]);
        ExactPart(q, p.exact[i]);
      } else if e in Mapped(OverrideEntry, p.overrides) {
        var mapped := Mapped(OverrideEntry, p.overrides);
        var i :| 0 <= i < |mapped| && mapped[i] == e;
        assert CoversOverride(p.overrides, p.overrides[i]);
        OverridePart(q, p.overrides[i]);
      } else if e in Mapped(ServiceEntry, p.services) {
        var mapped := Mapped(ServiceEntry, p.services);
        var i :| 0 <= i < |mapped| && mapped[i] == e;
        ServicePart(q, p.services[i]);
      } else {
        AddressPart(q, p.serverAddress);
      }
    }
  }

  /** Equal texts are equal redirects: same families, names, overrides, address and services. */
  lemma SameTextSameRedirects(p: Profile, q: Profile)
    requires OneLineEach(p) && OneLineEach(q) && Unambiguous(p) && Unambiguous(q)
    ensures DigestText(p) == DigestText(q) <==> SameRedirects(p, q)
  {
    SameTextExactly(p, q);
    if DigestText(p) == DigestText(q) {
      EntriesSayRedirects(p, q);
    }
    if SameRedirects(p, q) {
      RedirectsSayEntries(p, q);
      RedirectsSayEntries(q, p);
    }
  }

  lemma SameOverrides(p: Profile, q: Profile)
    requires Unambiguous(p) && Unambiguous(q) && forall e :: e in Entries(p) <==> e in Entries(q)
    ensures forall o: (string, string) :: CoversOverride(p.overrides, o) ==> CoversOverride(q.overrides, o)
  {
    forall o: (string, string) | CoversOverride(p.overrides, o) ensures CoversOverride(q.overrides, o) {
      var i :| 0 <= i < |p.overrides| && Lower(p.overrides[i].0) == Lower(o.0) && p.overrides[i].1 == o.1;
      OverridePart(p, p.overrides[i]);
      OverridePart(q, p.overrides[i]);
    }
  }

  lemma SameServices(p: Profile, q: Profile)
    requires Unambiguous(p) && Unambiguous(q) && forall e :: e in Entries(p) <==> e in Entries(q)
    ensures forall s: Service :: s in p.services ==> s in q.services
  {
    forall s: Service | s in p.services ensures s in q.services {
      ServicePart(p, s);
      ServicePart(q, s);
    }
  }

  // ---- Same digest, same answers ----

  predicate OneAddress(host: string, overrides: seq<(string, string)>) {
    forall i, j :: 0 <= i < |overrides| && 0 <= j < |overrides| &&
                   Matches(host, overrides[i].0) && Matches(host, overrides[j].0)
                   ==> overrides[i].1 == overrides[j].1
  }

  lemma SamePatterns(host: string, s: seq<string>, t: seq<string>)
    requires forall x: string :: Covers(s, x) ==> Covers(t, x)
    ensures AnyMatches(host, s) ==> AnyMatches(host, t)
  {
    if AnyMatches(host, s) {
      var i :| 0 <= i < |s| && Matches(host, s[i]);
      assert Covers(s, s[i]);
      var j :| 0 <= j < |t| && Lower(t[j]) == Lower(s[i]);
      assert Matches(host, t[j]);
    }
  }

  lemma {:induction false} FirstMatches(host: string, overrides: seq<(string, string)>)
    requires FirstOverride(host, overrides).Some?
    ensures exists i :: 0 <= i < |overrides| && Matches(host, overrides[i].0) &&
                        Some(overrides[i].1) == FirstOverride(host, overrides)
  {
    if !Matches(host, overrides[0].0) {
      FirstMatches(host, overrides[1..]);
      var i :| 0 <= i < |overrides| - 1 && Matches(host, overrides[1..][i].0) &&
               Some(overrides[1..][i].1) == FirstOverride(host, overrides[1..]);
      assert overrides[1..][i] == overrides[i + 1];
    }
  }

  lemma OverrideFound(host: string, s: seq<(string, string)>, t: seq<(string, string)>) returns (k: nat)
    requires forall o: (string, string) :: CoversOverride(s, o) ==> CoversOverride(t, o)
    requires FirstOverride(host, s).Some?
    ensures k < |t| && Matches(host, t[k].0) && FirstOverride(host, s) == Some(t[k].1)
  {
    FirstMatches(host, s);
    var i :| 0 <= i < |s| && Matches(host, s[i].0) && Some(s[i].1) == FirstOverride(host, s);
    assert CoversOverride(s, s[i]);
    k :| 0 <= k < |t| && Lower(t[k].0) == Lower(s[i].0) && t[k].1 == s[i].1;
  }

  /** The answer if no name were exempt. */
  function Unexempt(p: Profile, host: string, serverAddress: string): Option<string> {
    Answer(p.(never := []), host, serverAddress)
  }

  lemma ExemptOrNot(p: Profile, host: string, serverAddress: string)
    ensures Answer(p, host, serverAddress) ==
            if AnyMatches(host, p.never) then None else Unexempt(p, host, serverAddress)
  {
  }

  lemma SameUnexempt(p: Profile, q: Profile, host: string, serverAddress: string)
    requires SameRedirects(p, q)
    ensures Unexempt(p, host, serverAddress) == None <==> Unexempt(q, host, serverAddress) == None
    ensures Unexempt(q, host, serverAddress) != None ==>
              (Unexempt(p, host, serverAddress) == Unexempt(q, host, serverAddress) <==>
               FirstOverride(host, p.overrides) == FirstOverride(host, q.overrides))
  {
    SamePatterns(host, p.exact, q.exact);
    SamePatterns(host, q.exact, p.exact);
    SamePatterns(host, p.suffixes, q.suffixes);
    SamePatterns(host, q.suffixes, p.suffixes);
    if FirstOverride(host, p.overrides).Some? {
      var k := OverrideFound(host, p.overrides, q.overrides);
    } else if FirstOverride(host, q.overrides).Some? {
      var k := OverrideFound(host, q.overrides, p.overrides);
    }
  }

  /**
   Two profiles of one digest answer a host alike exactly when neither would redirect it, both exempt
   it, or they agree on exempting it and on the first override that matches it.
   */
  lemma SameDigestSameAnswers(p: Profile, q: Profile, host: string, serverAddress: string)
    requires OneLineEach(p) && OneLineEach(q) && Unambiguous(p) && Unambiguous(q)
    requires DigestText(p) == DigestText(q)
    ensures Answer(p, host, serverAddress) == Answer(q, host, serverAddress) <==>
            Unexempt(q, host, serverAddress) == None ||
            (AnyMatches(host, p.never) && AnyMatches(host, q.never)) ||
            (!AnyMatches(host, p.never) && !AnyMatches(host, q.never) &&
             FirstOverride(host, p.overrides) == FirstOverride(host, q.overrides))
  {
    SameTextSameRedirects(p, q);
    SameUnexempt(p, q, host, serverAddress);
    ExemptOrNot(p, host, serverAddress);
    ExemptOrNot(q, host, serverAddress);
  }

  /** Where no host has two override addresses, only the exempt names can make the difference. */
  lemma OneAddressSameAnswers(p: Profile, q: Profile, host: string, serverAddress: string)
    requires OneLineEach(p) && OneLineEach(q) && Unambiguous(p) && Unambiguous(q)
    requires DigestText(p) == DigestText(q) && OneAddress(host, q.overrides)
    ensures Answer(p, host, serverAddress) == Answer(q, host, serverAddress) <==>
            Unexempt(q, host, serverAddress) == None || (AnyMatches(host, p.never) <==> AnyMatches(host, q.never))
  {
    SameDigestSameAnswers(p, q, host, serverAddress);
    SameTextSameRedirects(p, q);
    if FirstOverride(host, p.overrides).Some? {
      var k := OverrideFound(host, p.overrides, q.overrides);
      FirstMatches(host, q.overrides);
    } else if FirstOverride(host, q.overrides).Some? {
      var k := OverrideFound(host, q.overrides, p.overrides);
    }
  }

  /** Nor is the order of overrides: the first of two spellings of one name wins, and they may swap. */
  lemma OverrideOrderIsNotDigested(name: string, other: string, x: string, y: string, serverAddress: string)
    requires name != "" && name[0] != '.' && Lower(name) == Lower(other) && x != y
    ensures var p := Profile("", "", "", [], [], [], [(name, x), (other, y)], []);
            var q := p.(overrides := [(name, y), (other, x)]);
            DigestText(p) == DigestText(q) &&
            Answer(p, name, serverAddress) == Some(x) && Answer(q, name, serverAddress) == Some(y)
  {
    var p := Profile("", "", "", [], [], [], [(name, x), (other, y)], []);
    var q := p.(overrides := [(name, y), (other, x)]);
    assert OverrideEntry((name, x)) == OverrideEntry((other, x));
    assert OverrideEntry((name, y)) == OverrideEntry((other, y));
    assert Entries(p) == [OverrideEntry((name, x)), OverrideEntry((name, y))];
    assert Entries(q) == [OverrideEntry((name, y)), OverrideEntry((name, x))];
    TextLessIsStrict();
    CanonicalExactly(TextLess, Entries(p), Entries(q));
    assert Matches(name, name);
  }

  /** The exempt names are not in the digest: two profiles with one digest that answer differently. */
  lemma ExemptNamesAreNotDigested(host: string, serverAddress: string)
    requires host != "" && host[0] != '.'
    ensures var p := Profile("", "", "", [], [host], [], [], []);
            var q := p.(never := [host]);
            DigestText(p) == DigestText(q) &&
            Answer(p, host, serverAddress) == Some(serverAddress) && Answer(q, host, serverAddress) == None
  {
    var p := Profile("", "", "", [], [host], [], [], []);
    var q := p.(never := [host]);
    assert Entries(p) == Entries(q);
    assert Matches(host, p.exact[0]) && Matches(host, q.never[0]);
  }

  // ---- The notice ----

  class Watch {
    var inUse: string
    var announced: string

    constructor ()
      ensures inUse == "" && announced == ""
    {
      inUse, announced := "", "";
    }

    method SetDigestInUse(digest: string)
      modifies this`inUse
      ensures inUse == digest
    {
      inUse := digest;
    }

    method ShouldAnnounce(digest: string) returns (news: bool)
      modifies this`announced
      ensures (inUse, announced, news) == Noticed(old(inUse), old(announced), digest)
    {
      if inUse == "" || digest == inUse || digest == announced {
        return false;
      }
      announced := digest;
      return true;
    }
  }

  /** The state after a look at a digest, and whether it is announced. */
  function Noticed(inUse: string, announced: string, digest: string): (string, string, bool) {
    if inUse == "" || digest == inUse || digest == announced then (inUse, announced, false)
    else (inUse, digest, true)
  }

  datatype Event = InUse(digest: string) | Seen(digest: string)

  datatype Notices = Notices(inUse: string, announced: string, told: seq<string>)

  /** A run from the start of the process; `told` lists what was announced. */
  function Run(events: seq<Event>): Notices {
    if events == [] then Notices("", "", [])
    else
      var n := Run(events[..|events| - 1]);
      match events[|events| - 1]
      case InUse(digest) => n.(inUse := digest)
      case Seen(digest) =>
        var (inUse, announced, news) := Noticed(n.inUse, n.announced, digest);
        Notices(inUse, announced, if news then n.told + [digest] else n.told)
  }

  /** The digests seen while another one was in use. */
  function Different(events: seq<Event>): seq<string> {
    if events == [] then []
    else
      var n, before := Run(events[..|events| - 1]), Different(events[..|events| - 1]);
      match events[|events| - 1]
      case InUse(_) => before
      case Seen(digest) => if n.inUse == "" || digest == n.inUse then before else before + [digest]
  }

  predicate Hashes(events: seq<Event>) {
    forall i :: 0 <= i < |events| ==> events[i].digest != ""
  }

  /** What is announced is what was seen, one for each stretch of equal digests. */
  lemma {:induction false} ToldIsDeduplicated(events: seq<Event>)
    requires Hashes(events)
    ensures Run(events).told == Deduplicated(Different(events))
    ensures var seen := Different(events);
            Run(events).announced == if seen == [] then "" else seen[|seen| - 1]
  {
    if events != [] {
      var before := events[..|events| - 1];
      ToldIsDeduplicated(before);
      var seen := Different(events);
      if seen != Different(before) {
        assert seen[..|seen| - 1] == Different(before);
      }
    }
  }

  /** Nothing comes back after something else was seen. */
  predicate NothingReturns<T(==)>(s: seq<T>) {
    forall i, j, k :: 0 <= i < j < k < |s| && s[i] == s[k] ==> s[j] == s[i]
  }

  lemma {:induction false} DeduplicatedKeeps<T>(s: seq<T>)
    ensures forall y :: y in Deduplicated(s) <==> y in s
  {
    if s != [] {
      DeduplicatedKeeps(s[..|s| - 1]);
      assert s == s[..|s| - 1] + [s[|s| - 1]];
    }
  }

  lemma {:induction false} NoRepeatsExactly<T>(s: seq<T>)
    ensures NoRepeats(Deduplicated(s)) <==> NothingReturns(s)
  {
    if s != [] {
      var before, last := s[..|s| - 1], s[|s| - 1];
      NoRepeatsExactly(before);
      DeduplicatedKeeps(before);
      assert NothingReturns(s) ==> NothingReturns(before);
      if |s| > 1 && s[|s| - 2] == last {
        if NothingReturns(before) {
          StillNothingReturns(s);
        }
      } else {
        NewLast(s);
        var kept := Deduplicated(before);
        NoRepeatsAppend(kept, last);
      }
    }
  }

  lemma NoRepeatsAppend<T>(s: seq<T>, x: T)
    ensures NoRepeats(s + [x]) <==> NoRepeats(s) && x !in s
  {
    var t := s + [x];
    if NoRepeats(t) {
      forall i | 0 <= i < |s| ensures s[i] != x {
        assert t[i] != t[|s|];
      }
      forall i, j | 0 <= i < j < |s| ensures s[i] != s[j] {
        assert t[i] != t[j];
      }
    }
  }

  lemma StillNothingReturns<T>(s: seq<T>)
    requires |s| > 1 && s[|s| - 2] == s[|s| - 1] && NothingReturns(s[..|s| - 1])
    ensures NothingReturns(s)
  {
    var before := s[..|s| - 1];
    forall i, j, k | 0 <= i < j < k < |s| && s[i] == s[k] ensures s[j] == s[i] {
      assert s[i] == before[i] && s[j] == before[j];
      if k == |s| - 1 && j < k - 1 {
        assert before[k - 1] == s[k];
      }
    }
  }

  lemma NewLast<T>(s: seq<T>)
    requires s != [] && (|s| > 1 ==> s[|s| - 2] != s[|s| - 1])
    ensures NothingReturns(s) <==> NothingReturns(s[..|s| - 1]) && s[|s| - 1] !in s[..|s| - 1]
  {
    var before, last := s[..|s| - 1], s[|s| - 1];
    if NothingReturns(s) {
      forall i | 0 <= i < |before| ensures before[i] != last {
        if i < |before| - 1 {
          assert s[|s| - 2] == s[i] || s[i] != s[|s| - 1];
        }
      }
    }
  }

  /** "Once per new digest" holds of a run exactly when no digest comes back after another was seen. */
  lemma OncePerDigestExactly(events: seq<Event>)
    requires Hashes(events)
    ensures NoRepeats(Run(events).told) <==> NothingReturns(Different(events))
  {
    ToldIsDeduplicated(events);
    NoRepeatsExactly(Different(events));
  }

  /** A profile that goes back and forth is announced each time. */
  lemma AnnouncedAgain(u: string, a: string, b: string)
    requires u != "" && a != "" && b != "" && u != a && u != b && a != b
    ensures Run([InUse(u), Seen(a), Seen(b), Seen(a)]).told == [a, b, a]
  {
    var events := [InUse(u), Seen(a), Seen(b), Seen(a)];
    assert events[..3] == [InUse(u), Seen(a), Seen(b)] && events[..3][..2] == [InUse(u), Seen(a)];
    assert events[..3][..2][..1] == [InUse(u)] && events[..3][..2][..1][..0] == [];
    assert Run([InUse(u)]) == Notices(u, "", []);
    assert Run([InUse(u), Seen(a)]) == Notices(u, a, [a]);
  }
}
