/**
 A network profile and what it redirects: FilterToCeiling of network_ceiling.cpp and the answers of
 RedirectFor of network_profile_fetch.cpp. No filtered profile redirects a name outside the families.
 */
module Profiles {
  import opened Basics
  import opened Families
  import Words

  datatype Service = Service(id: string, url: string)

  datatype Profile = Profile(platform: string, serverAddress: string, caUrl: string,
                             suffixes: seq<string>, exact: seq<string>, never: seq<string>,
                             overrides: seq<(string, string)>, services: seq<Service>)

  // ---- The host a service URL names ----

  /** Where "://" first stands; the length when it does not. */
  function SchemeEnd(url: string): (r: nat)
    ensures r <= |url| && (r < |url| ==> r + 3 <= |url| && url[r..r + 3] == "://")
  {
    if |url| < 3 then |url|
    else if url[..3] == "://" then 0
    else
      var r := 1 + SchemeEnd(url[1..]);
      assert r < |url| ==> url[r..r + 3] == url[1..][r - 1..r + 2];
      r
  }

  function FirstOf(s: string, chars: string): (r: nat)
    ensures r <= |s| && forall i :: 0 <= i < r ==> s[i] !in chars
    ensures r < |s| ==> s[r] in chars
  {
    if s == "" || s[0] in chars then 0 else 1 + FirstOf(s[1..], chars)
  }

  /** Up to the last colon; all of it when there is none. */
  function WithoutPort(s: string): (r: string)
    ensures ':' !in s ==> r == s
    ensures ':' in s ==> |r| < |s| && s[..|r|] == r && s[|r|] == ':' && ':' !in s[|r| + 1..]
  {
    if ':' !in s then s
    else if s[|s| - 1] == ':' then s[..|s| - 1]
    else
      assert s == s[..|s| - 1] + [s[|s| - 1]];
      var r := WithoutPort(s[..|s| - 1]);
      assert s[|r| + 1..] == s[..|s| - 1][|r| + 1..] + [s[|s| - 1]];
      r
  }

  function AuthorityHost(authority: string): string {
    if authority == "" || '@' in authority then ""
    else if authority[0] == '[' then
      var close := Words.Find(authority, ']');
      if close == |authority| then "" else Lower(authority[1..close])
    else Lower(WithoutPort(authority))
  }

  /** What a service URL names as its host, "" when that is nothing a family could hold. */
  function ServiceHost(url: string): string {
    var schemeEnd := SchemeEnd(url);
    if schemeEnd == |url| || schemeEnd == 0 then ""
    else
      var rest := url[schemeEnd + 3..];
      AuthorityHost(rest[..FirstOf(rest, "/?#")])
  }

  lemma {:induction false} SchemeEndsThere(scheme: string, rest: string)
    requires ':' !in scheme
    ensures SchemeEnd(scheme + "://" + rest) == |scheme|
  {
    var url := scheme + "://" + rest;
    if scheme == "" {
      assert url[..3] == "://";
    } else {
      SchemeEndsThere(scheme[1..], rest);
      assert url[1..] == scheme[1..] + "://" + rest;
      assert url[0] == scheme[0] && url[..3][0] == scheme[0];
    }
  }

  lemma {:induction false} FirstOfAfter(s: string, chars: string, tail: string)
    requires forall i :: 0 <= i < |s| ==> s[i] !in chars
    requires tail == "" || tail[0] in chars
    ensures FirstOf(s + tail, chars) == |s|
  {
    if s == "" {
      assert s + tail == tail;
    } else {
      assert (s + tail)[1..] == s[1..] + tail;
      FirstOfAfter(s[1..], chars, tail);
    }
  }

  lemma {:induction false} PortGoes(name: string, port: string)
    requires ':' !in port
    ensures WithoutPort(name + ":" + port) == name
  {
    var s := name + ":" + port;
    assert s[|name|] == ':';
    if port != "" {
      assert s[|s| - 1] == port[|port| - 1];
      assert s[..|s| - 1] == name + ":" + port[..|port| - 1];
      PortGoes(name, port[..|port| - 1]);
    }
  }

  lemma AuthorityReads(name: string, port: string, authority: string)
    requires name != "" && name[0] != '[' && ':' !in name && ':' !in port && '@' !in name && '@' !in port
    requires authority == name || authority == name + ":" + port
    ensures AuthorityHost(authority) == Lower(name)
  {
    if authority != name {
      PortGoes(name, port);
    }
  }

  lemma AuthorityIsRead(scheme: string, authority: string, tail: string)
    requires scheme != "" && ':' !in scheme
    requires forall i :: 0 <= i < |authority| ==> authority[i] !in "/?#"
    requires tail == "" || tail[0] in "/?#"
    ensures ServiceHost(scheme + "://" + (authority + tail)) == AuthorityHost(authority)
  {
    var url := scheme + "://" + (authority + tail);
    SchemeEndsThere(scheme, authority + tail);
    assert url[|scheme| + 3..] == authority + tail;
    FirstOfAfter(authority, "/?#", tail);
    Cuts(authority, tail);
  }

  /** A URL put together from its parts gives its host back, whatever the port and the tail. */
  lemma ServiceHostReads(scheme: string, name: string, port: string, authority: string, tail: string)
    requires scheme != "" && ':' !in scheme
    requires name != "" && name[0] != '[' && ':' !in name && ':' !in port && '@' !in name && '@' !in port
    requires authority == name || authority == name + ":" + port
    requires forall i :: 0 <= i < |authority| ==> authority[i] !in "/?#"
    requires tail == "" || tail[0] in "/?#"
    ensures ServiceHost(scheme + "://" + (authority + tail)) == Lower(name)
  {
    AuthorityIsRead(scheme, authority, tail);
    AuthorityReads(name, port, authority);
  }

  lemma BracketEnds(address: string, behind: string, authority: string)
    requires ']' !in address && authority == "[" + address + "]" + behind
    ensures Words.Find(authority, ']') == 1 + |address| && authority[1..1 + |address|] == address
  {
    var close := 1 + |address|;
    assert authority[close] == ']';
    forall i | 0 <= i < close ensures authority[i] != ']' {
      assert i > 0 ==> authority[i] == address[i - 1];
    }
  }

  /** A bracketed host is what the brackets hold, whatever stands behind them. */
  lemma BracketedHostReads(scheme: string, address: string, behind: string, authority: string, tail: string)
    requires scheme != "" && ':' !in scheme && ']' !in address && authority == "[" + address + "]" + behind
    requires forall i :: 0 <= i < |authority| ==> authority[i] !in "/?#@"
    requires tail == "" || tail[0] in "/?#"
    ensures ServiceHost(scheme + "://" + (authority + tail)) == Lower(address)
  {
    AuthorityIsRead(scheme, authority, tail);
    BracketEnds(address, behind, authority);
  }

  /** No scheme, no authority, credentials in it or a bracket left open: no host, and so no family. */
  lemma NoHostReads(url: string, scheme: string, authority: string, tail: string)
    requires url == scheme + "://" + (authority + tail) && ':' !in scheme
    requires forall i :: 0 <= i < |authority| ==> authority[i] !in "/?#"
    requires tail == "" || tail[0] in "/?#"
    requires scheme == "" || authority == "" || '@' in authority || (authority[0] == '[' && ']' !in authority)
    ensures ServiceHost(url) == ""
  {
    SchemeEndsThere(scheme, authority + tail);
    if scheme != "" {
      AuthorityIsRead(scheme, authority, tail);
    }
  }

  predicate MarkAt(url: string, i: int) {
    0 <= i <= |url| - 3 && url[i..i + 3] == "://"
  }

  /** Nor has a text without the mark that ends a scheme. */
  lemma NotAUrlReads(url: string)
    requires forall i :: !MarkAt(url, i)
    ensures ServiceHost(url) == ""
  {
    assert SchemeEnd(url) == |url| by {
      assert !MarkAt(url, SchemeEnd(url));
    }
  }

  // ---- FilterToCeiling ----

  /** The items whose name is inside the families, in order. */
  function Kept<T(==,!new)>(items: seq<T>, name: T -> string, families: seq<string>): (r: seq<T>)
    ensures forall x :: x in r <==> x in items && InFamilies(name(x), families)
  {
    if items == [] then []
    else
      var before, last := Kept(items[..|items| - 1], name, families), items[|items| - 1];
      assert items == items[..|items| - 1] + [last];
      if InFamilies(name(last), families) then before + [last] else before
  }

  function Outside<T(!new)>(items: seq<T>, name: T -> string, families: seq<string>): seq<string> {
    if items == [] then []
    else
      var before, last := Outside(items[..|items| - 1], name, families), items[|items| - 1];
      if InFamilies(name(last), families) then before else before + [name(last)]
  }

  /** Each item is kept or its name reported, never both. */
  lemma {:induction false} KeptOrOutside<T(!new)>(items: seq<T>, name: T -> string, families: seq<string>)
    ensures |Kept(items, name, families)| + |Outside(items, name, families)| == |items|
    ensures forall n :: n in Outside(items, name, families) ==>
              !InFamilies(n, families) && exists x :: x in items && name(x) == n
  {
    if items != [] {
      var before, last := items[..|items| - 1], items[|items| - 1];
      KeptOrOutside(before, name, families);
      assert items == before + [last];
      forall n | n in Outside(items, name, families)
        ensures !InFamilies(n, families) && exists x :: x in items && name(x) == n
      {
        if n in Outside(before, name, families) {
          var x :| x in before && name(x) == n;
          assert x in items;
        } else {
          assert last in items && name(last) == n;
        }
      }
    }
  }

  /** What is kept and what is reported of a list are, in order, those of its items one by one. */
  lemma {:induction false} ErasedOneByOne<T(!new)>(a: seq<T>, b: seq<T>, name: T -> string, families: seq<string>)
    ensures Kept(a + b, name, families) == Kept(a, name, families) + Kept(b, name, families)
    ensures Outside(a + b, name, families) == Outside(a, name, families) + Outside(b, name, families)
  {
    if b == [] {
      assert a + b == a;
    } else {
      var before, last := b[..|b| - 1], b[|b| - 1];
      ErasedOneByOne(a, before, name, families);
      LastOfBoth(a, b);
      if InFamilies(name(last), families) {
        Assoc(Kept(a, name, families), Kept(before, name, families), [last]);
      } else {
        Assoc(Outside(a, name, families), Outside(before, name, families), [name(last)]);
      }
    }
  }

  lemma LastOfBoth<T>(a: seq<T>, b: seq<T>)
    requires b != []
    ensures var all := a + b; all[..|all| - 1] == a + b[..|b| - 1] && all[|all| - 1] == b[|b| - 1]
  {
  }

  /** One item alone is kept or reported. */
  lemma OneErased<T(!new)>(x: T, name: T -> string, families: seq<string>)
    ensures Kept([x], name, families) == (if InFamilies(name(x), families) then [x] else [])
    ensures Outside([x], name, families) == (if InFamilies(name(x), families) then [] else [name(x)])
  {
    assert [x][..0] == [];
  }

  method EraseOutside<T(==,!new)>(items: seq<T>, name: T -> string, families: seq<string>, dropped: seq<string>)
    returns (kept: seq<T>, nowDropped: seq<string>)
    ensures kept == Kept(items, name, families)
    ensures nowDropped == dropped + Outside(items, name, families)
  {
    kept, nowDropped := [], dropped;
    for i := 0 to |items|
      invariant kept == Kept(items[..i], name, families)
      invariant nowDropped == dropped + Outside(items[..i], name, families)
    {
      assert items[..i + 1][..i] == items[..i];
      var inside := NameInFamilies(name(items[i]), families);
      if inside {
        kept := kept + [items[i]];
      } else {
        nowDropped := nowDropped + [name(items[i])];
      }
    }
    assert items[..|items|] == items;
  }

  const WHOLE_NAME: string -> string := (n: string) => n
  const OVERRIDE_NAME: ((string, string)) -> string := (o: (string, string)) => o.0
  const HOST_OF: Service -> string := (s: Service) => ServiceHost(s.url)

  function Filtered(p: Profile, families: seq<string>): Profile {
    p.(suffixes := Kept(p.suffixes, WHOLE_NAME, families), exact := Kept(p.exact, WHOLE_NAME, families),
       overrides := Kept(p.overrides, OVERRIDE_NAME, families), services := Kept(p.services, HOST_OF, families))
  }

  /**
   Filtering takes out of the four lists what is outside the families and touches nothing else of the
   profile; a profile that is inside is left as it is, and so is one filtered before.
   */
  lemma FilteredExactly(p: Profile, families: seq<string>)
    ensures var f := Filtered(p, families);
            (forall s :: s in f.suffixes <==> s in p.suffixes && InFamilies(s, families)) &&
            (forall s :: s in f.exact <==> s in p.exact && InFamilies(s, families)) &&
            (forall o :: o in f.overrides <==> o in p.overrides && InFamilies(o.0, families)) &&
            (forall s :: s in f.services <==> s in p.services && InFamilies(ServiceHost(s.url), families)) &&
            f.(suffixes := p.suffixes, exact := p.exact, overrides := p.overrides, services := p.services) == p &&
            Filtered(f, families) == f
  {
    KeptAll(Kept(p.suffixes, WHOLE_NAME, families), WHOLE_NAME, families);
    KeptAll(Kept(p.exact, WHOLE_NAME, families), WHOLE_NAME, families);
    KeptAll(Kept(p.overrides, OVERRIDE_NAME, families), OVERRIDE_NAME, families);
    KeptAll(Kept(p.services, HOST_OF, families), HOST_OF, families);
  }

  lemma {:induction false} KeptAll<T(!new)>(items: seq<T>, name: T -> string, families: seq<string>)
    requires forall x :: x in items ==> InFamilies(name(x), families)
    ensures Kept(items, name, families) == items
  {
    if items != [] {
      KeptAll(items[..|items| - 1], name, families);
      LastApart(items);
    }
  }

  /** A profile whose lists are erased from in place. */
  class MutableProfile {
    const rest: Profile
    var suffixes: seq<string>
    var exact: seq<string>
    var overrides: seq<(string, string)>
    var services: seq<Service>

    constructor (p: Profile)
      ensures Value() == p
    {
      rest := p;
      suffixes, exact, overrides, services := p.suffixes, p.exact, p.overrides, p.services;
    }

    function Value(): Profile
      reads this
    {
      rest.(suffixes := suffixes, exact := exact, overrides := overrides, services := services)
    }

    method FilterToCeiling(families: seq<string>) returns (dropped: seq<string>)
      modifies this
      ensures Value() == Filtered(old(Value()), families)
      ensures dropped == Dropped(old(Value()), families)
    {
      suffixes, dropped := EraseOutside(suffixes, WHOLE_NAME, families, []);
      assert dropped == Outside(old(suffixes), WHOLE_NAME, families);
      exact, dropped := EraseOutside(exact, WHOLE_NAME, families, dropped);
      overrides, dropped := EraseOutside(overrides, OVERRIDE_NAME, families, dropped);
      services, dropped := EraseOutside(services, HOST_OF, families, dropped);
    }
  }

  /** Every name that goes, list by list. */
  function Dropped(p: Profile, families: seq<string>): seq<string> {
    Outside(p.suffixes, WHOLE_NAME, families) + Outside(p.exact, WHOLE_NAME, families) +
    Outside(p.overrides, OVERRIDE_NAME, families) + Outside(p.services, HOST_OF, families)
  }

  // ---- Which address a name goes to ----

  predicate AnyMatches(host: string, patterns: seq<string>) {
    exists i :: 0 <= i < |patterns| && Matches(host, patterns[i])
  }

  function FirstOverride(host: string, overrides: seq<(string, string)>): (r: Option<string>)
    ensures r.Some? <==> exists i :: 0 <= i < |overrides| && Matches(host, overrides[i].0)
  {
    if overrides == [] then None
    else if Matches(host, overrides[0].0) then Some(overrides[0].1)
    else
      assert forall i :: 0 <= i < |overrides| - 1 ==> overrides[1..][i] == overrides[i + 1];
      FirstOverride(host, overrides[1..])
  }

  /** Never beats an override, an override beats the server, and no match is no redirect. */
  function Answer(p: Profile, host: string, serverAddress: string): Option<string> {
    if AnyMatches(host, p.never) then None
    else if FirstOverride(host, p.overrides).Some? then FirstOverride(host, p.overrides)
    else if AnyMatches(host, p.exact) || AnyMatches(host, p.suffixes) then
      Some(if p.serverAddress == "" then serverAddress else p.serverAddress)
    else None
  }

  /** Some pattern covers the host. */
  predicate Covered(host: string, patterns: seq<string>) {
    exists i :: 0 <= i < |patterns| && Covers(patterns[i], host)
  }

  /** The first override whose name covers the host. */
  predicate Overrides(host: string, overrides: seq<(string, string)>, i: nat) {
    i < |overrides| && Covers(overrides[i].0, host) && forall j :: 0 <= j < i ==> !Covers(overrides[j].0, host)
  }

  predicate Overridden(host: string, overrides: seq<(string, string)>) {
    exists i :: 0 <= i < |overrides| && Covers(overrides[i].0, host)
  }

  lemma CoveredExactly(host: string, patterns: seq<string>)
    ensures AnyMatches(host, patterns) <==> Covered(host, patterns)
  {
    forall i | 0 <= i < |patterns| {
      MatchesExactly(host, patterns[i]);
    }
  }

  lemma {:induction false} FirstOverrideExactly(host: string, overrides: seq<(string, string)>)
    ensures FirstOverride(host, overrides).Some? <==> Overridden(host, overrides)
    ensures forall i: nat :: Overrides(host, overrides, i) ==> FirstOverride(host, overrides) == Some(overrides[i].1)
  {
    if overrides != [] {
      var rest := overrides[1..];
      FirstOverrideExactly(host, rest);
      MatchesExactly(host, overrides[0].0);
      if Overridden(host, rest) {
        var k :| 0 <= k < |rest| && Covers(rest[k].0, host);
        assert Covers(overrides[k + 1].0, host);
      }
      if Overridden(host, overrides) && !Covers(overrides[0].0, host) {
        var k :| 0 <= k < |overrides| && Covers(overrides[k].0, host);
        assert Covers(rest[k - 1].0, host);
      }
      forall i: nat | Overrides(host, overrides, i) && i > 0
        ensures FirstOverride(host, overrides) == Some(overrides[i].1)
      {
        assert Overrides(host, rest, i - 1);
      }
    }
  }

  /** The address a name is answered with, said by labels. */
  ghost predicate Answers(p: Profile, host: string, serverAddress: string, address: Option<string>) {
    && (address.Some? <==>
          !Covered(host, p.never) &&
          (Overridden(host, p.overrides) || Covered(host, p.exact) || Covered(host, p.suffixes)))
    && (address.Some? && Overridden(host, p.overrides) ==>
          exists i: nat :: Overrides(host, p.overrides, i) && address.value == p.overrides[i].1)
    && (address.Some? && !Overridden(host, p.overrides) ==>
          address.value == if p.serverAddress != "" then p.serverAddress else serverAddress)
  }

  lemma {:induction false} SomeIsFirst(host: string, overrides: seq<(string, string)>, k: nat)
    requires k < |overrides| && Covers(overrides[k].0, host)
    ensures exists i: nat :: Overrides(host, overrides, i)
  {
    if j: nat :| j < k && Covers(overrides[j].0, host) {
      SomeIsFirst(host, overrides, j);
    } else {
      assert Overrides(host, overrides, k);
    }
  }

  /**
   A name is redirected exactly when no exempt pattern covers it and an override, an exact name or a suffix
   does; to the address of the first override that covers it, else the profile's, else the caller's.
   */
  lemma AnswersExactly(p: Profile, host: string, serverAddress: string, address: Option<string>)
    ensures Answer(p, host, serverAddress) == address <==> Answers(p, host, serverAddress, address)
  {
    CoveredExactly(host, p.never);
    CoveredExactly(host, p.exact);
    CoveredExactly(host, p.suffixes);
    FirstOverrideExactly(host, p.overrides);
    if Overridden(host, p.overrides) {
      var k :| 0 <= k < |p.overrides| && Covers(p.overrides[k].0, host);
      SomeIsFirst(host, p.overrides, k);
    }
  }

  method MatchesAny(host: string, patterns: seq<string>) returns (matched: bool)
    ensures matched <==> AnyMatches(host, patterns)
  {
    for i := 0 to |patterns|
      invariant forall j :: 0 <= j < i ==> !Matches(host, patterns[j])
    {
      if Matches(host, patterns[i]) {
        return true;
      }
    }
    return false;
  }

  // ---- Inside the ceiling ----

  predicate UnderSome(host: string, families: seq<string>) {
    exists i :: 0 <= i < |families| && UnderFamily(host, families[i])
  }

  /** Every name the profile redirects, and every host its services name, is under a family. */
  ghost predicate Confined(p: Profile, families: seq<string>) {
    && (forall host, serverAddress :: Answer(p, host, serverAddress).Some? ==> UnderSome(host, families))
    && (forall s :: s in p.services ==> UnderSome(HOST_OF(s), families))
  }

  lemma MatchIsUnder(host: string, pattern: string, families: seq<string>)
    requires forall i :: 0 <= i < |families| ==> WellFormed(families[i])
    requires Matches(host, pattern) && InFamilies(pattern, families)
    ensures UnderSome(host, families)
  {
    var i :| 0 <= i < |families| && InFamily(Lower(pattern), families[i]);
    MatchesStayInside(host, pattern, families[i]);
    InFamilyExactly(host, families[i]);
  }

  lemma FilterConfines(p: Profile, families: seq<string>)
    requires forall i :: 0 <= i < |families| ==> WellFormed(families[i])
    ensures Confined(Filtered(p, families), families)
  {
    var f := Filtered(p, families);
    forall host, serverAddress | Answer(f, host, serverAddress).Some? ensures UnderSome(host, families) {
      if FirstOverride(host, f.overrides).Some? {
        var i :| 0 <= i < |f.overrides| && Matches(host, f.overrides[i].0);
        assert f.overrides[i] in f.overrides;
        MatchIsUnder(host, f.overrides[i].0, families);
      } else if AnyMatches(host, f.exact) {
        var i :| 0 <= i < |f.exact| && Matches(host, f.exact[i]);
        assert f.exact[i] in f.exact;
        MatchIsUnder(host, f.exact[i], families);
      } else {
        var i :| 0 <= i < |f.suffixes| && Matches(host, f.suffixes[i]);
        assert f.suffixes[i] in f.suffixes;
        MatchIsUnder(host, f.suffixes[i], families);
      }
    }
    forall s | s in f.services ensures UnderSome(HOST_OF(s), families) {
      var i :| 0 <= i < |families| && InFamily(Lower(HOST_OF(s)), families[i]);
      InFamilyExactly(HOST_OF(s), families[i]);
    }
  }
}
