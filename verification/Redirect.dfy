/**
 Fetching and applying a network profile: BuiltIn, Validate, LoadStored, Finish, Apply and RedirectFor
 of network_profile_fetch.cpp, over the ceiling's own state.

 The profile's JSON, literal addresses and the CA download are foreign: a `Codec` says what a body
 parses to, how a profile is printed and which addresses are usable; a fetch says whether the CA
 matched.
 */
module Redirect {
  import opened Basics
  import opened SignedCeiling
  import opened Families
  import opened Profiles
  import Digest

  datatype Codec = Codec(parse: Bytes -> Option<Profile>, printed: Profile -> Bytes, usable: string -> bool,
                         hash: string -> string)

  datatype Result = Result(source: Source, profile: Profile)

  /** What the server answered: a status and a body. */
  datatype Reply = Reply(status: int, body: Bytes)

  // ---- Which profile is used ----

  predicate Valid(codec: Codec, p: Profile, platform: string) {
    && (platform == "" || p.platform == "" || p.platform == platform)
    && codec.usable(p.serverAddress)
    && forall i :: 0 <= i < |p.overrides| ==> codec.usable(p.overrides[i].1)
  }

  const SWITCH_SUFFIXES: seq<string> := [
    ".nintendo.net", ".nintendo.com", ".nintendo.co.jp", ".nintendowifi.net", ".nintendo-europe.com"]
  const OTHER_SUFFIXES: seq<string> := [".nintendowifi.net", ".gamespy.com", ".nintendo.net", ".openpak.org"]

  function Default(platform: string): Profile {
    Profile(platform, "", "", if platform == "switch" then SWITCH_SUFFIXES else OTHER_SUFFIXES, [], [], [], [])
  }

  /** The stored body when it parses and validates, names not yet filtered. */
  function Usable(codec: Codec, stored: Option<Bytes>, platform: string): Option<Profile> {
    if stored.None? || stored.value == [] then None
    else
      match codec.parse(stored.value)
      case None => None
      case Some(p) => if Valid(codec, p, platform) then Some(p) else None
  }

  /** The profile a reply brings, if it is accepted. */
  function Accepted(codec: Codec, reply: Option<Reply>, platform: string, caMatches: bool): Option<Profile> {
    if reply.None? || reply.value.status != 200 then None
    else
      match codec.parse(reply.value.body)
      case None => None
      case Some(p) => if Valid(codec, p, platform) && (p.caUrl == "" || caMatches) then Some(p) else None
  }

  /** Fetched beats stored, stored beats built in; each one filtered. */
  function Finished(codec: Codec, platform: string, stored: Option<Bytes>, families: seq<string>,
                    reply: Option<Reply>, caMatches: bool): Result
  {
    match Accepted(codec, reply, platform, caMatches)
    case Some(p) => Result(Fetched, Filtered(p, families))
    case None =>
      match Usable(codec, stored, platform)
      case Some(p) => Result(Cached, Filtered(p, families))
      case None => Result(BuiltIn, Filtered(Default(platform), families))
  }

  function StoredAfter(codec: Codec, platform: string, stored: Option<Bytes>, reply: Option<Reply>,
                       caMatches: bool, stores: bool): Option<Bytes>
  {
    var accepted := Accepted(codec, reply, platform, caMatches);
    if accepted.Some? && stores then Some(codec.printed(accepted.value)) else stored
  }

  // ---- The code ----

  class NetworkProfile {
    const codec: Codec
    const ceilings: CeilingStore
    const watch: Digest.Watch
    var stored: Option<Bytes>
    var applied: Option<Result>

    constructor (codec: Codec, ceilings: CeilingStore, watch: Digest.Watch, stored: Option<Bytes>)
      ensures this.codec == codec && this.ceilings == ceilings && this.watch == watch
      ensures this.stored == stored && applied == None
    {
      this.codec, this.ceilings, this.watch, this.stored, applied := codec, ceilings, watch, stored, None;
    }

    function InUse(): Ceiling
      reads ceilings
    {
      if ceilings.current.Some? then ceilings.current.value
      else InUseAfter(ceilings.w, ceilings.keys, ceilings.disk, None)
    }

    method Validate(p: Profile, platform: string) returns (ok: bool)
      ensures ok <==> Valid(codec, p, platform)
    {
      if platform != "" && p.platform != "" && p.platform != platform {
        return false;
      }
      if !codec.usable(p.serverAddress) {
        return false;
      }
      for i := 0 to |p.overrides|
        invariant forall j :: 0 <= j < i ==> codec.usable(p.overrides[j].1)
      {
        if !codec.usable(p.overrides[i].1) {
          return false;
        }
      }
      return true;
    }

    method BuiltInProfile(platform: string) returns (p: Profile)
      modifies ceilings`current
      ensures p == Filtered(Default(platform), old(InUse()).FamiliesFor(platform))
      ensures ceilings.current == Some(old(InUse()))
    {
      p := Default(platform);
      var ceiling := ceilings.CurrentCeiling();
      var suffixes, _ := EraseOutside(p.suffixes, WHOLE_NAME, ceiling.FamiliesFor(platform), []);
      p := p.(suffixes := suffixes);
    }

    method LoadStored(platform: string) returns (p: Option<Profile>)
      modifies ceilings`current
      ensures Usable(codec, stored, platform).None? ==> p == None
      ensures Usable(codec, stored, platform).Some? ==>
                p == Some(Filtered(Usable(codec, stored, platform).value, old(InUse()).FamiliesFor(platform)))
      ensures ceilings.current == old(ceilings.current) || ceilings.current == Some(old(InUse()))
    {
      if stored.None? || stored.value == [] {
        return None;
      }
      var parsed := codec.parse(stored.value);
      if parsed.None? {
        return None;
      }
      var valid := Validate(parsed.value, platform);
      if !valid {
        return None;
      }
      var ceiling := ceilings.CurrentCeiling();
      var kept := new MutableProfile(parsed.value);
      var _ := kept.FilterToCeiling(ceiling.FamiliesFor(platform));
      return Some(kept.Value());
    }

    method Finish(platform: string, reply: Option<Reply>, caMatches: bool, stores: bool) returns (out: Result)
      modifies ceilings`current, this`stored
      ensures out == Finished(codec, platform, old(stored), old(InUse()).FamiliesFor(platform), reply, caMatches)
      ensures stored == StoredAfter(codec, platform, old(stored), reply, caMatches, stores)
      ensures ceilings.current == Some(old(InUse()))
    {
      var builtIn := BuiltInProfile(platform);
      out := Result(BuiltIn, builtIn);
      var cached := LoadStored(platform);
      if cached.Some? {
        out := Result(Cached, cached.value);
      }
      if reply.None? || reply.value.status != 200 {
        return;
      }
      var fetched := codec.parse(reply.value.body);
      if fetched.None? {
        return;
      }
      var valid := Validate(fetched.value, platform);
      if !valid || (fetched.value.caUrl != "" && !caMatches) {
        return;
      }
      if stores {
        stored := Some(codec.printed(fetched.value));
      }
      var ceiling := ceilings.CurrentCeiling();
      var kept := new MutableProfile(fetched.value);
      var _ := kept.FilterToCeiling(ceiling.FamiliesFor(platform));
      out := Result(Fetched, kept.Value());
    }

    method Apply(result: Result)
      modifies this`applied, watch`inUse
      ensures applied == Some(result)
      ensures watch.inUse == codec.hash(Digest.DigestText(result.profile))
    {
      applied := Some(result);
      var text := Digest.EffectiveText(result.profile);
      watch.SetDigestInUse(codec.hash(text));
    }

    /** `envelope` and `reply` are what the two requests brought; the flags say which writes succeed. */
    method FetchWithCeiling(platform: string, envelope: Option<Bytes>, cacheWrites: bool, versionWrites: bool,
                            reply: Option<Reply>, caMatches: bool, stores: bool) returns (out: Result)
      modifies this`stored, this`applied, ceilings, watch`inUse
      ensures StateOf() == Next(codec, ceilings.w, ceilings.keys, old(StateOf()),
                                Fetch(platform, envelope, cacheWrites, versionWrites, reply, caMatches, stores))
      ensures applied == Some(out)
      ensures watch.inUse == codec.hash(Digest.DigestText(out.profile))
    {
      ghost var loaded := SignedCeiling.After(ceilings.w, ceilings.keys, StateOf().ceiling,
                                     Load(envelope, cacheWrites, versionWrites));
      var _ := ceilings.LoadCeiling(envelope, cacheWrites, versionWrites);
      assert StateOf().ceiling == loaded;
      out := Finish(platform, reply, caMatches, stores);
      assert StateOf().ceiling == loaded;
      Apply(out);
    }

    method RedirectFor(host: string, serverAddress: string) returns (address: Option<string>)
      ensures applied.None? ==> address == None
      ensures applied.Some? ==> address == Answer(applied.value.profile, host, serverAddress)
      ensures applied.Some? ==> Answers(applied.value.profile, host, serverAddress, address)
    {
      if applied.None? {
        return None;
      }
      var profile := applied.value.profile;
      AnswersExactly(profile, host, serverAddress, Answer(profile, host, serverAddress));
      var exempt := MatchesAny(host, profile.never);
      if exempt {
        return None;
      }
      var own := OverrideFor(host, profile.overrides);
      if own.Some? {
        return own;
      }
      var server := if profile.serverAddress == "" then serverAddress else profile.serverAddress;
      var exact := MatchesAny(host, profile.exact);
      if exact {
        return Some(server);
      }
      var below := MatchesAny(host, profile.suffixes);
      if below {
        return Some(server);
      }
      return None;
    }

    function StateOf(): State
      reads this, ceilings
    {
      Running(SignedCeiling.State(ceilings.disk, ceilings.current), stored,
            if applied.Some? then Some(applied.value.profile) else None)
    }
  }

  method OverrideFor(host: string, overrides: seq<(string, string)>) returns (address: Option<string>)
    ensures address == FirstOverride(host, overrides)
  {
    for i := 0 to |overrides|
      invariant FirstOverride(host, overrides) == FirstOverride(host, overrides[i..])
    {
      if Matches(host, overrides[i].0) {
        return Some(overrides[i].1);
      }
      assert overrides[i..][1..] == overrides[i + 1..];
    }
    return None;
  }

  // ---- Which one it is ----

  /** The address is usable, and so is every override's; the platform is the right one, if both name one. */
  predicate Fits(codec: Codec, p: Profile, platform: string) {
    (p.platform != platform ==> "" in {p.platform, platform}) && codec.usable(p.serverAddress) &&
    forall o :: o in p.overrides ==> codec.usable(o.1)
  }

  /** The reply is a good profile, whose CA, if it names one, came with the digest it gives. */
  predicate Brings(codec: Codec, platform: string, reply: Option<Reply>, caMatches: bool, p: Profile) {
    reply.Some? && reply.value.status == 200 && codec.parse(reply.value.body) == Some(p) && Fits(codec, p, platform) &&
    (caMatches || p.caUrl == "")
  }

  /** The stored file holds a good profile. */
  predicate Keeps(codec: Codec, platform: string, stored: Option<Bytes>, p: Profile) {
    stored.Some? && stored.value != [] && codec.parse(stored.value) == Some(p) && Fits(codec, p, platform)
  }

  lemma FitsExactly(codec: Codec, p: Profile, platform: string)
    ensures Valid(codec, p, platform) <==> Fits(codec, p, platform)
  {
    assert forall i :: 0 <= i < |p.overrides| ==> p.overrides[i] in p.overrides;
  }

  /**
   A good reply is used and stored unfiltered; without one the stored profile is used, if it is good; without
   either the built-in one. The stored file changes with a good reply only.
   */
  lemma FinishedExactly(codec: Codec, platform: string, stored: Option<Bytes>, families: seq<string>,
                        reply: Option<Reply>, caMatches: bool, stores: bool, p: Profile)
    ensures Brings(codec, platform, reply, caMatches, p) ==>
              Finished(codec, platform, stored, families, reply, caMatches) == Result(Fetched, Filtered(p, families)) &&
              StoredAfter(codec, platform, stored, reply, caMatches, stores) ==
              if stores then Some(codec.printed(p)) else stored
    ensures (forall q :: !Brings(codec, platform, reply, caMatches, q)) ==>
              StoredAfter(codec, platform, stored, reply, caMatches, stores) == stored &&
              (Keeps(codec, platform, stored, p) ==>
                 Finished(codec, platform, stored, families, reply, caMatches) ==
                 Result(Cached, Filtered(p, families))) &&
              ((forall q :: !Keeps(codec, platform, stored, q)) ==>
                 Finished(codec, platform, stored, families, reply, caMatches) ==
                 Result(BuiltIn, Filtered(Default(platform), families)))
  {
    if reply.Some? && codec.parse(reply.value.body).Some? {
      var q := codec.parse(reply.value.body).value;
      FitsExactly(codec, q, platform);
      assert Accepted(codec, reply, platform, caMatches) == Some(q) <==> Brings(codec, platform, reply, caMatches, q);
    }
    if stored.Some? && codec.parse(stored.value).Some? {
      var q := codec.parse(stored.value).value;
      FitsExactly(codec, q, platform);
      assert Usable(codec, stored, platform) == Some(q) <==> Keeps(codec, platform, stored, q);
    }
  }

  lemma CompiledInside(i: nat, text: string)
    requires Spelt(i, text)
    ensures InFamilies(text, CompiledFamilies())
  {
    CompiledLabels();
    DottedIsWellFormed(COMPILED_NAMES[i]);
    WellFormedIsInside(text);
    assert InFamily(Lower(text), CompiledFamilies()[i]);
  }

  lemma SwitchInside()
    ensures forall s :: s in SWITCH_SUFFIXES ==> InFamilies(s, CompiledFamilies())
  {
    NintendoSpelt();
    OthersSpelt();
    CompiledInside(0, ".nintendo.net");
    CompiledInside(1, ".nintendo.com");
    CompiledInside(2, ".nintendo.co.jp");
    CompiledInside(3, ".nintendowifi.net");
    CompiledInside(4, ".nintendo-europe.com");
  }

  lemma OthersInside()
    ensures forall s :: s in OTHER_SUFFIXES ==> InFamilies(s, CompiledFamilies())
  {
    NintendoSpelt();
    OthersSpelt();
    LastSpelt();
    CompiledInside(0, ".nintendo.net");
    CompiledInside(3, ".nintendowifi.net");
    CompiledInside(5, ".gamespy.com");
    CompiledInside(6, ".openpak.org");
  }

  /** What was built in needs nothing from outside: the families compiled in admit every name of it. */
  lemma BuiltInIsWhole(platform: string)
    requires platform in Compiled().platforms
    ensures Filtered(Default(platform), Compiled().FamiliesFor(platform)) == Default(platform)
  {
    SwitchInside();
    OthersInside();
    KeptAll(Default(platform).suffixes, WHOLE_NAME, CompiledFamilies());
  }

  /** What is built in redirects the names under its suffixes, to the caller's own address, and nothing else. */
  lemma BuiltInAnswers(platform: string, host: string, own: string)
    requires platform in Compiled().platforms
    ensures var p := Finished(NOTHING, platform, None, Compiled().FamiliesFor(platform), None, false).profile;
            var suffixes := if platform == "switch" then
                              [".nintendo.net", ".nintendo.com", ".nintendo.co.jp", ".nintendowifi.net",
                               ".nintendo-europe.com"]
                            else [".nintendowifi.net", ".gamespy.com", ".nintendo.net", ".openpak.org"];
            Answer(p, host, own) == if Covered(host, suffixes) then Some(own) else None
  {
    BuiltInIsWhole(platform);
    var p := Default(platform);
    AnswersExactly(p, host, own, Answer(p, host, own));
  }

  /** A codec that reads nothing. */
  const NOTHING := Codec((b: Bytes) => None, (p: Profile) => [], (a: string) => false, (t: string) => "")

  // ---- Runs ----

  datatype Step =
    | Fetch(platform: string, envelope: Option<Bytes>, cacheWrites: bool, versionWrites: bool,
            reply: Option<Reply>, caMatches: bool, stores: bool)
    | Recheck(envelope: Option<Bytes>, cacheWrites: bool, versionWrites: bool)
    | Overwrite(body: Option<Bytes>)
    | Restart

  datatype State = Running(ceiling: SignedCeiling.State, stored: Option<Bytes>, applied: Option<Profile>)

  /**
   A fetch loads the ceiling, finishes and applies; a re-check only loads the ceiling; the stored
   file may at any time be anything; a restart forgets what was applied.
   */
  function Next(codec: Codec, w: World, keys: seq<Key>, s: State, step: Step): State {
    match step
    case Fetch(platform, envelope, cacheWrites, versionWrites, reply, caMatches, stores) =>
      var ceiling := SignedCeiling.After(w, keys, s.ceiling, Load(envelope, cacheWrites, versionWrites));
      var families := ceiling.current.value.FamiliesFor(platform);
      Running(ceiling, StoredAfter(codec, platform, s.stored, reply, caMatches, stores),
            Some(Finished(codec, platform, s.stored, families, reply, caMatches).profile))
    case Recheck(envelope, cacheWrites, versionWrites) =>
      s.(ceiling := SignedCeiling.After(w, keys, s.ceiling, Load(envelope, cacheWrites, versionWrites)))
    case Overwrite(body) => s.(stored := body)
    case Restart => Running(SignedCeiling.After(w, keys, s.ceiling, SignedCeiling.Restart), s.stored, None)
  }

  function RunAll(codec: Codec, w: World, keys: seq<Key>, disk: Disk, stored: Option<Bytes>, steps: seq<Step>): State {
    if steps == [] then Running(SignedCeiling.State(disk, None), stored, None)
    else Next(codec, w, keys, RunAll(codec, w, keys, disk, stored, steps[..|steps| - 1]), steps[|steps| - 1])
  }

  /** Confined by some sound ceiling that is no older than the floor. */
  ghost predicate Bounded(w: World, keys: seq<Key>, p: Profile, floor: int) {
    exists c: Ceiling, platform: string :: Sound(w, keys, c, floor) && Confined(p, c.FamiliesFor(platform))
  }

  lemma FinishedIsConfined(codec: Codec, platform: string, stored: Option<Bytes>, c: Ceiling,
                           reply: Option<Reply>, caMatches: bool)
    requires FamiliesWellFormed(c)
    ensures var families := c.FamiliesFor(platform);
            Confined(Finished(codec, platform, stored, families, reply, caMatches).profile, families)
  {
    var families := c.FamiliesFor(platform);
    match Accepted(codec, reply, platform, caMatches)
    case Some(p) => FilterConfines(p, families);
    case None =>
      match Usable(codec, stored, platform)
      case Some(p) => FilterConfines(p, families);
      case None => FilterConfines(Default(platform), families);
  }

  /**
   After any run, whatever the server sent and whatever stood in the stored file: what is applied
   redirects only names under the families of a sound ceiling, no older than the floor of the start.
   */
  lemma {:induction false} RunsStayInside(codec: Codec, w: World, keys: seq<Key>, disk: Disk,
                                          stored: Option<Bytes>, steps: seq<Step>)
    requires Sane(w)
    ensures var s := RunAll(codec, w, keys, disk, stored, steps);
            Floor(w, keys, disk) <= Floor(w, keys, s.ceiling.disk) &&
            (s.applied.Some? ==> Bounded(w, keys, s.applied.value, Floor(w, keys, disk)))
  {
    if steps != [] {
      var before, last := steps[..|steps| - 1], steps[|steps| - 1];
      RunsStayInside(codec, w, keys, disk, stored, before);
      var s := RunAll(codec, w, keys, disk, stored, before);
      match last
      case Fetch(platform, envelope, cacheWrites, versionWrites, reply, caMatches, stores) =>
        LoadKeepsFloor(w, keys, s.ceiling.disk, envelope, cacheWrites, versionWrites);
        var c := InUseAfter(w, keys, s.ceiling.disk, envelope);
        FinishedIsConfined(codec, platform, s.stored, c, reply, caMatches);
        assert Sound(w, keys, c, Floor(w, keys, disk));
      case Recheck(envelope, cacheWrites, versionWrites) =>
        LoadKeepsFloor(w, keys, s.ceiling.disk, envelope, cacheWrites, versionWrites);
      case _ =>
    }
  }

  /**
   A fetch, of all that came of it: the ceiling is loaded with its two writes; the profile is chosen under
   the ceiling now in use, and applied; the file takes a good reply if it can be written.
   */
  lemma FetchExactly(codec: Codec, w: World, keys: seq<Key>, s: State, step: Step, p: Profile)
    requires step.Fetch?
    ensures var t := Next(codec, w, keys, s, step);
            var c := InUseAfter(w, keys, s.ceiling.disk, step.envelope);
            var families := c.FamiliesFor(step.platform);
            t.ceiling.disk == DiskAfter(w, keys, s.ceiling.disk, step.envelope, step.cacheWrites, step.versionWrites) &&
            t.ceiling.current == Some(c) &&
            if Brings(codec, step.platform, step.reply, step.caMatches, p) then
              t.applied == Some(Filtered(p, families)) &&
              t.stored == (if step.stores then Some(codec.printed(p)) else s.stored)
            else
              (forall q :: !Brings(codec, step.platform, step.reply, step.caMatches, q)) ==>
                t.stored == s.stored &&
                (Keeps(codec, step.platform, s.stored, p) ==> t.applied == Some(Filtered(p, families))) &&
                ((forall q :: !Keeps(codec, step.platform, s.stored, q)) ==>
                   t.applied == Some(Filtered(Default(step.platform), families)))
  {
    var families := InUseAfter(w, keys, s.ceiling.disk, step.envelope).FamiliesFor(step.platform);
    FinishedExactly(codec, step.platform, s.stored, families, step.reply, step.caMatches, step.stores, p);
  }

  /** Every address a profile answers with is usable, or the caller's own. */
  ghost predicate Reaches(codec: Codec, p: Profile) {
    forall host, own :: Answer(p, host, own).Some? ==>
      Answer(p, host, own).value == own || codec.usable(Answer(p, host, own).value)
  }

  lemma FittingReaches(codec: Codec, p: Profile, families: seq<string>)
    requires p.serverAddress == "" || codec.usable(p.serverAddress)
    requires forall o :: o in p.overrides ==> codec.usable(o.1)
    ensures Reaches(codec, Filtered(p, families))
  {
    var f := Filtered(p, families);
    forall host, own | Answer(f, host, own).Some?
      ensures Answer(f, host, own).value == own || codec.usable(Answer(f, host, own).value)
    {
      AnswersExactly(f, host, own, Answer(f, host, own));
    }
  }

  /** After any run, whatever was sent or stored, nothing is redirected to an address that is not usable. */
  lemma {:induction false} RunsReach(codec: Codec, w: World, keys: seq<Key>, disk: Disk, stored: Option<Bytes>,
                                     steps: seq<Step>)
    ensures var s := RunAll(codec, w, keys, disk, stored, steps);
            s.applied.Some? ==> Reaches(codec, s.applied.value)
  {
    if steps != [] {
      var before, last := steps[..|steps| - 1], steps[|steps| - 1];
      RunsReach(codec, w, keys, disk, stored, before);
      var s := RunAll(codec, w, keys, disk, stored, before);
      if last.Fetch? {
        var c := InUseAfter(w, keys, s.ceiling.disk, last.envelope);
        FinishedReaches(codec, last.platform, s.stored, c.FamiliesFor(last.platform), last.reply, last.caMatches);
      }
    }
  }

  lemma FinishedReaches(codec: Codec, platform: string, stored: Option<Bytes>, families: seq<string>,
                        reply: Option<Reply>, caMatches: bool)
    ensures Reaches(codec, Finished(codec, platform, stored, families, reply, caMatches).profile)
  {
    match Accepted(codec, reply, platform, caMatches)
    case Some(p) =>
      FitsExactly(codec, p, platform);
      FittingReaches(codec, p, families);
    case None =>
      match Usable(codec, stored, platform)
      case Some(p) =>
        FitsExactly(codec, p, platform);
        FittingReaches(codec, p, families);
      case None => FittingReaches(codec, Default(platform), families);
  }

  /** What is stored is what the server sent: a later ceiling decides over it anew. */
  lemma LaterCeilingDecides(codec: Codec, platform: string, stored: Option<Bytes>, reply: Option<Reply>,
                            caMatches: bool, later: seq<string>)
    requires Accepted(codec, reply, platform, caMatches).Some?
    requires var p := Accepted(codec, reply, platform, caMatches).value;
             codec.printed(p) != [] && codec.parse(codec.printed(p)) == Some(p)
    ensures var p := Accepted(codec, reply, platform, caMatches).value;
            var now := StoredAfter(codec, platform, stored, reply, caMatches, true);
            Finished(codec, platform, now, later, None, false) == Result(Cached, Filtered(p, later))
  {
  }
}
