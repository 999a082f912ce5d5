/**
 What the running game declared about itself, per profile: PresenceState of presence_state.cpp.

 The class keeps one declaration per profile. Its contract is a step function on plain values;
 the lemmas say what a whole history of steps leaves, without reference to that one slot.
 */
module Presence {
  import opened Basics
  import opened AppField

  const OPENS := 1
  const CLOSES := 2

  /** "{}" */
  const NO_FIELDS: Bytes := [0x7B, 0x7D]

  const STORAGE_SIZE := 0xC0

  datatype Declared = Declared(title: nat, sessionOpen: bool, appField: Bytes, updatedAt: int)

  function Fresh(title: nat): Declared {
    Declared(title, false, NO_FIELDS, 0)
  }

  datatype Publication = Publication(state: string, application: nat, group: nat, appField: Bytes)

  const INACTIVE := Publication("INACTIVE", 0, 0, NO_FIELDS)

  datatype View = View(application: nat, group: nat, updatedAt: int, state: nat, storage: Bytes)

  /** One UpdateUserPresence: what it declares, and the clock when it arrives. */
  datatype Commit = Commit(declaration: int, appField: Option<Bytes>, now: int)

  /** Whether a commit changes what is declared, and what is declared after it. */
  predicate Changes(d: Declared, c: Commit) {
    (c.declaration == OPENS && !d.sessionOpen) || (c.declaration == CLOSES && d.sessionOpen) ||
    (c.appField.Some? && c.appField.value != d.appField)
  }

  function Committed(d: Declared, c: Commit): Declared {
    Declared(d.title,
             if c.declaration == OPENS then true else if c.declaration == CLOSES then false else d.sessionOpen,
             if c.appField.Some? then c.appField.value else d.appField,
             if Changes(d, c) then c.now else d.updatedAt)
  }

  /** The fields of the class, as a value. */
  datatype State = State(application: nat, group: nat, slots: map<string, Declared>)

  function DeclaredFor(s: State, profile: string, title: nat): Declared {
    if profile in s.slots && s.slots[profile].title == title then s.slots[profile] else Fresh(title)
  }

  function GroupOf(s: State): nat {
    if s.group != 0 then s.group else s.application
  }

  function CurrentOf(s: State, profile: string): Publication {
    if s.application == 0 then INACTIVE
    else
      var d := DeclaredFor(s, profile, s.application);
      Publication(if d.sessionOpen then "PLAYING" else "ONLINE", s.application, GroupOf(s), d.appField)
  }

  function ViewOf(s: State, profile: string): View {
    var d := DeclaredFor(s, profile, s.application);
    View(s.application, GroupOf(s), d.updatedAt,
         if s.application == 0 then 0 else if d.sessionOpen then 2 else 1,
         if s.application == 0 then Zeros(STORAGE_SIZE) else Restored(d.appField, STORAGE_SIZE))
  }

  function Updated(s: State, profile: string, title: nat, c: Commit): State {
    s.(slots := s.slots[profile := Committed(DeclaredFor(s, profile, title), c)])
  }

  class PresenceState {
    var application: nat
    var group: nat
    var slots: map<string, Declared>
    var listening: bool
    var told: nat

    ghost function Now(): State
      reads this
    {
      State(application, group, slots)
    }

    constructor ()
      ensures Now() == State(0, 0, map[]) && !listening && told == 0
    {
      application, group, slots, listening, told := 0, 0, map[], false, 0;
    }

    method SetChangedCallback(given: bool)
      modifies this`listening
      ensures listening == given
    {
      listening := given;
    }

    method SetRunningApplication(applicationId: nat, presenceGroupId: nat)
      modifies this`application, this`group
      ensures Now() == old(Now()).(application := applicationId, group := presenceGroupId)
    {
      application := applicationId;
      group := presenceGroupId;
    }

    method Application() returns (applicationId: nat, groupId: nat)
      ensures applicationId == application && groupId == GroupOf(Now())
    {
      return application, if group != 0 then group else application;
    }

    method For(profile: string, title: nat) returns (d: Declared)
      ensures d == DeclaredFor(Now(), profile, title)
    {
      if profile in slots && slots[profile].title == title {
        return slots[profile];
      }
      return Fresh(title);
    }

    /** `told` counts the calls of the callback, one for each reported change while one is given. */
    method Update(profile: string, title: nat, c: Commit) returns (changed: bool)
      modifies this`slots, this`told
      ensures told == old(told) + if changed && listening then 1 else 0
      ensures Now() == Updated(old(Now()), profile, title, c)
      ensures changed <==> Changes(old(DeclaredFor(Now(), profile, title)), c)
    {
      var previous := For(profile, title);
      var next := previous.(title := title);
      if c.declaration == OPENS {
        next := next.(sessionOpen := true);
      } else if c.declaration == CLOSES {
        next := next.(sessionOpen := false);
      }
      if c.appField.Some? {
        next := next.(appField := c.appField.value);
      }
      changed := next.sessionOpen != previous.sessionOpen || next.appField != previous.appField ||
                 next.title != previous.title;
      if changed {
        next := next.(updatedAt := c.now);
      }
      slots := slots[profile := next];
      if changed && listening {
        told := told + 1;
      }
    }

    method UpdateUserPresence(profile: string, declaration: int, storage: Bytes, now: int) returns (changed: bool)
      modifies this`slots, this`told
      ensures told == old(told) + if changed && listening then 1 else 0
      ensures Now() == Updated(old(Now()), profile, old(application),
                               Commit(declaration, Some(Published(storage)), now))
      ensures changed <==> Changes(old(DeclaredFor(Now(), profile, application)),
                                   Commit(declaration, Some(Published(storage)), now))
    {
      var running, _ := Application();
      var field := BlobToAppField(storage);
      changed := Update(profile, running, Commit(declaration, Some(field), now));
    }

    method Current(profile: string) returns (p: Publication)
      ensures p == CurrentOf(Now(), profile)
    {
      var running, runningGroup := Application();
      if running == 0 {
        return INACTIVE;
      }
      var declared := For(profile, running);
      return Publication(if declared.sessionOpen then "PLAYING" else "ONLINE", running, runningGroup,
                         declared.appField);
    }

    method OwnPresenceView(profile: string) returns (v: View)
      ensures v == ViewOf(Now(), profile)
    {
      var running, runningGroup := Application();
      var declared := For(profile, running);
      var storage := new Byte[STORAGE_SIZE](i => 0);
      if running != 0 {
        AppFieldToBlob(declared.appField, storage);
      } else {
        assert storage[..] == Zeros(STORAGE_SIZE);
      }
      v := View(running, runningGroup, declared.updatedAt,
                if running == 0 then 0 else if declared.sessionOpen then 2 else 1, storage[..]);
    }

    method Clear()
      modifies this`slots
      ensures Now() == old(Now()).(slots := map[])
    {
      slots := map[];
    }
  }

  /** A commit counts as a change exactly when session or field differ after it, and only then is it timed. */
  lemma ChangesExactly(d: Declared, c: Commit)
    ensures var next := Committed(d, c);
            (Changes(d, c) <==> next.sessionOpen != d.sessionOpen || next.appField != d.appField) &&
            next.updatedAt == (if Changes(d, c) then c.now else d.updatedAt) && next.title == d.title
  {
  }

  // ---- Histories ----

  datatype Step =
    | Launch(application: nat, group: nat)
    | Update(profile: string, title: nat, commit: Commit)
    | Clear

  function After(s: State, step: Step): State {
    match step
    case Launch(application, group) => s.(application := application, group := group)
    case Update(profile, title, commit) => Updated(s, profile, title, commit)
    case Clear => s.(slots := map[])
  }

  function AfterAll(history: seq<Step>): State {
    if history == [] then State(0, 0, map[])
    else After(AfterAll(history[..|history| - 1]), history[|history| - 1])
  }

  /**
   The commits of `profile` for `title` at the end of the history: walking back from its end,
   those met before a Clear or before the profile's first commit for another title.
   */
  function TrailingRun(history: seq<Step>, profile: string, title: nat): seq<Commit> {
    if history == [] then []
    else
      var before, last := history[..|history| - 1], history[|history| - 1];
      match last
      case Launch(_, _) => TrailingRun(before, profile, title)
      case Clear => []
      case Update(p, t, commit) =>
        if p != profile then TrailingRun(before, profile, title)
        else if t != title then []
        else TrailingRun(before, profile, title) + [commit]
  }

  function Fold(d: Declared, commits: seq<Commit>): Declared {
    if commits == [] then d else Committed(Fold(d, commits[..|commits| - 1]), commits[|commits| - 1])
  }

  /** What is declared after any history is the fold of that trailing run over a fresh start. */
  lemma {:induction false} DeclaredIsFold(history: seq<Step>, profile: string, title: nat)
    ensures DeclaredFor(AfterAll(history), profile, title) == Fold(Fresh(title), TrailingRun(history, profile, title))
  {
    if history != [] {
      var before, last := history[..|history| - 1], history[|history| - 1];
      DeclaredIsFold(before, profile, title);
      if last.Update? && last.profile == profile && last.title == title {
        var run := TrailingRun(before, profile, title);
        assert (run + [last.commit])[..|run|] == run;
      } else if last.Update? && last.profile == profile {
        DeclaredTitle(AfterAll(before), profile, last.title);
      }
    }
  }

  lemma DeclaredTitle(s: State, profile: string, title: nat)
    ensures DeclaredFor(s, profile, title).title == title
  {
  }

  /**
   While a title runs, a commit for it reports a change exactly when what would be published
   changes. A commit for another title reports its own change instead, yet takes the profile's
   slot: what is published changes exactly when it was not already what a fresh start publishes.
   */
  lemma ChangeIsVisible(s: State, profile: string, title: nat, c: Commit)
    requires s.application != 0
    ensures CurrentOf(Updated(s, profile, title, c), profile) != CurrentOf(s, profile) <==>
            if title == s.application then Changes(DeclaredFor(s, profile, title), c)
            else CurrentOf(s, profile) != CurrentOf(s.(slots := map[]), profile)
  {
    var d, next := DeclaredFor(s, profile, s.application), Updated(s, profile, title, c);
    assert CurrentOf(s, profile).state == if d.sessionOpen then "PLAYING" else "ONLINE";
    assert "PLAYING"[0] != "ONLINE"[0];
    DeclaredTitle(s, profile, title);
  }

  /**
   What is published: nothing runs, the inactive one; else the running title under its group, or under its
   own number when it has none, PLAYING exactly when the title's last word on its session was to open it,
   and ONLINE otherwise. The view says the same as a number.
   */
  lemma PublishedExactly(history: seq<Step>, profile: string)
    ensures var s := AfterAll(history);
            var p, v := CurrentOf(s, profile), ViewOf(s, profile);
            if s.application == 0 then
              p.state == "INACTIVE" && p.application == 0 && p.appField == NO_FIELDS && v.state == 0 &&
              v.storage == Zeros(0xC0)
            else
              var run := TrailingRun(history, profile, s.application);
              p.application == s.application && p.group == (if s.group == 0 then s.application else s.group) &&
              p.state == (if LastOpens(run) then "PLAYING" else "ONLINE") && p.appField == LastField(run) &&
              v.application == p.application && v.group == p.group && v.state == (if LastOpens(run) then 2 else 1) &&
              v.storage == Restored(LastField(run), 0xC0) &&
              v.updatedAt == Fold(Fresh(s.application), run).updatedAt
  {
    var s := AfterAll(history);
    DeclaredIsFold(history, profile, s.application);
    FoldIsLast(Fresh(s.application), TrailingRun(history, profile, s.application));
  }

  /** The last commit that says anything of the session opens it. */
  predicate LastOpens(commits: seq<Commit>) {
    exists i :: 0 <= i < |commits| && commits[i].declaration == OPENS &&
                forall j :: i < j < |commits| ==> commits[j].declaration != CLOSES
  }

  /** The field of the last commit that has one. */
  function LastField(commits: seq<Commit>): Bytes {
    if commits == [] then NO_FIELDS
    else if commits[|commits| - 1].appField.Some? then commits[|commits| - 1].appField.value
    else LastField(commits[..|commits| - 1])
  }

  lemma {:induction false} FoldIsLast(d: Declared, commits: seq<Commit>)
    requires !d.sessionOpen && d.appField == NO_FIELDS
    ensures Fold(d, commits).sessionOpen <==> LastOpens(commits)
    ensures Fold(d, commits).appField == LastField(commits)
  {
    if commits != [] {
      var n := |commits| - 1;
      var before := commits[..n];
      FoldIsLast(d, before);
      if LastOpens(before) && commits[n].declaration != CLOSES {
        var i :| 0 <= i < n && before[i].declaration == OPENS &&
                 forall j :: i < j < n ==> before[j].declaration != CLOSES;
        assert commits[i].declaration == OPENS;
      }
      if LastOpens(commits) && commits[n].declaration != OPENS {
        var i :| 0 <= i <= n && commits[i].declaration == OPENS &&
                 forall j :: i < j <= n ==> commits[j].declaration != CLOSES;
        assert before[i].declaration == OPENS;
      }
    }
  }

  /** The unreported change is real: another title's empty commit hides an open session. */
  lemma ChangeCanBeSilent() returns (s: State, title: nat, c: Commit)
    ensures s.application != 0 && !Changes(DeclaredFor(s, "p", title), c)
    ensures CurrentOf(Updated(s, "p", title, c), "p") != CurrentOf(s, "p")
  {
    s := State(7, 0, map["p" := Declared(7, true, NO_FIELDS, 5)]);
    title, c := 8, Commit(0, None, 9);
    ChangeIsVisible(s, "p", title, c);
    assert "PLAYING"[0] != "ONLINE"[0];
  }

  /** The view a game reads back holds its own blob, in canonical form. */
  lemma ViewIsCanonical(s: State, profile: string, declaration: int, storage: Bytes, now: int)
    requires s.application != 0 && |storage| == STORAGE_SIZE
    ensures var c := Commit(declaration, Some(Published(storage)), now);
            ViewOf(Updated(s, profile, s.application, c), profile).storage == Canonical(storage)
  {
    var c := Commit(declaration, Some(Published(storage)), now);
    DeclaredTitle(s, profile, s.application);
    assert DeclaredFor(Updated(s, profile, s.application, c), profile, s.application).appField == Published(storage);
    BlobRoundTrip(storage);
  }
}
