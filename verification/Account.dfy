/**
 The signed-in account of account.cpp: globals kept in step with a file per profile, and the
 generation counter that caches are keyed on.
 */
module Account {
  import opened Basics
  import opened Words
  import opened Decimal

  datatype Account = Account(pid: nat, username: string, friendCode: string, token: string, bearer: string)

  const SIGNED_OUT := Account(0, "", "", "", "")

  // ---- The file ----

  predicate Blank(c: char) {
    c == ' ' || c == '\t' || c == '\r' || c == '\n'
  }

  function TrimStart(s: string): (r: string)
    ensures |r| <= |s|
  {
    if s != "" && Blank(s[0]) then TrimStart(s[1..]) else s
  }

  function TrimEnd(s: string): (r: string)
    ensures r <= s
  {
    if s != "" && Blank(s[|s| - 1]) then TrimEnd(s[..|s| - 1]) else s
  }

  function Strip(s: string): string {
    TrimEnd(TrimStart(s))
  }

  function FieldLine(key: string, value: string): string {
    key + "=" + value
  }

  function Lines(a: Account): seq<string> {
    [FieldLine("pid", ToString(a.pid)), FieldLine("username", a.username), FieldLine("friend_code", a.friendCode),
     FieldLine("token", a.token), FieldLine("bearer", a.bearer), ""]
  }

  /** The file's text: each line and its newline. */
  function Render(a: Account): string {
    Join(Lines(a), '\n')
  }

  datatype Key = Pid | Username | FriendCode | Token | Bearer | Other

  function KeyNamed(name: string): Key {
    if name == "pid" then Pid
    else if name == "username" then Username
    else if name == "friend_code" then FriendCode
    else if name == "token" then Token
    else if name == "bearer" then Bearer
    else Other
  }

  function Assigned(a: Account, key: Key, value: string): Account {
    match key
    case Pid => a.(pid := match Stoull(value) case Some(n) => n case None => 0)
    case Username => a.(username := value)
    case FriendCode => a.(friendCode := value)
    case Token => a.(token := value)
    case Bearer => a.(bearer := value)
    case Other => a
  }

  /** A line's key and value, under some reading of the key. */
  function ReadKeyed(named: string -> Key, a: Account, line: string): Account {
    var eq := Find(line, '=');
    if eq == |line| || eq == 0 then a else Assigned(a, named(Strip(line[..eq])), Strip(line[eq + 1..]))
  }

  function ReadLine(a: Account, line: string): Account {
    ReadKeyed(KeyNamed, a, line)
  }

  function ReadLines(read: (Account, string) -> Account, a: Account, lines: seq<string>): Account
    decreases |lines|
  {
    if lines == [] then a else ReadLines(read, read(a, lines[0]), lines[1..])
  }

  /** The account a file's text names. */
  function Parse(contents: string): Account {
    ReadLines(ReadLine, SIGNED_OUT, Split(contents, '\n'))
  }

  // ---- The text names the account exactly when its fields are clean ----

  /** A field the file can carry: one line, nothing to trim. */
  predicate Clean(s: string) {
    '\n' !in s && Strip(s) == s
  }

  predicate CleanAccount(a: Account) {
    Clean(a.username) && Clean(a.friendCode) && Clean(a.token) && Clean(a.bearer)
  }

  lemma {:induction false} TrimStartFirst(s: string)
    ensures TrimStart(s) != "" ==> !Blank(TrimStart(s)[0])
    ensures '\n' !in s ==> '\n' !in TrimStart(s)
  {
    if s != "" && Blank(s[0]) {
      TrimStartFirst(s[1..]);
    }
  }

  lemma {:induction false} TrimEndLast(s: string)
    ensures TrimEnd(s) != "" ==> !Blank(TrimEnd(s)[|TrimEnd(s)| - 1])
  {
    if s != "" && Blank(s[|s| - 1]) {
      TrimEndLast(s[..|s| - 1]);
    }
  }

  lemma StripIsClean(s: string)
    requires '\n' !in s
    ensures Clean(Strip(s))
  {
    var t := TrimStart(s);
    TrimStartFirst(s);
    TrimEndLast(t);
    var r := Strip(s);
    assert r <= t;
    assert r != "" ==> r[0] == t[0];
    assert TrimStart(r) == r;
    assert forall i :: 0 <= i < |r| ==> r[i] == t[i];
  }

  lemma AssignedIsClean(a: Account, key: Key, value: string)
    requires CleanAccount(a) && Clean(value)
    ensures CleanAccount(Assigned(a, key, value))
  {
  }

  lemma ReadKeyedIsClean(named: string -> Key, a: Account, line: string)
    requires CleanAccount(a) && '\n' !in line
    ensures CleanAccount(ReadKeyed(named, a, line))
  {
    var eq := Find(line, '=');
    if eq < |line| && eq > 0 {
      StripIsClean(line[eq + 1..]);
      AssignedIsClean(a, named(Strip(line[..eq])), Strip(line[eq + 1..]));
    }
  }

  lemma ReadLineIsClean(a: Account, line: string)
    requires CleanAccount(a) && '\n' !in line
    ensures CleanAccount(ReadLine(a, line))
  {
    ReadKeyedIsClean(KeyNamed, a, line);
  }

  lemma {:induction false} ReadIsClean(a: Account, lines: seq<string>)
    requires CleanAccount(a) && forall i :: 0 <= i < |lines| ==> '\n' !in lines[i]
    ensures CleanAccount(ReadLines(ReadLine, a, lines))
    decreases |lines|
  {
    if lines != [] {
      ReadLineIsClean(a, lines[0]);
      ReadIsClean(ReadLine(a, lines[0]), lines[1..]);
    }
  }

  lemma FieldReads(named: string -> Key, a: Account, key: string, value: string)
    requires '=' !in key && key != "" && Strip(key) == key && Strip(value) == value
    ensures ReadKeyed(named, a, FieldLine(key, value)) == Assigned(a, named(key), value)
  {
    var line := FieldLine(key, value);
    assert line[|key|] == '=';
    assert forall i :: 0 <= i < |key| ==> line[i] == key[i];
    assert Find(line, '=') == |key|;
    assert line[..|key|] == key && line[|key| + 1..] == value;
  }

  lemma {:induction false} DigitsAreClean(s: string)
    requires forall i :: 0 <= i < |s| ==> IsDigit(s[i])
    ensures Clean(s) && '\n' !in s
  {
  }

  lemma KeysAreClean()
    ensures Strip("pid") == "pid" && Strip("username") == "username" && Strip("friend_code") == "friend_code"
    ensures Strip("token") == "token" && Strip("bearer") == "bearer"
  {
  }

  lemma KeysAreNamed()
    ensures KeyNamed("pid") == Pid && KeyNamed("username") == Username && KeyNamed("friend_code") == FriendCode
    ensures KeyNamed("token") == Token && KeyNamed("bearer") == Bearer
  {
    assert "pid"[0] == 'p' && "username"[0] == 'u' && "friend_code"[0] == 'f';
    assert "token"[0] == 't' && "bearer"[0] == 'b';
  }

  lemma PidIsKey()
    ensures KeyNamed("pid") == Pid && Strip("pid") == "pid" && '=' !in "pid" && '\n' !in "pid"
  {
  }

  lemma LineIsClean(key: string, value: string)
    requires '\n' !in key && '\n' !in value
    ensures '\n' !in FieldLine(key, value)
  {
  }

  lemma PidReads(pid: nat)
    requires pid < 0x1_0000_0000_0000_0000
    ensures ReadLine(SIGNED_OUT, FieldLine("pid", ToString(pid))) == SIGNED_OUT.(pid := pid)
    ensures '\n' !in FieldLine("pid", ToString(pid))
  {
    DigitsAreClean(ToString(pid));
    PidIsKey();
    LineIsClean("pid", ToString(pid));
    FieldReads(KeyNamed, SIGNED_OUT, "pid", ToString(pid));
    PidAssigned(pid, ToString(pid));
  }

  lemma PidAssigned(pid: nat, text: string)
    requires pid < 0x1_0000_0000_0000_0000 && text == ToString(pid)
    ensures Assigned(SIGNED_OUT, Pid, text) == SIGNED_OUT.(pid := pid)
  {
    PrintedReads(pid);
  }

  lemma TextsRead(a: Account, value: string)
    requires Clean(value)
    ensures ReadLine(a, FieldLine("username", value)) == a.(username := value)
    ensures ReadLine(a, FieldLine("friend_code", value)) == a.(friendCode := value)
    ensures ReadLine(a, FieldLine("token", value)) == a.(token := value)
    ensures ReadLine(a, FieldLine("bearer", value)) == a.(bearer := value)
  {
    KeysAreClean();
    KeysAreNamed();
    FieldReads(KeyNamed, a, "username", value);
    FieldReads(KeyNamed, a, "friend_code", value);
    FieldReads(KeyNamed, a, "token", value);
    FieldReads(KeyNamed, a, "bearer", value);
  }

  lemma LinesAreLines(a: Account)
    requires a.pid < 0x1_0000_0000_0000_0000 && CleanAccount(a)
    ensures Split(Render(a), '\n') == Lines(a)
  {
    PidReads(a.pid);
    SplitJoin(Lines(a), '\n');
  }

  lemma CleanReturns(a: Account)
    requires a.pid < 0x1_0000_0000_0000_0000 && CleanAccount(a)
    ensures Parse(Render(a)) == a
  {
    var a1 := SIGNED_OUT.(pid := a.pid);
    var a2 := a1.(username := a.username);
    var a3 := a2.(friendCode := a.friendCode);
    var a4 := a3.(token := a.token);
    PidReads(a.pid);
    TextsRead(a1, a.username);
    TextsRead(a2, a.friendCode);
    TextsRead(a3, a.token);
    TextsRead(a4, a.bearer);
    LinesAreLines(a);
    SixLines(ReadLine, Lines(a), a1, a2, a3, a4, a);
  }

  lemma SixLines(read: (Account, string) -> Account, lines: seq<string>,
                 a1: Account, a2: Account, a3: Account, a4: Account, a5: Account)
    requires |lines| == 6 && read(SIGNED_OUT, lines[0]) == a1 && read(a1, lines[1]) == a2
    requires read(a2, lines[2]) == a3 && read(a3, lines[3]) == a4 && read(a4, lines[4]) == a5 == read(a5, lines[5])
    ensures ReadLines(read, SIGNED_OUT, lines) == a5
  {
    var l1, l2, l3, l4, l5 := lines[1..], lines[2..], lines[3..], lines[4..], lines[5..];
    assert l1[1..] == l2 && l2[1..] == l3 && l3[1..] == l4 && l4[1..] == l5 && l5[1..] == [];
    assert ReadLines(read, a4, l4) == ReadLines(read, a5, l5) == a5;
    assert ReadLines(read, a2, l2) == ReadLines(read, a3, l3) == a5;
  }

  /** A saved account comes back from its file exactly when every field of it is clean. */
  lemma FileRoundTrip(a: Account)
    requires a.pid < 0x1_0000_0000_0000_0000
    ensures Parse(Render(a)) == a <==> CleanAccount(a)
  {
    if CleanAccount(a) {
      CleanReturns(a);
    }
    JoinSplit(Render(a), '\n');
    ReadIsClean(SIGNED_OUT, Split(Render(a), '\n'));
  }

  // ---- A file written by hand ----

  const BLANKS := " \t\r\n"

  predicate AllBlank(s: string) {
    forall i :: 0 <= i < |s| ==> s[i] in BLANKS
  }

  /** A word with no blank at either end, the empty one included. */
  predicate Trim(word: string) {
    word != "" ==> word[0] !in BLANKS && word[|word| - 1] !in BLANKS
  }

  lemma {:induction false} TrimStartSkips(x: string, s: string)
    requires AllBlank(x)
    ensures TrimStart(x + s) == TrimStart(s)
  {
    if x == "" {
      assert x + s == s;
    } else {
      assert (x + s)[1..] == x[1..] + s;
      TrimStartSkips(x[1..], s);
    }
  }

  lemma {:induction false} TrimEndSkips(s: string, y: string)
    requires AllBlank(y)
    ensures TrimEnd(s + y) == TrimEnd(s)
  {
    if y == "" {
      assert s + y == s;
    } else {
      assert (s + y)[..|s + y| - 1] == s + y[..|y| - 1];
      TrimEndSkips(s, y[..|y| - 1]);
    }
  }

  /** Blanks around a word that has none at its ends are what goes. */
  lemma PaddingGoes(x: string, word: string, y: string)
    requires AllBlank(x) && AllBlank(y) && Trim(word)
    ensures Strip(x + word + y) == word
  {
    assert x + word + y == x + (word + y);
    TrimStartSkips(x, word + y);
    if word != "" {
      assert (word + y)[0] == word[0];
      TrimEndSkips(word, y);
    } else {
      assert word + y == y + "";
      TrimStartSkips(y, "");
    }
  }

  /**
   A line assigns its key when a key of at least one character stands before its first equals sign, with any
   blanks around key and value; a line without one, or with nothing before it, changes nothing.
   */
  lemma LineReads(a: Account, before: string, key: string, after: string, ahead: string, value: string, behind: string)
    requires AllBlank(before) && AllBlank(after) && AllBlank(ahead) && AllBlank(behind)
    requires key != "" && '=' !in key && Trim(key) && Trim(value)
    ensures var left, right := before + key + after, ahead + value + behind;
            ReadLine(a, left + "=" + right) == Assigned(a, KeyNamed(key), value) &&
            ReadLine(a, left) == a && ReadLine(a, "=" + right) == a
  {
    var left, right := before + key + after, ahead + value + behind;
    var line := left + "=" + right;
    PaddingGoes(before, key, after);
    PaddingGoes(ahead, value, behind);
    assert line[|left|] == '=' && line[..|left|] == left && line[|left| + 1..] == right;
    assert '=' !in left;
    assert Find(line, '=') == |left| by {
      assert forall i :: 0 <= i < |left| ==> line[i] == left[i];
    }
  }

  lemma {:induction false} EmptyIsSignedOut()
    ensures Parse("") == SIGNED_OUT
  {
    assert Split("", '\n') == [""];
    assert ReadLine(SIGNED_OUT, "") == SIGNED_OUT;
    assert [""][1..] == [];
  }

  // ---- The globals ----

  /**
   The globals, the files by profile ("" is the one from before profiles), and the profile the
   host says is active.
   */
  datatype State = State(loaded: bool, profile: string, account: Account, generation: nat,
                         files: map<string, string>, active: string)

  function ContentsOf(files: map<string, string>, profile: string): string {
    if profile in files then files[profile] else ""
  }

  /** A profile without a file of its own takes over the file from before profiles. */
  function Migrated(files: map<string, string>, profile: string): map<string, string> {
    if profile != "" && profile !in files && "" in files
    then files[profile := files[""]] - {""}
    else files
  }

  function Loaded(s: State): State {
    if s.loaded && s.active == s.profile then s
    else
      var files := Migrated(s.files, s.active);
      s.(loaded := true, profile := s.active, files := files, account := Parse(ContentsOf(files, s.active)),
         generation := if s.loaded then s.generation + 1 else s.generation)
  }

  /** A new account in memory and, under the profile the memory belongs to, on disk. */
  function Stored(s: State, a: Account): State {
    s.(account := a, generation := s.generation + 1, files := s.files[s.profile := Render(a)])
  }

  class OpenPakAccount {
    var loaded: bool
    var profile: string
    var account: Account
    var generation: nat
    var files: map<string, string>
    var active: string

    ghost function Now(): State
      reads this
    {
      State(loaded, profile, account, generation, files, active)
    }

    method EnsureLoaded()
      modifies this
      ensures Now() == Loaded(old(Now()))
    {
      if loaded && active == profile {
        return;
      }
      if loaded {
        generation := generation + 1;
      }
      loaded := true;
      profile := active;
      account := SIGNED_OUT;
      if profile != "" && profile !in files && "" in files {
        files := files[profile := files[""]] - {""};
      }
      ReadContents(if profile in files then files[profile] else "");
    }

    /** Line by line into the account in memory. */
    method ReadContents(contents: string)
      requires account == SIGNED_OUT
      modifies this`account
      ensures account == Parse(contents)
    {
      var lines := Split(contents, '\n');
      for i := 0 to |lines|
        invariant ReadLines(ReadLine, account, lines[i..]) == Parse(contents)
      {
        assert lines[i..][1..] == lines[i + 1..];
        account := ReadLine(account, lines[i]);
      }
    }

    method Save(a: Account)
      modifies this
      ensures Now() == Stored(Loaded(old(Now())), a)
    {
      EnsureLoaded();
      account := a;
      generation := generation + 1;
      files := files[profile := Render(account)];
    }

    /** Does not look at the active profile first. */
    method SaveBearerOnly(username: string, bearer: string)
      modifies this
      ensures Now() == Stored(old(Now()).(loaded := true), Account(0, username, "", "", bearer))
    {
      loaded := true;
      account := Account(0, username, "", "", bearer);
      generation := generation + 1;
      files := files[profile := Render(account)];
    }

    method Clear()
      modifies this
      ensures var s := Loaded(old(Now()));
              Now() == s.(account := SIGNED_OUT, generation := s.generation + 1, files := s.files - {s.profile})
    {
      EnsureLoaded();
      account := SIGNED_OUT;
      generation := generation + 1;
      files := files - {profile};
    }

    method Forget(forgotten: string)
      modifies this
      ensures Now() == Forgotten(old(Now()), forgotten)
    {
      files := files - {forgotten};
      if forgotten == profile {
        loaded := false;
        generation := generation + 1;
      }
    }

    /** What a caller sees: the generation, and the account that goes with it. */
    method Observe() returns (seenGeneration: nat, seen: Account)
      modifies this
      ensures Now() == Loaded(old(Now()))
      ensures seenGeneration == Now().generation && seen == Now().account
    {
      EnsureLoaded();
      return generation, account;
    }
  }

  function Forgotten(s: State, profile: string): State {
    var t := s.(files := s.files - {profile});
    if profile == s.profile then t.(loaded := false, generation := s.generation + 1) else t
  }

  // ---- Runs ----

  /** Anything may happen to the files between two steps: another process, a write that failed. */
  datatype Step =
    | Switch(profile: string)
    | Disturb(files: map<string, string>)
    | Look
    | SignIn(account: Account)
    | SignInBearer(username: string, bearer: string)
    | SignOut
    | Forget(profile: string)

  function After(s: State, step: Step): State {
    match step
    case Switch(profile) => s.(active := profile)
    case Disturb(files) => s.(files := files)
    case Look => Loaded(s)
    case SignIn(a) => Stored(Loaded(s), a)
    case SignInBearer(username, bearer) => Stored(s.(loaded := true), Account(0, username, "", "", bearer))
    case SignOut =>
      var t := Loaded(s);
      t.(account := SIGNED_OUT, generation := t.generation + 1, files := t.files - {t.profile})
    case Forget(profile) => Forgotten(s, profile)
  }

  function AfterAll(start: State, steps: seq<Step>): State {
    if steps == [] then start else After(AfterAll(start, steps[..|steps| - 1]), steps[|steps| - 1])
  }

  predicate Starting(s: State) {
    !s.loaded && s.generation == 0 && s.profile == ""
  }

  datatype Sighting = Sighting(generation: nat, account: Account)

  /** What the looks of a run saw. */
  function Sightings(start: State, steps: seq<Step>): seq<Sighting> {
    if steps == [] then []
    else
      var before, last := steps[..|steps| - 1], steps[|steps| - 1];
      var s := Loaded(AfterAll(start, before));
      Sightings(start, before) + (if last.Look? then [Sighting(s.generation, s.account)] else [])
  }

  /** No sighting is of a later generation; those of this one saw the account now in memory. */
  ghost predicate Consistent(s: State, seen: seq<Sighting>) {
    && (forall i :: 0 <= i < |seen| ==> seen[i].generation <= s.generation)
    && (forall i :: 0 <= i < |seen| && seen[i].generation == s.generation ==> s.loaded && seen[i].account == s.account)
    && (forall i, j :: 0 <= i < |seen| && 0 <= j < |seen| && seen[i].generation == seen[j].generation ==>
          seen[i].account == seen[j].account)
  }

  /** The counter moves with every change of the account; until it does, nothing changes. */
  predicate Keeps(s: State, t: State) {
    t.generation > s.generation ||
    (t.generation == s.generation && (s.loaded ==> t.loaded && t.account == s.account))
  }

  lemma StepsKeep(s: State, step: Step)
    ensures Keeps(s, After(s, step))
  {
  }

  lemma StaysConsistent(s: State, t: State, seen: seq<Sighting>)
    requires Consistent(s, seen) && Keeps(s, t)
    ensures Consistent(t, seen)
  {
  }

  lemma SightingIsConsistent(s: State, seen: seq<Sighting>)
    requires Consistent(s, seen) && s.loaded
    ensures Consistent(s, seen + [Sighting(s.generation, s.account)])
  {
  }

  lemma {:induction false} RunsAreConsistent(start: State, steps: seq<Step>)
    requires Starting(start)
    ensures Consistent(AfterAll(start, steps), Sightings(start, steps))
  {
    if steps != [] {
      var before, last := steps[..|steps| - 1], steps[|steps| - 1];
      var s := AfterAll(start, before);
      RunsAreConsistent(start, before);
      StepsKeep(s, last);
      StaysConsistent(s, After(s, last), Sightings(start, before));
      if last.Look? {
        SightingIsConsistent(Loaded(s), Sightings(start, before));
      }
    }
  }

  /**
   Whatever a run does, two looks at the same generation see the same account; so a cache keyed
   on the generation is never stale.
   */
  lemma SameGenerationSameAccount(start: State, steps: seq<Step>, i: nat, j: nat)
    requires Starting(start) && i < |Sightings(start, steps)| && j < |Sightings(start, steps)|
    requires Sightings(start, steps)[i].generation == Sightings(start, steps)[j].generation
    ensures Sightings(start, steps)[i] == Sightings(start, steps)[j]
  {
    RunsAreConsistent(start, steps);
  }

  // ---- What each step leaves ----

  /** A profile without a file of its own takes over the one from before profiles. */
  predicate TakesOver(s: State) {
    s.active !in s.files && "" in s.files
  }

  /**
   A look at the profile last loaded changes nothing. At another, the account is what its file says, else the
   file from before profiles, which is then its own, else nobody's; no other file is touched.
   */
  lemma LookExactly(s: State)
    ensures var t := After(s, Look);
            if s.loaded && s.active == s.profile then t == s
            else
              t.loaded && t.profile == t.active == s.active &&
              t.generation == s.generation + (if s.loaded then 1 else 0) &&
              t.account == (if s.active in s.files then Parse(s.files[s.active])
                            else if TakesOver(s) then Parse(s.files[""]) else SIGNED_OUT) &&
              t.files == (if TakesOver(s) then s.files[s.active := s.files[""]] - {""} else s.files)
  {
    EmptyIsSignedOut();
  }

  /** A sign-in is what every look sees, now and, with clean fields, after a restart; other files stay. */
  lemma SignInLasts(s: State, a: Account)
    requires a.pid < 0x1_0000_0000_0000_0000
    ensures var t := After(s, SignIn(a));
            After(t, Look) == t && t.account == a &&
            (After(t.(loaded := false), Look).account == a <==> CleanAccount(a)) &&
            forall p :: p !in {s.active, ""} ==>
              (p in t.files <==> p in s.files) && (p in t.files ==> t.files[p] == s.files[p])
  {
    FileRoundTrip(a);
  }

  /**
   A sign-out is what every look sees; after a restart too, unless the file from before profiles is still
   there for this profile to take over, and names somebody.
   */
  lemma SignOutLastsExactly(s: State)
    ensures var t := After(s, SignOut);
            After(t, Look) == t && t.account == SIGNED_OUT && s.active !in t.files &&
            (After(t.(loaded := false), Look).account == SIGNED_OUT <==>
               ("" in t.files ==> Parse(t.files[""]) == SIGNED_OUT))
    ensures var t := After(s, SignOut);
            "" in t.files <==>
            s.active != "" && "" in s.files && ((s.loaded && s.active == s.profile) || s.active in s.files)
  {
    EmptyIsSignedOut();
  }

  /** Forgetting takes that profile's file and no other; the account in memory goes only with its own. */
  lemma ForgetExactly(s: State, profile: string)
    ensures var t := After(s, Forget(profile));
            t.files.Keys == s.files.Keys - {profile} &&
            (forall p :: p in t.files ==> t.files[p] == s.files[p]) &&
            t.profile == s.profile && t.active == s.active &&
            (if profile == s.profile then !t.loaded && t.generation == s.generation + 1
             else t.loaded == s.loaded && t.generation == s.generation && t.account == s.account)
  {
  }

  // ---- Where a bearer-only sign-in lands ----

  /**
   A bearer-only sign-in is what the next look sees when the active profile is the one last
   loaded. Otherwise it went to that other profile's file, and the look sees what it would have
   seen without any sign-in; save that the file from before profiles may still be handed over.
   */
  lemma BearerSignInIsSeen(s: State, username: string, bearer: string)
    ensures var a := Account(0, username, "", "", bearer);
            var next := After(After(s, SignInBearer(username, bearer)), Look);
            next.account ==
            if s.active == s.profile then a
            else if s.profile == "" && s.active !in s.files then Parse(Render(a))
            else After(s, Look).account
  {
    var a := Account(0, username, "", "", bearer);
    var files := s.files[s.profile := Render(a)];
    if s.active != s.profile && !(s.profile == "" && s.active !in s.files) {
      assert ContentsOf(Migrated(files, s.active), s.active) == ContentsOf(Migrated(s.files, s.active), s.active);
    }
  }

  /** The other case is real: signed in on profile B, while A was the one last looked at. */
  lemma BearerSignInCanBeLost() returns (s: State)
    ensures s == AfterAll(State(false, "", SIGNED_OUT, 0, map[], "A"), [Look, Switch("B")])
    ensures var next := After(After(s, SignInBearer("me", "secret")), Look);
            next.account == SIGNED_OUT && next.files == map["A" := Render(Account(0, "me", "", "", "secret"))]
  {
    var start := State(false, "", SIGNED_OUT, 0, map[], "A");
    var steps := [Look, Switch("B")];
    assert steps[..1] == [Look] && steps[..1][..0] == [];
    assert AfterAll(start, [Look]) == Loaded(start);
    s := AfterAll(start, steps);
    EmptyIsSignedOut();
  }
}
