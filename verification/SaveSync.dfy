/**
 Cloud saves of save_sync.cpp with the version map of api.cpp, for one title. A small text file, the
 marker, claims which of the server's versions the local save comes from; the lemmas say when the claim
 is true.

 An archive stands for the files in it (see RoundTrip). The server's answers, whether an archive is
 accepted and whether a backup or a marker can be written are parameters.
 */
module SaveSync {
  import opened Basics
  import Decimal
  import Zip

  /** The files of a save; a folder without any counts as no save. */
  type Files = map<Zip.Path, Bytes>

  const NO_FILES: Files := map[]

  /** The answer to a download: nothing, or a version and a body, None for an empty one. */
  datatype Pulled = NoAnswer | Got(version: string, body: Option<Files>)

  /**
   The answer to an upload: refused, or stored under `key`. `number` is the text of the number the
   answer names; None when the answer does not parse, "0" when it parses and names none.
   */
  datatype Pushed = Refused | Stored(key: string, number: Option<string>)

  /** An upload as the server sees it: the base it names, "" for none, and the save. */
  datatype Upload = Upload(base: string, files: Files)

  /**
   The save folder and the marker's text, the map's version for the title, what the server holds,
   the saves captured and not yet pushed, and every upload sent so far.
   */
  datatype State = State(local: Files, marker: string, version: string, cloud: map<string, Files>,
                         pending: seq<Files>, uploads: seq<Upload>)

  // ---- The marker file ----

  predicate Trailing(c: char) {
    c == '\n' || c == '\r' || c == ' '
  }

  /** What ReadMarker makes of the file's text. */
  function Trimmed(text: string): (r: string)
    ensures r <= text && (r != "" ==> !Trailing(r[|r| - 1]))
    ensures text != "" && !Trailing(text[|text| - 1]) ==> r == text
  {
    if text != "" && Trailing(text[|text| - 1]) then Trimmed(text[..|text| - 1]) else text
  }

  /** A marker reads as its version whatever newlines, returns and spaces stand behind it. */
  lemma {:induction false} MarkerReads(version: string, behind: string)
    requires forall i :: 0 <= i < |behind| ==> behind[i] in "\n\r "
    requires version != "" ==> version[|version| - 1] !in "\n\r "
    ensures Trimmed(version + behind) == version
  {
    if behind == "" {
      assert version + behind == version;
    } else {
      var text := version + behind;
      assert text[..|text| - 1] == version + behind[..|behind| - 1];
      MarkerReads(version, behind[..|behind| - 1]);
    }
  }

  function Marked(text: string, version: string, writes: bool): string {
    if version != "" && writes then version else text
  }

  // ---- What each operation does ----

  function Replaced(s: State, files: Files, version: string, writes: bool): State {
    s.(local := files, marker := Marked(s.marker, version, writes))
  }

  /** How putting a cloud copy in place goes. */
  datatype Luck = Luck(backs: bool, unzips: bool, writes: bool)

  function Applied(s: State, files: Files, version: string, luck: Luck): (bool, State) {
    if (s.local != NO_FILES && !luck.backs) || !luck.unzips then (false, s)
    else (true, Replaced(s, files, version, luck.writes))
  }

  /** PullSave: the version goes into the map whenever the server sends a save. */
  function AfterAnswer(s: State, answer: Pulled): State {
    if answer.Got? then s.(version := answer.version) else s
  }

  datatype Outcome = Nothing | Taken | BothExist

  function PulledBeforeLaunch(s: State, answer: Pulled, wanted: bool, luck: Luck): (Outcome, State) {
    var t := AfterAnswer(s, answer);
    if answer.NoAnswer? || answer.body.None? then (Nothing, t)
    else
      var known, local := Trimmed(t.marker), t.local != NO_FILES;
      if local && t.version == known then (Nothing, t)
      else if local && known == "" then (BothExist, t)
      else if !wanted then (Nothing, t)
      else
        var (applied, u) := Applied(t, answer.body.value, t.version, luck);
        (if applied then Taken else Nothing, u)
  }

  function Downloaded(s: State, answer: Pulled, luck: Luck): (bool, State) {
    var t := AfterAnswer(s, answer);
    if answer.NoAnswer? || answer.body.None? then (false, t)
    else Applied(t, answer.body.value, t.version, luck)
  }

  /** PushSave: the map's version is the base, and the answer's number replaces it. */
  function PushedSave(s: State, files: Files, answer: Pushed): (bool, State) {
    var t := s.(uploads := s.uploads + [Upload(s.version, files)]);
    match answer
    case Refused => (false, t)
    case Stored(key, number) =>
      var u := t.(cloud := t.cloud[key := files]);
      (true, if number.Some? then u.(version := number.value) else u)
  }

  function PushedAndMarked(s: State, files: Files, answer: Pushed, writes: bool): (bool, State) {
    var (stored, t) := PushedSave(s, files, answer);
    if stored then (true, t.(marker := Marked(t.marker, t.version, writes))) else (false, t)
  }

  /** A marker goes before the map's version. */
  function Based(s: State): State {
    var known := Trimmed(s.marker);
    if known != "" then s.(version := known) else s
  }

  function PushedCaptured(s: State, files: Files, answer: Pushed, writes: bool): (bool, State) {
    PushedAndMarked(Based(s), files, answer, writes)
  }

  function Uploaded(s: State, newest: int, answer: Pushed, writes: bool): (bool, State) {
    if s.local == NO_FILES then (false, s)
    else
      PushedAndMarked(s.(version := if newest > 0 then Decimal.ToString(newest) else ""), s.local, answer, writes)
  }

  // ---- The code ----

  class SaveFolder {
    var local: Files
    var marker: string
    var version: string
    var cloud: map<string, Files>
    ghost var pending: seq<Files>
    ghost var uploads: seq<Upload>

    ghost function Now(): State
      reads this
    {
      State(local, marker, version, cloud, pending, uploads)
    }

    constructor ()
      ensures Now() == State(NO_FILES, "", "", map[], [], [])
    {
      local, marker, version, cloud, pending, uploads := NO_FILES, "", "", map[], [], [];
    }

    method ReadMarker() returns (known: string)
      ensures known == Trimmed(marker)
    {
      known := marker;
      while known != "" && Trailing(known[|known| - 1])
        invariant Trimmed(known) == Trimmed(marker)
        decreases |known|
      {
        known := known[..|known| - 1];
      }
    }

    method WriteMarker(text: string, writes: bool)
      modifies this`marker
      ensures marker == Marked(old(marker), text, writes)
    {
      if text != "" && writes {
        marker := text;
      }
    }

    method PullSave(answer: Pulled) returns (files: Option<Files>)
      modifies this`version
      ensures Now() == AfterAnswer(old(Now()), answer)
      ensures files == if answer.Got? then answer.body else None
    {
      if answer.NoAnswer? {
        return None;
      }
      version := answer.version;
      return answer.body;
    }

    method PushSave(files: Files, answer: Pushed) returns (stored: bool)
      modifies this
      ensures (stored, Now()) == PushedSave(old(Now()), files, answer)
    {
      uploads := uploads + [Upload(version, files)];
      if answer.Refused? {
        return false;
      }
      cloud := cloud[answer.key := files];
      if answer.number.Some? {
        version := answer.number.value;
      }
      return true;
    }

    method ApplyCloud(files: Files, named: string, luck: Luck) returns (applied: bool)
      modifies this
      ensures (applied, Now()) == Applied(old(Now()), files, named, luck)
    {
      if local != NO_FILES {
        if !luck.backs {
          return false;
        }
      }
      if !luck.unzips {
        return false;
      }
      local := files;
      WriteMarker(named, luck.writes);
      return true;
    }

    method PullBeforeLaunch(answer: Pulled, wanted: bool, luck: Luck) returns (outcome: Outcome)
      modifies this
      ensures (outcome, Now()) == PulledBeforeLaunch(old(Now()), answer, wanted, luck)
    {
      var files := PullSave(answer);
      if files.None? {
        return Nothing;
      }
      var named := version;
      var known := ReadMarker();
      var here := local != NO_FILES;
      if here && named == known {
        return Nothing;
      }
      if here && known == "" {
        return BothExist;
      }
      if !wanted {
        return Nothing;
      }
      var applied := ApplyCloud(files.value, named, luck);
      return if applied then Taken else Nothing;
    }

    /** The files as they are at exit; None for an empty save. */
    method CaptureOnExit() returns (files: Option<Files>)
      modifies this`pending
      ensures files == if local == NO_FILES then None else Some(local)
      ensures pending == if local == NO_FILES then old(pending) else old(pending) + [local]
    {
      if local == NO_FILES {
        return None;
      }
      pending := pending + [local];
      return Some(local);
    }

    method PushCaptured(files: Files, answer: Pushed, writes: bool) returns (stored: bool)
      modifies this
      ensures (stored, Now()) == PushedCaptured(old(Now()), files, answer, writes)
    {
      var known := ReadMarker();
      if known != "" {
        version := known;
      }
      stored := PushSave(files, answer);
      if !stored {
        return;
      }
      WriteMarker(version, writes);
    }

    method Download(answer: Pulled, luck: Luck) returns (done: bool)
      modifies this
      ensures (done, Now()) == Downloaded(old(Now()), answer, luck)
    {
      var files := PullSave(answer);
      if files.None? {
        return false;
      }
      done := ApplyCloud(files.value, version, luck);
    }

    method UploadNow(newest: int, answer: Pushed, writes: bool) returns (done: bool)
      modifies this
      ensures (done, Now()) == Uploaded(old(Now()), newest, answer, writes)
    {
      if local == NO_FILES {
        return false;
      }
      version := if newest > 0 then Decimal.ToString(newest) else "";
      done := PushSave(local, answer);
      if !done {
        return;
      }
      WriteMarker(version, writes);
    }
  }

  predicate Named(version: string) {
    version != "" && !Trailing(version[|version| - 1])
  }

  /** The download names the version whose files it carries. */
  predicate Truthful(s: State, answer: Pulled) {
    answer.Got? ==> Named(answer.version) && answer.version in s.cloud &&
                    (answer.body.Some? ==> answer.body.value == s.cloud[answer.version])
  }

  /** The upload is stored as a new version, and the answer names it. */
  predicate Answered(s: State, answer: Pushed) {
    answer.Stored? ==> Named(answer.key) && answer.key !in s.cloud && answer.number == Some(answer.key)
  }

  /**
   Before a launch the cloud copy is taken whole, with its marker, or local save and marker stay as
   they were; a save that has no marker, or is in step, is never replaced.
   */
  lemma PullTakesOrLeaves(s: State, pulled: Pulled, wanted: bool, luck: Luck)
    requires Truthful(s, pulled) && luck.writes
    ensures var (outcome, t) := PulledBeforeLaunch(s, pulled, wanted, luck);
            (outcome.Taken? ==> pulled.Got? && wanted && t.local == s.cloud[pulled.version] &&
                                Trimmed(t.marker) == pulled.version) &&
            (!outcome.Taken? ==> t.local == s.local && t.marker == s.marker) &&
            (s.local != NO_FILES &&
             (Trimmed(s.marker) == "" || (pulled.Got? && Trimmed(s.marker) == pulled.version)) ==>
               !outcome.Taken?)
  {
  }

  /**
   The cloud copy is taken exactly when the server sent a save, the host still waits, and nothing here is
   at stake -- no local save, or one whose marker names another version than the one sent -- provided a
   local save can be backed up and the archive is accepted. All of it is said of the state before.
   */
  lemma TakenExactly(s: State, pulled: Pulled, wanted: bool, luck: Luck)
    ensures var (outcome, t) := PulledBeforeLaunch(s, pulled, wanted, luck);
            (outcome.Taken? <==>
               pulled.Got? && pulled.body.Some? && wanted &&
               (s.local == NO_FILES || (Trimmed(s.marker) !in {"", pulled.version} && luck.backs)) && luck.unzips) &&
            (outcome.Taken? ==>
               t == s.(version := pulled.version, local := pulled.body.value,
                       marker := if pulled.version != "" && luck.writes then pulled.version else s.marker))
  {
  }

  /** Both exist exactly when a save without a marker meets a sent save that has a version. */
  lemma BothExistExactly(s: State, pulled: Pulled, wanted: bool, luck: Luck)
    ensures var (outcome, t) := PulledBeforeLaunch(s, pulled, wanted, luck);
            (outcome.BothExist? <==>
               s.local != NO_FILES && Trimmed(s.marker) == "" &&
               pulled.Got? && pulled.body.Some? && pulled.version != "") &&
            (!outcome.Taken? ==> t == if pulled.Got? then s.(version := pulled.version) else s)
  {
  }

  /** A download takes whatever the server sends, marker or not. */
  lemma DownloadedExactly(s: State, pulled: Pulled, luck: Luck)
    ensures var (done, t) := Downloaded(s, pulled, luck);
            (done <==> pulled.Got? && pulled.body.Some? && (s.local == NO_FILES || luck.backs) && luck.unzips) &&
            t.version == (if pulled.Got? then pulled.version else s.version) &&
            t.local == (if done then pulled.body.value else s.local) &&
            t.marker == (if done && pulled.version != "" && luck.writes then pulled.version else s.marker) &&
            t.cloud == s.cloud && t.pending == s.pending && t.uploads == s.uploads
  {
  }

  /**
   A push: the base is the marker's version, or without a marker the map's. Stored, the cloud has the save
   under its key, the map has the answer's number, and the marker too; refused, only the base is known.
   */
  lemma PushedExactly(s: State, files: Files, answer: Pushed, writes: bool)
    ensures var (stored, t) := PushedCaptured(s, files, answer, writes);
            var base := if Trimmed(s.marker) == "" then s.version else Trimmed(s.marker);
            var now := if answer.Stored? && answer.number.Some? then answer.number.value else base;
            (stored <==> answer.Stored?) &&
            t == s.(uploads := s.uploads + [Upload(base, files)], version := now,
                    cloud := if stored then s.cloud[answer.key := files] else s.cloud,
                    marker := if stored && now != "" && writes then now else s.marker)
  {
  }

  /** Upload sends the local save, if there is one, over the newest cloud version, whatever the marker says. */
  lemma UploadedExactly(s: State, newest: int, answer: Pushed, writes: bool)
    ensures var (done, t) := Uploaded(s, newest, answer, writes);
            var base := if newest > 0 then Decimal.ToString(newest) else "";
            var now := if answer.Stored? && answer.number.Some? then answer.number.value else base;
            (done <==> s.local != NO_FILES && answer.Stored?) &&
            t == (if s.local == NO_FILES then s
                  else s.(uploads := s.uploads + [Upload(base, s.local)], version := now,
                          cloud := if done then s.cloud[answer.key := s.local] else s.cloud,
                          marker := if done && now != "" && writes then now else s.marker))
  {
  }

  /** Upload names the newest cloud version as base whatever the marker says, and keeps the local save. */
  lemma UploadKeepsLocal(s: State, newest: nat, answer: Pushed)
    requires s.local != NO_FILES && Answered(s, answer) && answer.Stored?
    ensures var (done, t) := Uploaded(s, newest, answer, true);
            done && t.local == s.local && t.cloud == s.cloud[answer.key := s.local] &&
            Trimmed(t.marker) == answer.key &&
            t.uploads == s.uploads + [Upload(if newest == 0 then "" else Decimal.ToString(newest), s.local)]
  {
  }

  // ---- Runs ----

  datatype Step =
    | Play(files: Files)
    | Capture
    | Push(i: nat, answer: Pushed, writes: bool)
    | PullFirst(pulled: Pulled, wanted: bool, luck: Luck)
    | Take(pulled: Pulled, luck: Luck)
    | Send(newest: int, answer: Pushed, writes: bool)
    | Elsewhere(key: string, files: Files)
    | Restart

  function Captured(s: State): Option<Files> {
    if s.local == NO_FILES then None else Some(s.local)
  }

  /** A list kept in step with the pending saves: a capture adds, a push takes one, a restart forgets. */
  function Kept<T>(list: seq<T>, step: Step, captured: Option<T>): seq<T> {
    match step
    case Capture => if captured.None? then list else list + [captured.value]
    case Push(i, _, _) => if i >= |list| then list else list[..i] + list[i + 1..]
    case Restart => []
    case _ => list
  }

  function After(s: State, step: Step): State {
    match step
    case Play(files) => s.(local := files)
    case Capture => s.(pending := Kept(s.pending, step, Captured(s)))
    case Push(i, answer, writes) =>
      if i >= |s.pending| then s
      else PushedCaptured(s.(pending := Kept(s.pending, step, None)), s.pending[i], answer, writes).1
    case PullFirst(pulled, wanted, luck) => PulledBeforeLaunch(s, pulled, wanted, luck).1
    case Take(pulled, luck) => Downloaded(s, pulled, luck).1
    case Send(newest, answer, writes) => Uploaded(s, newest, answer, writes).1
    case Elsewhere(key, files) => if key in s.cloud then s else s.(cloud := s.cloud[key := files])
    case Restart => s.(version := "", pending := [])
  }

  /** The step puts a cloud copy in place of the local save. */
  predicate Replaces(s: State, step: Step) {
    match step
    case PullFirst(pulled, wanted, luck) => PulledBeforeLaunch(s, pulled, wanted, luck).0.Taken?
    case Take(pulled, luck) => Downloaded(s, pulled, luck).0
    case _ => false
  }

  function Run(begin: State, steps: seq<Step>): State {
    if steps == [] then begin else After(Run(begin, steps[..|steps| - 1]), steps[|steps| - 1])
  }

  /** How many steps it took until the local save was last replaced; 0 when it never was. */
  function LastReplacement(begin: State, steps: seq<Step>): (r: nat)
    ensures r <= |steps|
  {
    if steps == [] then 0
    else
      var before := steps[..|steps| - 1];
      if Replaces(Run(begin, before), steps[|steps| - 1]) then |steps| else LastReplacement(begin, before)
  }

  /** The local save had these contents at some point since it last was replaced. */
  predicate Had(begin: State, steps: seq<Step>, files: Files) {
    exists j :: LastReplacement(begin, steps) <= j <= |steps| && Run(begin, steps[..j]).local == files
  }

  /** A marker names a cloud version that the local save once equalled, with only play since. */
  predicate Honest(begin: State, steps: seq<Step>) {
    var s := Run(begin, steps);
    var known := Trimmed(s.marker);
    known != "" ==> known in s.cloud && Had(begin, steps, s.cloud[known])
  }

  lemma RunStep(begin: State, steps: seq<Step>, step: Step)
    ensures Run(begin, steps + [step]) == After(Run(begin, steps), step)
    ensures LastReplacement(begin, steps + [step]) ==
            if Replaces(Run(begin, steps), step) then |steps| + 1 else LastReplacement(begin, steps)
  {
    assert (steps + [step])[..|steps|] == steps;
  }

  /** An upload leaves the save alone; the marker becomes the version named, if any. */
  lemma PushLeaves(s: State, files: Files, answer: Pushed, writes: bool)
    ensures var t := PushedAndMarked(s, files, answer, writes).1;
            t.local == s.local && t.pending == s.pending &&
            t.cloud == (if answer.Stored? then s.cloud[answer.key := files] else s.cloud) &&
            t.marker == if answer.Refused? then s.marker
                        else Marked(s.marker, if answer.number.Some? then answer.number.value else s.version, writes)
  {
  }

  /** A pull or download leaves all alone but the map's version, unless it replaces the save. */
  lemma TakeLeaves(s: State, pulled: Pulled, luck: Luck)
    ensures var (done, t) := Downloaded(s, pulled, luck);
            t.pending == s.pending && t.cloud == s.cloud &&
            (!done ==> t.local == s.local && t.marker == s.marker) &&
            (done ==> pulled.Got? && pulled.body.Some? && t.local == pulled.body.value &&
                      t.marker == Marked(s.marker, pulled.version, luck.writes))
  {
  }

  lemma PullLeaves(s: State, pulled: Pulled, wanted: bool, luck: Luck)
    ensures var (outcome, t) := PulledBeforeLaunch(s, pulled, wanted, luck);
            t.pending == s.pending && t.cloud == s.cloud &&
            (!outcome.Taken? ==> t.local == s.local && t.marker == s.marker) &&
            (outcome.Taken? ==> pulled.Got? && pulled.body.Some? && t.local == pulled.body.value &&
                                t.marker == Marked(s.marker, pulled.version, luck.writes))
  {
  }

  /** What any step leaves of the local save and of the pending ones. */
  lemma StepLeaves(s: State, step: Step)
    ensures After(s, step).local != s.local ==> step.Play? || Replaces(s, step)
    ensures After(s, step).pending == Kept(s.pending, step, Captured(s))
  {
    match step
    case Push(i, answer, writes) =>
      if i < |s.pending| {
        var t := s.(pending := Kept(s.pending, step, None));
        PushLeaves(Based(t), s.pending[i], answer, writes);
      }
    case PullFirst(pulled, wanted, luck) => PullLeaves(s, pulled, wanted, luck);
    case Take(pulled, luck) => TakeLeaves(s, pulled, luck);
    case Send(newest, answer, writes) =>
      PushLeaves(s.(version := if newest > 0 then Decimal.ToString(newest) else ""), s.local, answer, writes);
    case _ =>
  }

  /** Since it last was replaced nothing but play has changed the local save. */
  lemma {:induction false} OnlyPlaySince(begin: State, steps: seq<Step>, i: nat)
    requires LastReplacement(begin, steps) <= i < |steps|
    ensures !Replaces(Run(begin, steps[..i]), steps[i])
    ensures Run(begin, steps[..i + 1]).local != Run(begin, steps[..i]).local ==> steps[i].Play?
    decreases |steps|
  {
    var before := steps[..|steps| - 1];
    if i < |before| {
      OnlyPlaySince(begin, before, i);
      assert before[..i] == steps[..i] && before[..i + 1] == steps[..i + 1];
    } else {
      assert steps[..i] == before && steps[..i + 1] == steps;
      StepLeaves(Run(begin, before), steps[i]);
    }
  }

  lemma HasNow(begin: State, steps: seq<Step>)
    ensures Had(begin, steps, Run(begin, steps).local)
  {
    assert steps[..|steps|] == steps;
  }

  lemma Earlier(steps: seq<Step>, step: Step, j: nat)
    requires j <= |steps|
    ensures (steps + [step])[..j] == steps[..j]
  {
  }

  /** One more step: the contents it leaves, and, unless it replaced the save, those before it. */
  lemma HadStep(begin: State, steps: seq<Step>, step: Step, files: Files)
    ensures Had(begin, steps + [step], files) <==>
            After(Run(begin, steps), step).local == files ||
            (!Replaces(Run(begin, steps), step) && Had(begin, steps, files))
  {
    var more := steps + [step];
    RunStep(begin, steps, step);
    HasNow(begin, more);
    if Had(begin, more, files) {
      var j :| LastReplacement(begin, more) <= j <= |more| && Run(begin, more[..j]).local == files;
      if j == |more| {
        assert more[..j] == more;
      } else {
        Earlier(steps, step, j);
        assert Had(begin, steps, files);
      }
    }
    if Had(begin, steps, files) && !Replaces(Run(begin, steps), step) {
      var j :| LastReplacement(begin, steps) <= j <= |steps| && Run(begin, steps[..j]).local == files;
      Earlier(steps, step, j);
    }
  }

  // ---- When a pending save was captured ----

  /** For each pending save the number of steps before its capture. */
  function Captures(begin: State, steps: seq<Step>): seq<nat> {
    if steps == [] then []
    else
      var before := steps[..|steps| - 1];
      Kept(Captures(begin, before), steps[|steps| - 1],
           if Run(begin, before).local == NO_FILES then None else Some(|before|))
  }

  ghost predicate Paired<T, U>(a: seq<T>, b: seq<U>, same: (T, U) -> bool) {
    |a| == |b| && forall i :: 0 <= i < |a| ==> same(a[i], b[i])
  }

  lemma KeptTogether<T, U>(a: seq<T>, b: seq<U>, step: Step, x: Option<T>, y: Option<U>, same: (T, U) -> bool)
    requires Paired(a, b, same) && (x.Some? <==> y.Some?) && (x.Some? ==> same(x.value, y.value))
    ensures Paired(Kept(a, step, x), Kept(b, step, y), same)
  {
  }

  function CapturedThen(begin: State, steps: seq<Step>): (nat, Files) -> bool {
    (j: nat, files: Files) => j < |steps| && Run(begin, steps[..j]).local == files
  }

  lemma {:induction false} CapturesAre(begin: State, steps: seq<Step>)
    requires begin.pending == []
    ensures Paired(Captures(begin, steps), Run(begin, steps).pending, CapturedThen(begin, steps))
  {
    if steps != [] {
      var before, step := steps[..|steps| - 1], steps[|steps| - 1];
      var s, caps := Run(begin, before), Captures(begin, before);
      CapturesAre(begin, before);
      assert forall j :: 0 <= j < |before| ==> before[..j] == steps[..j];
      assert Paired(caps, s.pending, CapturedThen(begin, steps));
      StepLeaves(s, step);
      KeptTogether<nat, Files>(caps, s.pending, step, if s.local == NO_FILES then None else Some(|before|), Captured(s),
                   CapturedThen(begin, steps));
    }
  }

  // ---- When the promise is kept ----

  lemma TrimmedStays(text: string)
    ensures Trimmed(Trimmed(text)) == Trimmed(text)
  {
  }

  /** Once `files` are stored under `key`: a marker of this version names what the local save had. */
  predicate Fits(begin: State, steps: seq<Step>, key: string, files: Files, version: string) {
    var s := Run(begin, steps);
    version == "" ||
    (if version == key then Had(begin, steps, files) else version in s.cloud && Had(begin, steps, s.cloud[version]))
  }

  lemma HonestAfterUpload(begin: State, steps: seq<Step>, step: Step, key: string, files: Files, version: string)
    requires var s, t := Run(begin, steps), After(Run(begin, steps), step);
             t.local == s.local && t.cloud == s.cloud[key := files] && Trimmed(t.marker) == version
    requires !Replaces(Run(begin, steps), step)
    ensures Honest(begin, steps + [step]) <==> Fits(begin, steps, key, files, version)
  {
    RunStep(begin, steps, step);
    HasNow(begin, steps);
    var t := After(Run(begin, steps), step);
    if version in t.cloud {
      HadStep(begin, steps, step, t.cloud[version]);
    }
  }

  /** What a push of a pending save, its marker written, leaves: the cloud and the version named. */
  lemma HonestAfterPush(begin: State, steps: seq<Step>, i: nat, key: string, number: Option<string>, text: string)
    requires i < |Run(begin, steps).pending|
    requires var s := Run(begin, steps);
             text == Marked(s.marker, if number.Some? then number.value else Based(s).version, true)
    ensures Honest(begin, steps + [Push(i, Stored(key, number), true)]) <==>
            Fits(begin, steps, key, Run(begin, steps).pending[i], Trimmed(text))
  {
    var s, step := Run(begin, steps), Push(i, Stored(key, number), true);
    PushLeaves(Based(s.(pending := Kept(s.pending, step, None))), s.pending[i], step.answer, true);
    HonestAfterUpload(begin, steps, step, key, s.pending[i], Trimmed(text));
  }

  /**
   A push whose answer names its new version keeps the promise exactly when what it sends was
   captured since the local save last was replaced, or the save has had the same contents since.
   */
  lemma PushIsHonestExactly(begin: State, steps: seq<Step>, i: nat, key: string)
    requires begin.pending == [] && i < |Run(begin, steps).pending| && Named(key)
    ensures i < |Captures(begin, steps)|
    ensures Honest(begin, steps + [Push(i, Stored(key, Some(key)), true)]) <==>
            LastReplacement(begin, steps) <= Captures(begin, steps)[i] ||
            Had(begin, steps, Run(begin, steps).pending[i])
  {
    CapturesAre(begin, steps);
    HonestAfterPush(begin, steps, i, key, Some(key), key);
  }

  /**
   A push whose answer does not parse keeps the promise exactly when there is a marker -- unless its
   version is written over by something the save never was -- or when the map's version, which the
   marker then takes, is none or one the save had.
   */
  lemma UnreadAnswerExactly(begin: State, steps: seq<Step>, i: nat, key: string)
    requires Honest(begin, steps) && i < |Run(begin, steps).pending|
    ensures var s := Run(begin, steps);
            Honest(begin, steps + [Push(i, Stored(key, None), true)]) <==>
            if Trimmed(s.marker) != "" then Trimmed(s.marker) != key || Had(begin, steps, s.pending[i])
            else Fits(begin, steps, key, s.pending[i], Trimmed(s.version))
  {
    var s := Run(begin, steps);
    TrimmedStays(s.marker);
    HonestAfterPush(begin, steps, i, key, None, Marked(s.marker, Based(s).version, true));
  }

  /** An answer that parses but has no number names version "0": fine only if the save had that. */
  lemma NumberlessAnswerExactly(begin: State, steps: seq<Step>, i: nat, key: string)
    requires i < |Run(begin, steps).pending|
    ensures Honest(begin, steps + [Push(i, Stored(key, Some("0")), true)]) <==>
            Fits(begin, steps, key, Run(begin, steps).pending[i], "0")
  {
    HonestAfterPush(begin, steps, i, key, Some("0"), "0");
  }

  lemma HonestAfterSend(begin: State, steps: seq<Step>, newest: int, key: string, number: Option<string>, text: string)
    requires Run(begin, steps).local != NO_FILES
    requires text == Marked(Run(begin, steps).marker,
                            if number.Some? then number.value else if newest > 0 then Decimal.ToString(newest) else "",
                            true)
    ensures Honest(begin, steps + [Send(newest, Stored(key, number), true)]) <==>
            Fits(begin, steps, key, Run(begin, steps).local, Trimmed(text))
  {
    var s, step := Run(begin, steps), Send(newest, Stored(key, number), true);
    PushLeaves(s.(version := if newest > 0 then Decimal.ToString(newest) else ""), s.local, step.answer, true);
    HonestAfterUpload(begin, steps, step, key, s.local, Trimmed(text));
  }

  /**
   Upload with an answer that does not parse leaves the marker at the version it was based on: fine
   exactly when there was none, it is the one just stored, or the save had that version too.
   */
  lemma UnreadUploadExactly(begin: State, steps: seq<Step>, newest: int, key: string)
    requires Honest(begin, steps) && Run(begin, steps).local != NO_FILES
    ensures var cloud, base := Run(begin, steps).cloud, if newest > 0 then Decimal.ToString(newest) else "";
            Honest(begin, steps + [Send(newest, Stored(key, None), true)]) <==>
            base == "" || base == key || (base in cloud && Had(begin, steps, cloud[base]))
  {
    var s, base := Run(begin, steps), if newest > 0 then Decimal.ToString(newest) else "";
    HasNow(begin, steps);
    assert base != "" ==> Decimal.IsDigit(base[|base| - 1]);
    HonestAfterSend(begin, steps, newest, key, None, Marked(s.marker, base, true));
  }

  lemma NumberlessUploadExactly(begin: State, steps: seq<Step>, newest: int, key: string)
    requires Run(begin, steps).local != NO_FILES
    ensures var cloud := Run(begin, steps).cloud;
            Honest(begin, steps + [Send(newest, Stored(key, Some("0")), true)]) <==>
            key == "0" || ("0" in cloud && Had(begin, steps, cloud["0"]))
  {
    HasNow(begin, steps);
    HonestAfterSend(begin, steps, newest, key, Some("0"), "0");
  }

  /** A cloud copy in place whose marker cannot be written: fine exactly when the old marker fits it. */
  lemma UnwrittenMarkerExactly(begin: State, steps: seq<Step>, step: Step)
    requires Honest(begin, steps) && Replaces(Run(begin, steps), step) && !step.luck.writes
    ensures var s := Run(begin, steps);
            Honest(begin, steps + [step]) <==>
            Trimmed(s.marker) == "" || s.cloud[Trimmed(s.marker)] == After(s, step).local
  {
    var s := Run(begin, steps);
    var known := Trimmed(s.marker);
    if step.Take? {
      TakeLeaves(s, step.pulled, step.luck);
    } else {
      PullLeaves(s, step.pulled, step.wanted, step.luck);
    }
    RunStep(begin, steps, step);
    if known != "" {
      HadStep(begin, steps, step, s.cloud[known]);
    }
  }

  // ---- Ordinary runs ----

  /**
   A step as the marker relies on it: the server's answers name what they are about, a cloud copy in
   place has its marker, and no push sends what was captured before the save last was replaced.
   */
  predicate OrdinaryAt(begin: State, steps: seq<Step>, step: Step) {
    var s := Run(begin, steps);
    match step
    case Push(i, answer, _) =>
      Answered(s, answer) &&
      (i < |Captures(begin, steps)| ==> LastReplacement(begin, steps) <= Captures(begin, steps)[i])
    case PullFirst(pulled, _, luck) => Truthful(s, pulled) && (Replaces(s, step) ==> luck.writes)
    case Take(pulled, luck) => Truthful(s, pulled) && (Replaces(s, step) ==> luck.writes)
    case Send(_, answer, _) => Answered(s, answer)
    case _ => true
  }

  /** No marker and nothing pending yet; whatever the cloud and the folder hold. */
  predicate Fresh(begin: State) {
    Trimmed(begin.marker) == "" && begin.pending == []
  }

  predicate AllOrdinary(begin: State, steps: seq<Step>) {
    forall i :: 0 <= i < |steps| ==> OrdinaryAt(begin, steps[..i], steps[i])
  }

  /** The marker after an upload that was answered: the new version, or, unwritten, the old one. */
  lemma UploadStaysHonest(begin: State, steps: seq<Step>, step: Step, key: string, files: Files, writes: bool)
    requires Honest(begin, steps) && Named(key) && key !in Run(begin, steps).cloud && Had(begin, steps, files)
    requires var s, t := Run(begin, steps), After(Run(begin, steps), step);
             t.local == s.local && t.cloud == s.cloud[key := files] && t.marker == Marked(s.marker, key, writes)
    requires !Replaces(Run(begin, steps), step)
    ensures Honest(begin, steps + [step])
  {
    HonestAfterUpload(begin, steps, step, key, files, Trimmed(Marked(Run(begin, steps).marker, key, writes)));
  }

  /** A step that touches neither marker nor the versions the cloud has. */
  lemma OtherStaysHonest(begin: State, steps: seq<Step>, step: Step)
    requires Honest(begin, steps) && !Replaces(Run(begin, steps), step)
    requires var s, t := Run(begin, steps), After(Run(begin, steps), step);
             t.marker == s.marker && forall v :: v in s.cloud ==> v in t.cloud && t.cloud[v] == s.cloud[v]
    ensures Honest(begin, steps + [step])
  {
    var s := Run(begin, steps);
    RunStep(begin, steps, step);
    if Trimmed(s.marker) != "" {
      HadStep(begin, steps, step, s.cloud[Trimmed(s.marker)]);
    }
  }

  /** A cloud copy in place with its marker. */
  lemma ReplacedIsHonest(begin: State, steps: seq<Step>, step: Step, version: string)
    requires var s, t := Run(begin, steps), After(Run(begin, steps), step);
             Named(version) && t.marker == version && version in t.cloud && t.cloud[version] == t.local
    ensures Honest(begin, steps + [step])
  {
    RunStep(begin, steps, step);
    HasNow(begin, steps + [step]);
  }

  lemma PushStaysHonest(begin: State, steps: seq<Step>, i: nat, answer: Pushed, writes: bool)
    requires begin.pending == [] && Honest(begin, steps) && OrdinaryAt(begin, steps, Push(i, answer, writes))
    ensures Honest(begin, steps + [Push(i, answer, writes)])
  {
    var s, step := Run(begin, steps), Push(i, answer, writes);
    if i < |s.pending| {
      CapturesAre(begin, steps);
      PushLeaves(Based(s.(pending := Kept(s.pending, step, None))), s.pending[i], answer, writes);
      if answer.Stored? {
        UploadStaysHonest(begin, steps, step, answer.key, s.pending[i], writes);
      } else {
        OtherStaysHonest(begin, steps, step);
      }
    } else {
      OtherStaysHonest(begin, steps, step);
    }
  }

  lemma SendStaysHonest(begin: State, steps: seq<Step>, newest: int, answer: Pushed, writes: bool)
    requires Honest(begin, steps) && OrdinaryAt(begin, steps, Send(newest, answer, writes))
    ensures Honest(begin, steps + [Send(newest, answer, writes)])
  {
    var s, step := Run(begin, steps), Send(newest, answer, writes);
    HasNow(begin, steps);
    PushLeaves(s.(version := if newest > 0 then Decimal.ToString(newest) else ""), s.local, answer, writes);
    if s.local != NO_FILES && answer.Stored? {
      UploadStaysHonest(begin, steps, step, answer.key, s.local, writes);
    } else {
      OtherStaysHonest(begin, steps, step);
    }
  }

  lemma TakeStaysHonest(begin: State, steps: seq<Step>, step: Step)
    requires (step.Take? || step.PullFirst?) && Honest(begin, steps) && OrdinaryAt(begin, steps, step)
    ensures Honest(begin, steps + [step])
  {
    var s := Run(begin, steps);
    if step.Take? {
      TakeLeaves(s, step.pulled, step.luck);
    } else {
      PullLeaves(s, step.pulled, step.wanted, step.luck);
    }
    if Replaces(s, step) {
      ReplacedIsHonest(begin, steps, step, step.pulled.version);
    } else {
      OtherStaysHonest(begin, steps, step);
    }
  }

  lemma StepStaysHonest(begin: State, steps: seq<Step>, step: Step)
    requires begin.pending == [] && Honest(begin, steps) && OrdinaryAt(begin, steps, step)
    ensures Honest(begin, steps + [step])
  {
    match step
    case Push(i, answer, writes) => PushStaysHonest(begin, steps, i, answer, writes);
    case Send(newest, answer, writes) => SendStaysHonest(begin, steps, newest, answer, writes);
    case PullFirst(_, _, _) => TakeStaysHonest(begin, steps, step);
    case Take(_, _) => TakeStaysHonest(begin, steps, step);
    case _ => OtherStaysHonest(begin, steps, step);
  }

  /**
   After any ordinary run: a marker names a version the cloud has, the local save once had exactly
   its files, and since then it was never replaced, only played on (see OnlyPlaySince).
   */
  lemma {:induction false} RunsStayHonest(begin: State, steps: seq<Step>)
    requires Fresh(begin) && AllOrdinary(begin, steps)
    ensures var s := Run(begin, steps);
            var known := Trimmed(s.marker);
            known != "" ==>
              known in s.cloud &&
              exists j :: LastReplacement(begin, steps) <= j <= |steps| &&
                          Run(begin, steps[..j]).local == s.cloud[known]
  {
    if steps != [] {
      var before, step := steps[..|steps| - 1], steps[|steps| - 1];
      assert forall i :: 0 <= i < |before| ==> before[..i] == steps[..i] && before[i] == steps[i];
      RunsStayHonest(begin, before);
      assert Honest(begin, before);
      StepStaysHonest(begin, before, step);
      LastApart(steps);
    }
    assert Honest(begin, steps);
  }

  lemma PushSends(s: State, i: nat, answer: Pushed, writes: bool)
    requires Trimmed(s.marker) != "" && i < |s.pending|
    ensures After(s, Push(i, answer, writes)).uploads == s.uploads + [Upload(Trimmed(s.marker), s.pending[i])]
  {
  }

  /** A push with a marker names it as its base: a version the local save once equalled. */
  lemma PushNamesItsBase(begin: State, steps: seq<Step>, i: nat, answer: Pushed, writes: bool)
    requires Honest(begin, steps) && Trimmed(Run(begin, steps).marker) != "" && i < |Run(begin, steps).pending|
    ensures var s := Run(begin, steps);
            var known := Trimmed(s.marker);
            Run(begin, steps + [Push(i, answer, writes)]).uploads == s.uploads + [Upload(known, s.pending[i])] &&
            known in s.cloud && Had(begin, steps, s.cloud[known])
  {
    RunStep(begin, steps, Push(i, answer, writes));
    PushSends(Run(begin, steps), i, answer, writes);
  }

  // ---- Where the promise breaks ----

  const WORKS := Luck(true, true, true)

  /** A machine with a save of its own, and a cloud with one version. */
  function Met(mine: Files, theirs: Files, v: string): State {
    State(mine, "", "", map[v := theirs], [], [])
  }

  lemma CapturedFirst(mine: Files, theirs: Files, v: string)
    requires mine != NO_FILES
    ensures var begin := Met(mine, theirs, v);
            Run(begin, [Capture]) == begin.(pending := [mine]) && Captures(begin, [Capture]) == [0] &&
            LastReplacement(begin, [Capture]) == 0 &&
            forall files :: Had(begin, [Capture], files) <==> files == mine
  {
    var begin := Met(mine, theirs, v);
    assert [Capture][..0] == [] && [Capture][..1] == [Capture];
    assert Run(begin, []) == begin;
  }

  /** A capture, then the cloud copy put in place over it. */
  lemma TakenThen(mine: Files, theirs: Files, v: string, steps: seq<Step>)
    requires mine != NO_FILES && Named(v) && steps == [Capture, Take(Got(v, Some(theirs)), WORKS)]
    ensures var begin := Met(mine, theirs, v);
            var s := Run(begin, steps);
            s.local == theirs && s.marker == v && s.cloud == begin.cloud && s.pending == [mine] &&
            (forall files :: Had(begin, steps, files) <==> files == theirs) &&
            LastReplacement(begin, steps) == 2 && Captures(begin, steps) == [0]
  {
    var begin, take := Met(mine, theirs, v), Take(Got(v, Some(theirs)), WORKS);
    CapturedFirst(mine, theirs, v);
    assert steps == [Capture] + [take] && steps[..1] == [Capture];
    RunStep(begin, [Capture], take);
    forall files ensures Had(begin, steps, files) <==> files == theirs {
      HadStep(begin, [Capture], take, files);
    }
  }

  /**
   A capture still on its way while a cloud copy is put in place: the marker ends up naming what was
   captured, and the local save has not been that since.
   */
  lemma PushAfterPullBreaks(mine: Files, theirs: Files, v: string, w: string, steps: seq<Step>)
    requires mine != theirs && mine != NO_FILES && Named(v) && Named(w)
    requires steps == [Capture, Take(Got(v, Some(theirs)), WORKS)]
    ensures var begin := Met(mine, theirs, v);
            Honest(begin, steps) && !Honest(begin, steps + [Push(0, Stored(w, Some(w)), true)])
  {
    TakenThen(mine, theirs, v, steps);
    PushIsHonestExactly(Met(mine, theirs, v), steps, 0, w);
  }

  /** A capture, then a launch that finds both a local save and a cloud one. */
  lemma BothThen(mine: Files, theirs: Files, v: string, steps: seq<Step>)
    requires mine != NO_FILES && Named(v) && steps == [Capture, PullFirst(Got(v, Some(theirs)), true, WORKS)]
    ensures var begin := Met(mine, theirs, v);
            var s := Run(begin, steps);
            s.local == mine && s.marker == "" && s.version == v && s.cloud == begin.cloud && s.pending == [mine] &&
            (forall files :: Had(begin, steps, files) <==> files == mine)
  {
    var begin, pull := Met(mine, theirs, v), PullFirst(Got(v, Some(theirs)), true, WORKS);
    CapturedFirst(mine, theirs, v);
    assert steps == [Capture] + [pull];
    RunStep(begin, [Capture], pull);
    forall files ensures Had(begin, steps, files) <==> files == mine {
      HadStep(begin, [Capture], pull, files);
    }
  }

  /**
   An answer that does not parse leaves the map's version: after BothExist that is the cloud's, which
   the local save never was, and the marker takes it.
   */
  lemma UnreadAnswerBreaks(mine: Files, theirs: Files, v: string, key: string, steps: seq<Step>)
    requires mine != theirs && mine != NO_FILES && Named(v) && key != v
    requires steps == [Capture, PullFirst(Got(v, Some(theirs)), true, WORKS)]
    ensures var begin := Met(mine, theirs, v);
            Honest(begin, steps) && !Honest(begin, steps + [Push(0, Stored(key, None), true)])
  {
    BothThen(mine, theirs, v, steps);
    UnreadAnswerExactly(Met(mine, theirs, v), steps, 0, key);
  }
}
