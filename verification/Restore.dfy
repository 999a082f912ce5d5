/**
 Putting a downloaded save in place: SwapIntoPlace of restore_swap.h and UnzipToDirectoryStore of
 save_sync.cpp, over the three folders involved. Every rename may fail and every removal may stop
 halfway; a stop of the process is any state on the way.
 */
module Restore {
  import opened Basics
  import Zip
  import opened Unzip
  import opened RoundTrip
  import Sorting

  type Tree = Zip.Tree

  /** A folder that may be missing. */
  type Slot = Option<Tree>

  datatype Place = Dest | Previous | Staged

  /** The save folder, its .openpak-old and its .openpak-new. */
  datatype Disk = Disk(dest: Slot, previous: Slot, staged: Slot) {
    function At(place: Place): Slot {
      match place
      case Dest => dest
      case Previous => previous
      case Staged => staged
    }

    function With(place: Place, slot: Slot): Disk {
      match place
      case Dest => this.(dest := slot)
      case Previous => this.(previous := slot)
      case Staged => this.(staged := slot)
    }
  }

  // ---- What the file system may do ----

  /** Some of a folder. */
  predicate Remains(left: Slot, slot: Slot) {
    left.None? ||
    (slot.Some? && left.value.dirs <= slot.value.dirs &&
     forall p :: p in left.value.files ==> p in slot.value.files && slot.value.files[p] == left.value.files[p])
  }

  /** A removal leaves some of the folder, or all of it, or nothing. */
  function Removed(slot: Slot, left: Slot): (r: Slot)
    ensures Remains(r, slot)
  {
    if Remains(left, slot) then left else None
  }

  /** A rename needs something to move, and nothing but an empty folder in its way. */
  predicate CanRename(d: Disk, from: Place, to: Place) {
    d.At(from).Some? && (d.At(to).None? || d.At(to) == Some(Zip.EMPTY_TREE))
  }

  function Renamed(d: Disk, from: Place, to: Place): Disk
    requires from != to
  {
    d.With(to, d.At(from)).With(from, None)
  }

  /** How each step of a swap goes: what the removals leave, and which renames the system lets work. */
  datatype Luck = Luck(leftPrevious: Slot, setAside: bool, moveIn: bool, putBack: bool, leftStaged: Slot, leftOld: Slot)

  // ---- The steps and the states they pass through ----

  /** The answer, and the state after every step. */
  datatype Run = Run(ok: bool, states: seq<Disk>)

  function Last(start: Disk, states: seq<Disk>): Disk {
    if states == [] then start else states[|states| - 1]
  }

  function Swapped(d: Disk, luck: Luck): Run {
    var cleared := d.(previous := Removed(d.previous, luck.leftPrevious));
    if d.dest.Some? && !(luck.setAside && CanRename(cleared, Dest, Previous)) then
      Run(false, [cleared, cleared.(staged := Removed(cleared.staged, luck.leftStaged))])
    else
      var aside := if d.dest.Some? then Renamed(cleared, Dest, Previous) else cleared;
      if luck.moveIn && CanRename(aside, Staged, Dest) then
        var moved := Renamed(aside, Staged, Dest);
        Run(true, [cleared, aside, moved, moved.(previous := Removed(moved.previous, luck.leftOld))])
      else
        var back := if luck.putBack && CanRename(aside, Previous, Dest) then Renamed(aside, Previous, Dest) else aside;
        Run(false, [cleared, aside, back, back.(staged := Removed(back.staged, luck.leftStaged))])
  }

  /**
   How a restore goes: what the removal of the staging folder leaves, whether the folder can be made,
   every state the staging folder passes through while it is written, what a refused archive leaves in
   it, and the swap.
   */
  datatype RestoreLuck = RestoreLuck(leftStaging: Slot, creates: bool, partials: seq<Slot>, broken: Slot,
                                     leftBroken: Slot, swap: Luck)

  function TreeOf(slot: Slot): Tree {
    if slot.Some? then slot.value else Zip.EMPTY_TREE
  }

  function During(d: Disk, partials: seq<Slot>): (r: seq<Disk>)
    ensures |r| == |partials| && forall i :: 0 <= i < |r| ==> r[i] == d.(staged := partials[i])
  {
    seq(|partials|, i requires 0 <= i < |partials| => d.(staged := partials[i]))
  }

  function Restored(d: Disk, inflate: Inflater, zip: Bytes, luck: RestoreLuck): Run {
    var cleared := d.(staged := Removed(d.staged, luck.leftStaging));
    var (ok, copy) := Unzipped(inflate, zip, luck.creates, TreeOf(cleared.staged));
    var before := [cleared] + During(cleared, luck.partials);
    if !ok then Run(false, before + [cleared.(staged := Removed(luck.broken, luck.leftBroken))])
    else
      var staged := cleared.(staged := Some(copy));
      var run := Swapped(staged, luck.swap);
      Run(run.ok, before + [staged] + run.states)
  }

  class FileSystem {
    var disk: Disk
    ghost var trace: seq<Disk>

    constructor (disk: Disk)
      ensures this.disk == disk && trace == []
    {
      this.disk, trace := disk, [];
    }

    method RemoveAll(place: Place, left: Slot)
      modifies this
      ensures disk == old(disk).With(place, Removed(old(disk).At(place), left)) && trace == old(trace) + [disk]
    {
      disk := disk.With(place, Removed(disk.At(place), left));
      trace := trace + [disk];
    }

    method Rename(from: Place, to: Place, works: bool) returns (failed: bool)
      requires from != to
      modifies this
      ensures failed <==> !(works && CanRename(old(disk), from, to))
      ensures disk == (if failed then old(disk) else Renamed(old(disk), from, to)) && trace == old(trace) + [disk]
    {
      failed := !works || !CanRename(disk, from, to);
      if !failed {
        disk := Renamed(disk, from, to);
      }
      trace := trace + [disk];
    }

    /** Sets the save aside, moves the staged copy in, and puts the save back if that fails. */
    method SwapIntoPlace(luck: Luck) returns (ok: bool)
      modifies this
      ensures ok == Swapped(old(disk), luck).ok
      ensures disk == Last(old(disk), Swapped(old(disk), luck).states)
      ensures forall s :: s in trace <==> s in old(trace) || s in Swapped(old(disk), luck).states
    {
      ghost var run := Swapped(disk, luck);
      RemoveAll(Previous, luck.leftPrevious);
      if disk.dest.Some? {
        var failed := Rename(Dest, Previous, luck.setAside);
        if failed {
          RemoveAll(Staged, luck.leftStaged);
          return false;
        }
      }
      var failed := Rename(Staged, Dest, luck.moveIn);
      if failed {
        if disk.previous.Some? {
          var _ := Rename(Previous, Dest, luck.putBack);
        }
        RemoveAll(Staged, luck.leftStaged);
        return false;
      }
      RemoveAll(Previous, luck.leftOld);
      return true;
    }
  
    /** Unzips beside the save folder, then swaps. */
    method UnzipToDirectoryStore(inflate: Inflater, zip: Bytes, luck: RestoreLuck) returns (ok: bool)
      modifies this
      ensures ok == Restored(old(disk), inflate, zip, luck).ok
      ensures disk == Last(old(disk), Restored(old(disk), inflate, zip, luck).states)
      ensures forall s :: s in trace <==> s in old(trace) || s in Restored(old(disk), inflate, zip, luck).states
    {
      ghost var cleared := disk.(staged := Removed(disk.staged, luck.leftStaging));
      RemoveAll(Staged, luck.leftStaging);
      var folder := new Directory();
      folder.tree := TreeOf(disk.staged);
      var unzipped := folder.UnzipToDirectory(inflate, zip, luck.creates);
      trace := trace + During(cleared, luck.partials);
      if !unzipped {
        disk := disk.(staged := luck.broken);
        RemoveAll(Staged, luck.leftBroken);
        return false;
      }
      disk := disk.(staged := Some(folder.tree));
      trace := trace + [disk];
      ok := SwapIntoPlace(luck.swap);
    }
  }

  // ---- When it works ----

  /** Nothing that the first removal leaves at .openpak-old stands in a rename's way. */
  predicate Clear(d: Disk, luck: Luck) {
    Removed(d.previous, luck.leftPrevious) in {None, Some(Zip.EMPTY_TREE)}
  }

  /** A save in place can be set aside. */
  predicate CanSetAside(d: Disk, luck: Luck) {
    d.dest.Some? ==> luck.setAside && Clear(d, luck)
  }

  /**
   A swap answers true exactly when there is something to move in, the old save, if there is one, can be
   set aside, and the move itself works; then the staged copy is in place.
   */
  lemma SwapSucceedsExactly(d: Disk, luck: Luck)
    ensures var run := Swapped(d, luck);
            run.ok <==> d.staged.Some? && luck.moveIn && CanSetAside(d, luck)
    ensures var after := Last(d, Swapped(d, luck).states);
            var aside := if d.dest.Some? then d.dest else Removed(d.previous, luck.leftPrevious);
            Swapped(d, luck).ok ==> after == Disk(d.staged, Removed(aside, luck.leftOld), None)
  {
  }

  /**
   What a swap that answers false leaves: a save never set aside is untouched; one set aside, or found
   at .openpak-old alone, is in its place when it could be put back; of the staged copy only what its
   removal could not take.
   */
  lemma FailedSwapLeaves(d: Disk, luck: Luck)
    requires !Swapped(d, luck).ok
    ensures var after, left := Last(d, Swapped(d, luck).states), Removed(d.previous, luck.leftPrevious);
            var staged := Removed(d.staged, luck.leftStaged);
            after ==
            if d.dest.Some? && !CanSetAside(d, luck) then Disk(d.dest, left, staged)
            else
              var aside := if d.dest.Some? then d.dest else left;
              if luck.putBack then Disk(aside, None, staged) else Disk(None, aside, staged)
  {
  }

  /** A restore answers true exactly when its archive is unzipped in full and the swap can go through. */
  lemma RestoreSucceedsExactly(d: Disk, inflate: Inflater, zip: Bytes, luck: RestoreLuck, copy: (bool, Tree))
    requires copy == Unzipped(inflate, zip, luck.creates, TreeOf(Removed(d.staged, luck.leftStaging)))
    ensures var run := Restored(d, inflate, zip, luck);
            run.ok <==> copy.0 && luck.swap.moveIn && CanSetAside(d, luck.swap)
    ensures var after := Last(d, Restored(d, inflate, zip, luck).states);
            (Restored(d, inflate, zip, luck).ok ==> after.dest == Some(copy.1) && after.staged == None) &&
            (!copy.0 ==> after == d.(staged := Removed(luck.broken, luck.leftBroken)))
  {
    SwapSucceedsExactly(d.(staged := Some(copy.1)), luck.swap);
  }

  // ---- One thing at a time ----

  /** Two states with at most one removal or rename between them, or some writing in the staging folder. */
  predicate OneChange(a: Disk, b: Disk) {
    b == a.(staged := b.staged) ||
    (b == a.(previous := b.previous) && Remains(b.previous, a.previous)) ||
    (CanRename(a, Dest, Previous) && b == a.(dest := None, previous := a.dest)) ||
    (CanRename(a, Staged, Dest) && b == a.(staged := None, dest := a.staged)) ||
    (CanRename(a, Previous, Dest) && b == a.(previous := None, dest := a.previous))
  }

  function Before(start: Disk, states: seq<Disk>, i: nat): Disk
    requires i < |states|
  {
    if i == 0 then start else states[i - 1]
  }

  /** From `start` on, each state is one change away from the one before. */
  predicate Stepwise(start: Disk, states: seq<Disk>) {
    forall i :: 0 <= i < |states| ==> OneChange(Before(start, states, i), states[i])
  }

  lemma SwapIsStepwise(d: Disk, luck: Luck)
    ensures Stepwise(d, Swapped(d, luck).states)
  {
  }

  lemma StepwiseAppend(start: Disk, a: seq<Disk>, b: seq<Disk>)
    requires Stepwise(start, a) && Stepwise(Last(start, a), b)
    ensures Stepwise(start, a + b)
  {
    var states := a + b;
    forall i | 0 <= i < |states| ensures OneChange(Before(start, states, i), states[i]) {
      if i < |a| {
        assert Before(start, states, i) == Before(start, a, i) && states[i] == a[i];
      } else {
        assert Before(start, states, i) == Before(Last(start, a), b, i - |a|) && states[i] == b[i - |a|];
      }
    }
  }

  lemma WritingIsStepwise(d: Disk, partials: seq<Slot>, after: Disk)
    requires after == d.(staged := after.staged)
    ensures Stepwise(d, During(d, partials) + [after])
    ensures forall s :: s in partials ==> d.(staged := s) in During(d, partials) + [after]
  {
    forall s | s in partials ensures d.(staged := s) in During(d, partials) + [after] {
      var i :| 0 <= i < |partials| && partials[i] == s;
      assert During(d, partials)[i] == d.(staged := s);
    }
  }

  lemma WritingStates(cleared: Disk, writing: seq<Disk>, after: Disk, rest: seq<Disk>)
    ensures [cleared] + writing + [after] + rest == [cleared] + ((writing + [after]) + rest)
  {
  }

  /** No state of a restore is left out of what is said of every one: each is one change from the last. */
  lemma RestoreIsStepwise(d: Disk, inflate: Inflater, zip: Bytes, luck: RestoreLuck)
    ensures Stepwise(d, Restored(d, inflate, zip, luck).states)
    ensures forall s :: s in luck.partials ==> d.(staged := s) in Restored(d, inflate, zip, luck).states
  {
    var cleared := d.(staged := Removed(d.staged, luck.leftStaging));
    var copy := Unzipped(inflate, zip, luck.creates, TreeOf(cleared.staged));
    var after := cleared.(staged := if copy.0 then Some(copy.1) else Removed(luck.broken, luck.leftBroken));
    var rest := if copy.0 then Swapped(after, luck.swap).states else [];
    var writing := During(cleared, luck.partials);
    WritingIsStepwise(cleared, luck.partials, after);
    SwapIsStepwise(after, luck.swap);
    StepwiseAppend(cleared, writing + [after], rest);
    StepwiseAppend(d, [cleared], (writing + [after]) + rest);
    WritingStates(cleared, writing, after, rest);
    assert Restored(d, inflate, zip, luck).states == [cleared] + writing + [after] + rest;
    forall s | s in luck.partials ensures d.(staged := s) in Restored(d, inflate, zip, luck).states {
      assert cleared.(staged := s) == d.(staged := s);
    }
  }

  // ---- Nothing is lost ----

  /** The old save is whole somewhere, or the new copy is in place. */
  predicate Kept(s: Disk, save: Tree, copy: Slot) {
    s.dest == Some(save) || s.previous == Some(save) || (copy.Some? && s.dest == copy)
  }

  /** With a save in place on entry: kept at every point, and the answer says which one won. */
  lemma SwapKeeps(d: Disk, luck: Luck, save: Tree)
    requires d.dest == Some(save)
    ensures var run := Swapped(d, luck);
            var after := Last(d, run.states);
            (forall i :: 0 <= i < |run.states| ==> Kept(run.states[i], save, d.staged)) &&
            (run.ok ==> d.staged.Some? && after.dest == d.staged && after.staged == None) &&
            (!run.ok ==> after.dest == Some(save) || (after.dest == None && after.previous == Some(save)))
  {
  }

  /**
   A restore over a save: kept at every point, whatever fails and wherever it stops. True means what was
   unzipped is in place; false means the old save survives.
   */
  lemma RestoreKeeps(d: Disk, inflate: Inflater, zip: Bytes, luck: RestoreLuck, save: Tree, copy: (bool, Tree))
    requires d.dest == Some(save)
    requires copy == Unzipped(inflate, zip, luck.creates, TreeOf(Removed(d.staged, luck.leftStaging)))
    ensures var run := Restored(d, inflate, zip, luck);
            var after := Last(d, run.states);
            (forall i :: 0 <= i < |run.states| ==> Kept(run.states[i], save, Some(copy.1))) &&
            (run.ok ==> copy.0 && after.dest == Some(copy.1)) &&
            (!run.ok ==> after.dest == Some(save) || (after.dest == None && after.previous == Some(save)))
  {
    SwapKeeps(d.(staged := Some(copy.1)), luck.swap, save);
  }

  /**
   "The old save is still where it was" when a swap answers false: exactly when it was never set aside,
   or could be put back.
   */
  lemma StillWhereItWasExactly(d: Disk, luck: Luck, save: Tree)
    requires d.dest == Some(save) && !Swapped(d, luck).ok
    ensures Last(d, Swapped(d, luck).states).dest == Some(save) <==> !CanSetAside(d, luck) || luck.putBack
  {
  }

  // ---- One failed restore after another ----

  /** The save is whole, in its place or set aside. */
  predicate Whole(d: Disk, save: Tree) {
    d.dest == Some(save) || d.previous == Some(save)
  }

  lemma RemainsAll(save: Tree, slot: Slot)
    requires Remains(slot, Some(save)) && Remains(Some(save), slot)
    ensures slot == Some(save)
  {
    assert slot.value.dirs == save.dirs;
    assert slot.value.files == save.files;
    assert slot.value == save;
  }

  /**
   A save that is only at .openpak-old on entry outlives a swap exactly when the first removal fails
   at once and the last one does too, or what is moved in is that very save.
   */
  lemma OnlyPreviousExactly(d: Disk, luck: Luck, save: Tree)
    requires d.dest == None && d.previous == Some(save)
    ensures var moves := luck.moveIn && d.staged.Some?;
            Whole(Last(d, Swapped(d, luck).states), save) <==>
            (moves && d.staged == Some(save)) ||
            (luck.leftPrevious == Some(save) && (moves ==> luck.leftOld == Some(save)))
  {
    var once := Removed(d.previous, luck.leftPrevious);
    var twice := Removed(once, luck.leftOld);
    assert once == Some(save) <==> luck.leftPrevious == Some(save);
    if once == Some(save) {
      assert twice == Some(save) <==> luck.leftOld == Some(save);
    } else if twice == Some(save) {
      RemainsAll(save, once);
    }
  }

  /** One restore: the archive and how it goes. */
  datatype Attempt = Attempt(zip: Bytes, luck: RestoreLuck)

  function Tried(d: Disk, inflate: Inflater, a: Attempt): Run {
    Restored(d, inflate, a.zip, a.luck)
  }

  function TriedAll(d: Disk, inflate: Inflater, attempts: seq<Attempt>): Disk {
    if attempts == [] then d
    else
      var before := TriedAll(d, inflate, attempts[..|attempts| - 1]);
      Last(before, Tried(before, inflate, attempts[|attempts| - 1]).states)
  }

  /** The archive is unzipped in full, so that the swap is reached. */
  predicate Unpacks(d: Disk, inflate: Inflater, a: Attempt) {
    Unzipped(inflate, a.zip, a.luck.creates, TreeOf(Removed(d.staged, a.luck.leftStaging))).0
  }

  /**
   A restore does not cost the save: the save is in its place when it begins, or its archive is
   refused, or its first step fails to remove .openpak-old at all.
   */
  predicate Spares(d: Disk, inflate: Inflater, a: Attempt, save: Tree) {
    d.dest == Some(save) || !Unpacks(d, inflate, a) || a.luck.swap.leftPrevious == Some(save)
  }

  /** Neither place holds more than a part of the save. */
  predicate PartsOnly(d: Disk, save: Tree) {
    Remains(d.dest, Some(save)) && Remains(d.previous, Some(save)) && !Whole(d, save)
  }

  /** In its place, or set aside with nothing there, or lost but for parts of it. */
  predicate Tracked(d: Disk, save: Tree) {
    d.dest == Some(save) || (d.dest == None && d.previous == Some(save)) || PartsOnly(d, save)
  }

  lemma RemovedParts(slot: Slot, left: Slot, save: Tree)
    requires Remains(slot, Some(save)) && slot != Some(save)
    ensures Remains(Removed(slot, left), Some(save)) && Removed(slot, left) != Some(save)
  {
    if Removed(slot, left) == Some(save) {
      RemainsAll(save, slot);
    }
  }

  /** A swap that answers false never brings a lost save back. */
  lemma SwapKeepsParts(d: Disk, luck: Luck, save: Tree)
    requires PartsOnly(d, save) && !Swapped(d, luck).ok
    ensures PartsOnly(Last(d, Swapped(d, luck).states), save)
  {
    RemovedParts(d.previous, luck.leftPrevious, save);
  }

  /** A swap that answers false, begun with the save only set aside. */
  lemma SwapFromAside(d: Disk, luck: Luck, save: Tree)
    requires d.dest == None && d.previous == Some(save) && !Swapped(d, luck).ok
    ensures Tracked(Last(d, Swapped(d, luck).states), save)
    ensures Whole(Last(d, Swapped(d, luck).states), save) <==> luck.leftPrevious == Some(save)
  {
    OnlyPreviousExactly(d, luck, save);
  }

  lemma FalseTryTracks(d: Disk, inflate: Inflater, a: Attempt, save: Tree, after: Disk)
    requires Tracked(d, save) && Failing(inflate)(d, a) && after == Last(d, Tried(d, inflate, a).states)
    ensures Tracked(after, save)
    ensures Whole(after, save) <==> Whole(d, save) && Sparing(inflate, save)(d, a)
  {
    var cleared := d.(staged := Removed(d.staged, a.luck.leftStaging));
    if Unpacks(d, inflate, a) {
      var staged := cleared.(staged := Some(Unzipped(inflate, a.zip, a.luck.creates, TreeOf(cleared.staged)).1));
      assert after == Last(staged, Swapped(staged, a.luck.swap).states);
      if d.dest == Some(save) {
        SwapKeeps(staged, a.luck.swap, save);
      } else if d.dest == None && d.previous == Some(save) {
        SwapFromAside(staged, a.luck.swap, save);
      } else {
        SwapKeepsParts(staged, a.luck.swap, save);
      }
    } else {
      assert after.dest == d.dest && after.previous == d.previous;
    }
  }

  /** Each of these restores finds the disk as `good` wants it. */
  predicate Each(d: Disk, inflate: Inflater, attempts: seq<Attempt>, good: (Disk, Attempt) -> bool) {
    forall i :: 0 <= i < |attempts| ==> good(TriedAll(d, inflate, attempts[..i]), attempts[i])
  }

  function Failing(inflate: Inflater): (Disk, Attempt) -> bool {
    (d: Disk, a: Attempt) => !Tried(d, inflate, a).ok
  }

  function Sparing(inflate: Inflater, save: Tree): (Disk, Attempt) -> bool {
    (d: Disk, a: Attempt) => Spares(d, inflate, a, save)
  }

  /** Every one of these restores, one after another, answered false. */
  predicate AllFailed(d: Disk, inflate: Inflater, attempts: seq<Attempt>) {
    Each(d, inflate, attempts, Failing(inflate))
  }

  lemma OneMore(d: Disk, inflate: Inflater, before: seq<Attempt>, a: Attempt, good: (Disk, Attempt) -> bool)
    ensures TriedAll(d, inflate, before + [a]) ==
            Last(TriedAll(d, inflate, before), Tried(TriedAll(d, inflate, before), inflate, a).states)
    ensures Each(d, inflate, before + [a], good) <==>
            Each(d, inflate, before, good) && good(TriedAll(d, inflate, before), a)
  {
    var more := before + [a];
    assert more[..|before|] == before;
    assert forall i :: 0 <= i < |before| ==> more[..i] == before[..i] && more[i] == before[i];
  }

  lemma {:induction false} FailuresTrack(d: Disk, inflate: Inflater, attempts: seq<Attempt>, save: Tree)
    requires d.dest == Some(save) && AllFailed(d, inflate, attempts)
    ensures Tracked(TriedAll(d, inflate, attempts), save)
    ensures Whole(TriedAll(d, inflate, attempts), save) <==> Each(d, inflate, attempts, Sparing(inflate, save))
  {
    if attempts != [] {
      var before, a := attempts[..|attempts| - 1], attempts[|attempts| - 1];
      LastApart(attempts);
      OneMore(d, inflate, before, a, Failing(inflate));
      OneMore(d, inflate, before, a, Sparing(inflate, save));
      FailuresTrack(d, inflate, before, save);
      FalseTryTracks(TriedAll(d, inflate, before), inflate, a, save, TriedAll(d, inflate, attempts));
    }
  }

  /**
   A save in its place, and any number of restores that all answer false: it is whole at the end
   exactly when each of them found it in its place, was refused, or could not remove .openpak-old.
   */
  lemma LostExactly(d: Disk, inflate: Inflater, attempts: seq<Attempt>, save: Tree)
    requires d.dest == Some(save) && AllFailed(d, inflate, attempts)
    ensures Whole(TriedAll(d, inflate, attempts), save) <==>
            forall i :: 0 <= i < |attempts| ==>
              Spares(TriedAll(d, inflate, attempts[..i]), inflate, attempts[i], save)
  {
    FailuresTrack(d, inflate, attempts, save);
  }

  const STUCK := RestoreLuck(None, true, [], None, None, Luck(None, true, false, false, None, None))

  /** A restore that sets the save aside and can neither move in nor put back; the next one removes it. */
  lemma StuckTry(d: Disk, inflate: Inflater, zip: Bytes, save: Tree)
    requires Unzipped(inflate, zip, true, Zip.EMPTY_TREE).0
    requires d == Disk(Some(save), None, None) || d == Disk(None, Some(save), None)
    ensures var run := Tried(d, inflate, Attempt(zip, STUCK));
            !run.ok && Last(d, run.states) == Disk(None, if d.dest.Some? then d.dest else None, None)
    ensures Spares(d, inflate, Attempt(zip, STUCK), save) <==> d.dest.Some?
  {
  }

  lemma OneStuck(save: Tree, inflate: Inflater, zip: Bytes, a: Attempt)
    requires Unzipped(inflate, zip, true, Zip.EMPTY_TREE).0 && a == Attempt(zip, STUCK)
    ensures var d := Disk(Some(save), None, None);
            AllFailed(d, inflate, [a]) && TriedAll(d, inflate, [a]) == Disk(None, Some(save), None)
  {
    var d := Disk(Some(save), None, None);
    StuckTry(d, inflate, zip, save);
    OneMore(d, inflate, [], a, Failing(inflate));
    assert [] + [a] == [a];
  }

  /** Two of them in a row lose the save, though both answer false. */
  lemma TwoFailuresLose(save: Tree, inflate: Inflater, zip: Bytes, a: Attempt)
    requires Unzipped(inflate, zip, true, Zip.EMPTY_TREE).0 && a == Attempt(zip, STUCK)
    ensures var d := Disk(Some(save), None, None);
            AllFailed(d, inflate, [a] + [a]) && !Whole(TriedAll(d, inflate, [a] + [a]), save)
  {
    OneStuck(save, inflate, zip, a);
    StuckTry(Disk(None, Some(save), None), inflate, zip, save);
    OneMore(Disk(Some(save), None, None), inflate, [a], a, Failing(inflate));
  }

  // ---- What was left in the staging folder ----

  /** The same files as `u` on top of those of `base`. */
  predicate Over(base: Tree, t: Tree, u: Tree) {
    t.files == base.files + u.files
  }

  lemma ExtractedOver(inflate: Inflater, zip: Bytes, l: Listed, base: Tree, t: Tree, u: Tree)
    requires Over(base, t, u) && Extracted(inflate, zip, l, t).0 && Extracted(inflate, zip, l, u).0
    ensures Over(base, Extracted(inflate, zip, l, t).1, Extracted(inflate, zip, l, u).1)
  {
  }

  /** Two walks that write the same entries stay one over the other. */
  lemma {:induction false} WalkOver(read: nat -> Option<Listed>, write: (Listed, Tree) -> (bool, Tree), pos: nat,
                                    left: nat, base: Tree, t: Tree, u: Tree)
    requires forall l: Listed, a: Tree, b: Tree :: Over(base, a, b) && write(l, a).0 && write(l, b).0 ==>
               Over(base, write(l, a).1, write(l, b).1)
    requires Over(base, t, u) && Walk(read, write, pos, left, t).0 && Walk(read, write, pos, left, u).0
    ensures Over(base, Walk(read, write, pos, left, t).1, Walk(read, write, pos, left, u).1)
    decreases left
  {
    if left > 0 {
      var l := read(pos).value;
      WalkOver(read, write, l.next, left - 1, base, write(l, t).1, write(l, u).1);
    }
  }

  /**
   A failed removal of the staging folder is ignored, so what it leaves survives into the restored save:
   the files put in place are the archive's exactly when it names every file that was left.
   */
  lemma LeftoversExactly(inflate: Inflater, zip: Bytes, left: Tree)
    requires Unzipped(inflate, zip, true, left).0 && Unzipped(inflate, zip, true, Zip.EMPTY_TREE).0
    ensures var restored := Unzipped(inflate, zip, true, left).1;
            var wanted := Unzipped(inflate, zip, true, Zip.EMPTY_TREE).1;
            restored.files == left.files + wanted.files &&
            (restored.files == wanted.files <==> left.files.Keys <= wanted.files.Keys)
  {
    var (first, entries) := DirectoryOf(zip).value;
    forall l: Listed, a: Tree, b: Tree |
      Over(left, a, b) && WriterOf(inflate, zip)(l, a).0 && WriterOf(inflate, zip)(l, b).0
      ensures Over(left, WriterOf(inflate, zip)(l, a).1, WriterOf(inflate, zip)(l, b).1)
    {
      ExtractedOver(inflate, zip, l, left, a, b);
    }
    WalkOver(ReaderOf(zip), WriterOf(inflate, zip), first, entries, left, left, Zip.EMPTY_TREE);
    var restored, wanted := Unzipped(inflate, zip, true, left).1, Unzipped(inflate, zip, true, Zip.EMPTY_TREE).1;
    assert Over(left, restored, wanted);
    if left.files.Keys <= wanted.files.Keys {
      assert left.files + wanted.files == wanted.files;
    } else {
      assert restored.files.Keys == left.files.Keys + wanted.files.Keys;
    }
  }

  /**
   A save uploaded from one machine and restored on another: it is in place, exactly its readable files,
   whenever the old save can be set aside and the move in works -- always when there is none and nothing
   fails. Otherwise the other machine's save is kept.
   */
  lemma UploadedSaveIsRestored(d: Disk, inflate: Inflater, folder: Zip.Folder, listing: seq<Zip.Path>,
                               entries: seq<Zip.Entry>, zip: Bytes, luck: RestoreLuck)
    requires Tidy(folder) && IsListing(folder, listing)
    requires entries == Zip.EntriesOf(folder, Sorting.Sort(Sorting.PathLess, listing))
    requires Fits(entries) && |entries| < 0x1_0000 && zip == Zip.Archive(entries)
    requires luck.leftStaging == None && luck.creates
    ensures var run := Restored(d, inflate, zip, luck);
            var after := Last(d, run.states);
            (run.ok <==> luck.swap.moveIn && CanSetAside(d, luck.swap)) &&
            (run.ok ==> after.dest.Some? && after.dest.value.files == Readable(folder)) &&
            (!run.ok && d.dest.Some? ==>
               after.dest == d.dest || (after.dest == None && after.previous == d.dest))
  {
    RoundTripExactly(inflate, folder, listing, entries, zip);
    RestoreSucceedsExactly(d, inflate, zip, luck, Unzipped(inflate, zip, true, Zip.EMPTY_TREE));
    if d.dest.Some? {
      RestoreKeeps(d, inflate, zip, luck, d.dest.value, Unzipped(inflate, zip, true, Zip.EMPTY_TREE));
    }
  }
}
