/** Rotating the boot log under a lock, by writers that may be killed between any two steps. */
module LogRotation {
  import opened Options

  datatype Phase = Pending | Rotated

  /** The marker file: which boot, how far, and the inode of the log it found (0 for none). */
  datatype Record = Record(boot: nat, phase: Phase, inode: nat)

  /** A log file; of each line only the boot it was written in matters. */
  datatype File = File(inode: nat, lines: seq<nat>)

  /** Where the writer that holds the lock stands. */
  datatype Place = Idle | Looking | Saving | Moving | Opening | Finishing | Appending

  /** One rename to the old name: the file moved and the one it replaced. */
  datatype Move = Move(boot: nat, file: File, lost: Option<File>)

  datatype State = State(
    boot: nat,
    marker: Option<Record>,
    log: Option<File>,
    retired: Option<File>,
    place: Place,
    record: Option<Record>,
    seen: nat,
    moves: seq<Move>,
    pendings: map<nat, Option<File>>,
    written: nat)

  /** How a step with effects ends: a save can take effect and still report failure. */
  datatype Outcome = Done | Fails | DoneButFails

  datatype Action = Begin | Advance(outcome: Outcome, inode: nat) | Die | Reboot

  function InodeOf(f: Option<File>): nat { if f.Some? then f.value.inode else 0 }

  /** The marker replaced atomically. */
  function Saved(s: State, r: Record, outcome: Outcome, next: Place): State {
    match outcome
    case Fails => s.(place := Idle)
    case Done => s.(marker := Some(r), record := Some(r), place := next)
    case DoneButFails => s.(marker := Some(r), record := Some(r), place := Idle)
  }

  function Look(s: State, outcome: Outcome): State {
    if outcome.Done? then s.(record := s.marker, seen := InodeOf(s.log), place := Saving) else s.(place := Idle)
  }

  function SavePending(s: State, outcome: Outcome): State {
    if s.record.Some? && s.record.value.boot == s.boot then s.(place := Moving)
    else
      var t := Saved(s, Record(s.boot, Pending, s.seen), outcome, Moving);
      if outcome.Fails? then t else t.(pendings := s.pendings[s.boot := s.log])
  }

  function MoveAway(s: State, outcome: Outcome): State
    requires s.record.Some?
  {
    var r := s.record.value;
    if !(r.phase.Pending? && s.seen != 0 && r.inode == s.seen) then s.(place := Opening)
    else if outcome.Fails? || s.log.None? then s.(place := Idle)
    else s.(log := None, retired := s.log, moves := s.moves + [Move(s.boot, s.log.value, s.retired)], place := Opening)
  }

  function Open(s: State, outcome: Outcome, inode: nat): State {
    if outcome.Fails? then s.(place := Idle)
    else
      var t := if s.log.None? then s.(log := Some(File(inode, []))) else s;
      t.(place := if outcome.Done? then Finishing else Idle)
  }

  function Finish(s: State, outcome: Outcome): State
    requires s.record.Some?
  {
    if s.record.value.phase.Pending? then Saved(s, s.record.value.(phase := Rotated), outcome, Appending)
    else s.(place := Appending)
  }

  function AppendLine(s: State, outcome: Outcome): State {
    if outcome.Fails? || s.log.None? then s.(place := Idle)
    else s.(log := Some(s.log.value.(lines := s.log.value.lines + [s.boot])), written := s.written + 1, place := Idle)
  }

  /** One step of the holder, a death, or a reboot. */
  function Step(s: State, a: Action): State
    requires Sound(s)
  {
    match a
    case Begin => if s.place.Idle? then s.(place := Looking) else s
    case Die => s.(place := Idle)
    case Reboot => s.(boot := s.boot + 1, place := Idle, written := 0)
    case Advance(outcome, inode) =>
      match s.place
      case Idle => s
      case Looking => Look(s, outcome)
      case Saving => SavePending(s, outcome)
      case Moving => MoveAway(s, outcome)
      case Opening => Open(s, outcome, inode)
      case Finishing => Finish(s, outcome)
      case Appending => AppendLine(s, outcome)
  }

  /** Past the first save the holder knows the record. */
  predicate Sound(s: State) {
    s.place.Moving? || s.place.Opening? || s.place.Finishing? ==> s.record.Some?
  }

  /** A new file never gets the inode of a live one. */
  predicate Allowed(s: State, a: Action) {
    a.Advance? ==> a.inode != 0 && a.inode != InodeOf(s.log) && a.inode != InodeOf(s.retired)
  }

  // ---- what holds in every run -----------------------------------------------------------

  predicate Before(lines: seq<nat>, boot: nat) { forall i :: 0 <= i < |lines| ==> lines[i] < boot }

  predicate OldBefore(f: Option<File>, boot: nat) { f.Some? ==> Before(f.value.lines, boot) }

  /** How many lines of a boot a file holds. */
  function Count(lines: seq<nat>, boot: nat): nat {
    if lines == [] then 0
    else Count(lines[..|lines| - 1], boot) + (if lines[|lines| - 1] == boot then 1 else 0)
  }

  /** A move of a boot is of the very file that was there when that boot's pending record was saved,
    * and neither it nor the file it replaced holds a line of that boot. */
  predicate RightMove(s: State, m: Move) {
    && m.boot <= s.boot && m.boot in s.pendings && s.pendings[m.boot] == Some(m.file)
    && Before(m.file.lines, m.boot) && OldBefore(m.lost, m.boot)
  }

  /** The safety of rotation. */
  predicate Safe(s: State) {
    && (forall i, j :: 0 <= i < j < |s.moves| ==> s.moves[i].boot < s.moves[j].boot)
    && (forall i :: 0 <= i < |s.moves| ==> RightMove(s, s.moves[i]))
    && OldBefore(s.retired, s.boot)
    && s.written == (if s.log.Some? then Count(s.log.value.lines, s.boot) else 0)
  }

  predicate MovedThisBoot(s: State) {
    s.moves != [] && s.moves[|s.moves| - 1].boot == s.boot
  }

  /** The files are distinct and live, and no line is from a later boot. */
  predicate Files(s: State) {
    && (s.log.Some? ==> s.log.value.inode != 0 && Before(s.log.value.lines, s.boot + 1))
    && (s.retired.Some? ==> s.retired.value.inode != 0)
    && (s.log.Some? && s.retired.Some? ==> s.log.value.inode != s.retired.value.inode)
  }

  /** What the marker says about the current boot. */
  predicate MarkerHolds(s: State) {
    && (s.marker.Some? ==> s.marker.value.boot <= s.boot)
    && (s.boot in s.pendings <==> s.marker.Some? && s.marker.value.boot == s.boot)
    && (forall b :: b in s.pendings ==> b <= s.boot)
    && (s.marker.Some? && s.marker.value.boot == s.boot ==>
          && s.marker.value.inode == InodeOf(s.pendings[s.boot])
          && (s.marker.value.phase.Pending? ==> s.written == 0 && PendingHolds(s))
          && (s.marker.value.phase.Rotated? && s.boot in s.pendings && s.pendings[s.boot].Some? ==>
                s.retired == s.pendings[s.boot]))
    && (s.boot !in s.pendings ==> s.written == 0 && !MovedThisBoot(s))
  }

  /** Before the final save: the recorded file is still the log, or it is the old file. */
  predicate PendingHolds(s: State) {
    var p := s.pendings;
    s.boot in p ==>
      if MovedThisBoot(s) then p[s.boot].Some? && s.retired == p[s.boot]
      else if p[s.boot].Some? then s.log == p[s.boot]
      else true
  }

  /** What the holder of the lock has read or saved is what the disk holds. */
  predicate HolderHolds(s: State) {
    && Sound(s)
    && (s.place.Saving? ==> s.record == s.marker && s.seen == InodeOf(s.log))
    && (s.place.Moving? ==> s.record == s.marker && s.marker.value.boot == s.boot && s.seen == InodeOf(s.log))
    && (s.place.Opening? || s.place.Finishing? ==> s.record == s.marker && s.marker.value.boot == s.boot)
    && (s.place.Finishing? || s.place.Appending? ==> s.log.Some?)
    && (s.place.Opening? || s.place.Finishing? ==> MovedIfPending(s))
    && (s.place.Appending? ==> s.marker.Some? && s.marker.value == Record(s.boot, Rotated, s.marker.value.inode))
  }

  predicate MovedIfPending(s: State) {
    s.record.Some? && s.record.value.phase.Pending? && s.boot in s.pendings && s.pendings[s.boot].Some? ==>
        MovedThisBoot(s)
  }

  predicate Holds(s: State) { Files(s) && MarkerHolds(s) && HolderHolds(s) && Safe(s) }

  /** A log left by earlier boots, no marker yet. */
  predicate Init(s: State) {
    && s.marker.None? && s.place.Idle? && s.moves == [] && s.pendings == map[] && s.written == 0
    && Files(s) && OldBefore(s.log, s.boot) && OldBefore(s.retired, s.boot)
  }

  lemma {:induction false} NoneBefore(lines: seq<nat>, boot: nat)
    requires Before(lines, boot)
    ensures Count(lines, boot) == 0
  {
    if lines != [] {
      NoneBefore(lines[..|lines| - 1], boot);
    }
  }

  lemma InitHolds(s: State)
    requires Init(s)
    ensures Holds(s)
  {
    if s.log.Some? {
      NoneBefore(s.log.value.lines, s.boot);
    }
  }

  /** Lines counted zero times are all earlier. */
  lemma {:induction false} CountZero(lines: seq<nat>, boot: nat)
    requires Count(lines, boot) == 0 && Before(lines, boot + 1)
    ensures Before(lines, boot)
  {
    if lines != [] {
      CountZero(lines[..|lines| - 1], boot);
    }
  }

  lemma {:induction false} StepHolds(s: State, a: Action)
    requires Holds(s) && Allowed(s, a)
    ensures Holds(Step(s, a))
  {
    hide Holds, Saved, Look, SavePending, MoveAway, Open, Finish, AppendLine;
    match a
    case Begin => RestHolds(s, a);
    case Die => RestHolds(s, a);
    case Reboot => RebootHolds(s);
    case Advance(outcome, inode) =>
      match s.place
      case Idle => {}
      case Looking => LookHolds(s, outcome);
      case Saving => SaveHolds(s, outcome);
      case Moving => MoveHolds(s, outcome);
      case Opening => OpenHolds(s, outcome, inode);
      case Finishing => FinishHolds(s, outcome);
      case Appending => AppendHolds(s, outcome);
  }

  lemma RestHolds(s: State, a: Action)
    requires Holds(s) && (a.Begin? || a.Die?)
    ensures Holds(Step(s, a))
  {}

  lemma LookHolds(s: State, outcome: Outcome)
    requires Holds(s) && s.place.Looking?
    ensures Holds(Look(s, outcome))
  {}

  lemma OpenHolds(s: State, outcome: Outcome, inode: nat)
    requires Holds(s) && s.place.Opening? && Allowed(s, Advance(outcome, inode))
    ensures Holds(Open(s, outcome, inode))
  {}

  lemma FinishHolds(s: State, outcome: Outcome)
    requires Holds(s) && s.place.Finishing?
    ensures Holds(Finish(s, outcome))
  {}

  lemma RebootHolds(s: State)
    requires Holds(s)
    ensures Holds(Step(s, Reboot))
  {
    if s.log.Some? {
      NoneBefore(s.log.value.lines, s.boot + 1);
    }
  }

  lemma SaveHolds(s: State, outcome: Outcome)
    requires Holds(s) && s.place.Saving?
    ensures Holds(SavePending(s, outcome))
  {}

  lemma MoveHolds(s: State, outcome: Outcome)
    requires Holds(s) && s.place.Moving?
    ensures Holds(MoveAway(s, outcome))
  {
    if s.log.Some? && s.written == 0 {
      CountZero(s.log.value.lines, s.boot);
    }
  }

  lemma AppendHolds(s: State, outcome: Outcome)
    requires Holds(s) && s.place.Appending?
    ensures Holds(AppendLine(s, outcome))
  {
    if s.log.Some? {
      var lines := s.log.value.lines + [s.boot];
      assert lines[..|lines| - 1] == s.log.value.lines;
    }
  }

  /** A run of any steps, deaths and reboots. */
  ghost predicate IsRun(states: seq<State>, actions: seq<Action>) {
    && |states| == |actions| + 1 && Init(states[0])
    && forall i :: 0 <= i < |actions| ==>
       Sound(states[i]) && Allowed(states[i], actions[i]) && states[i + 1] == Step(states[i], actions[i])
  }

  /** In every run rotation is safe after every step. */
  lemma {:induction false} RotationIsSafe(states: seq<State>, actions: seq<Action>, n: nat)
    requires IsRun(states, actions) && n < |states|
    ensures Holds(states[n]) && Safe(states[n])
  {
    hide Holds, Safe, Step, Init;
    if n == 0 {
      InitHolds(states[0]);
    } else {
      RotationIsSafe(states, actions, n - 1);
      StepHolds(states[n - 1], actions[n - 1]);
    }
    HoldsIsSafe(states[n]);
  }

  lemma HoldsIsSafe(s: State)
    requires Holds(s)
    ensures Safe(s)
  {}

  // ---- what a writer achieves ------------------------------------------------------------

  /** The log this boot found: the one its record names, or the one that is there now. */
  function FoundLog(s: State): Option<File> {
    if s.boot in s.pendings then s.pendings[s.boot] else s.log
  }

  /** A writer that is not disturbed, from taking the lock to its line. */
  function Undisturbed(inode: nat): seq<Action> {
    [Begin] + seq(6, _ => Advance(Done, inode))
  }

  /** From any state a run can leave behind, an undisturbed writer ends with the line of this boot last in
    * the log. The log that this boot found is at the old name then, and what was moved away is not
    * written to; a log of this boot keeps its lines. */
  lemma UndisturbedWrites(states: seq<State>, inode: nat)
    requires |states| == 8 && Holds(states[0]) && states[0].place.Idle? && Allowed(states[0], Advance(Done, inode))
    requires forall i :: 0 <= i < 7 ==> Sound(states[i]) && states[i + 1] == Step(states[i], Undisturbed(inode)[i])
    ensures var s, t, found := states[0], states[7], FoundLog(states[0]);
            && t.place.Idle? && t.boot == s.boot && t.written == s.written + 1 && t.log.Some?
            && t.retired == (if found.Some? then found else s.retired)
            && var kept := if s.log.None? || (found.Some? && s.retired != found) then [] else s.log.value.lines;
            t.log.value.lines == kept + [s.boot]
    ensures states[7].marker.Some? && states[7].marker.value.boot == states[0].boot
            && states[7].marker.value.phase.Rotated?
  {
    hide Holds, Look, SavePending, MoveAway, Open, Finish, AppendLine, Saved;
    var s, moving := states[0], states[3];
    assert Undisturbed(inode)[0] == Begin && forall i :: 1 <= i < 7 ==> Undisturbed(inode)[i] == Advance(Done, inode);
    assert states[1] == s.(place := Looking);
    LookGoes(states[1]);
    assert states[2] == Look(states[1], Done);
    Found(s, moving);
    Moved(moving, states[4]);
    var ready := states[4];
    assert states[5] == Open(ready, Done, inode);
    OpenGoes(ready, inode);
    FinishGoes(states[5]);
    assert states[6] == Finish(states[5], Done);
    assert states[7] == AppendLine(states[6], Done);
    Written(ready, inode);
  }

  lemma LookGoes(s: State)
    ensures Look(s, Done).place.Saving?
  {}

  lemma OpenGoes(s: State, inode: nat)
    ensures Open(s, Done, inode).place.Finishing? && Open(s, Done, inode).record == s.record
  {}

  lemma FinishGoes(s: State)
    requires s.record.Some?
    ensures Finish(s, Done).place.Appending?
  {}

  /** Up to the saved record nothing is moved. */
  lemma Found(s: State, moving: State)
    requires Holds(s) && s.place.Idle? && moving == SavePending(Look(s.(place := Looking), Done), Done)
    ensures Holds(moving) && moving.place.Moving? && moving.record.Some? && moving.record.value.boot == s.boot
    ensures moving == s.(place := Moving, record := moving.record, marker := moving.marker, pendings := moving.pendings,
                         seen := moving.seen)
    ensures s.boot in moving.pendings && moving.pendings[s.boot] == FoundLog(s) && moving.marker == moving.record
  {
    var looking := s.(place := Looking);
    RestHolds(s, Begin);
    LookHolds(looking, Done);
    SaveHolds(Look(looking, Done), Done);
  }

  /** The recorded log is moved unless it was before. */
  lemma Moved(s: State, t: State)
    requires Holds(s) && s.place.Moving? && s.record.Some? && s.boot in s.pendings && t == MoveAway(s, Done)
    ensures t.place.Opening? && t.record == s.record && t.boot == s.boot && t.written == s.written
    ensures t.record.value.boot == s.boot && t.marker == s.marker
    ensures var found := s.pendings[s.boot];
            var moves := found.Some? && s.retired != found;
            && t.retired == (if found.Some? then found else s.retired)
            && t.log == (if moves then None else s.log)
  {}

  /** The log is opened or made, and the line is appended. */
  lemma Written(s: State, inode: nat)
    requires s.place.Opening? && s.record.Some? && s.record.value.boot == s.boot
    ensures var t := AppendLine(Finish(Open(s, Done, inode), Done), Done);
            && Open(s, Done, inode).record.Some?
            && t.place.Idle? && t.boot == s.boot && t.written == s.written + 1 && t.retired == s.retired
            && t.log.Some? && t.log.value.lines == (if s.log.Some? then s.log.value.lines else []) + [s.boot]
    ensures s.record.value.phase.Pending? || s.marker == s.record ==>
              var t := AppendLine(Finish(Open(s, Done, inode), Done), Done);
              t.marker.Some? && t.marker.value.boot == s.boot && t.marker.value.phase.Rotated?
  {}
}
