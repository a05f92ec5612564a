/** Publishing the module record: an operation may fail to store or die at any step, and a snapshot
  * must not call a module's state definite when an observation was lost. */
module ModuleSnapshot {
  import opened Options

  const GENERATION_MAX: nat := 0xFFFF_FFFF_FFFF_FFFF

  /** The record file. Updates since the last full inventory are named by numbers. */
  datatype Data = Corrupt | Good(boot: nat, generation: nat, entries: seq<nat>)

  /** Where the operation that holds the lock stands. */
  datatype Place =
    | Checking
    | Publishing
    | Loading
    | Working
    | Clearing
    | Ending
    | Removing
    | Ended
    | Invalidating(next: Next)

  /** Where the operation goes on once the record is marked invalid: in its constructor, or at work. */
  datatype Next = ToPublishing | ToStart | ToWorking

  /** The lock holder, and whether this operation's own pending marker was written. */
  datatype Holder = Holder(place: Place, published: bool)

  /** The files, the holder, and for comparison: every update asked for since the last full
    * inventory of this boot, whether a published operation lost one or never finished, and whether
    * any other operation did so in this boot (the record of a new boot starts empty). */
  datatype State = State(
    boot: nat,
    data: Option<Data>,
    pending: bool,
    invalid: bool,
    holder: Option<Holder>,
    asked: seq<nat>,
    debt: bool,
    missed: bool)

  /** A file replaced atomically: a failure may be reported after the replacement. */
  datatype Outcome = Done | Fails | DoneButFails

  datatype Action =
    | Lock
    | Advance(outcome: Outcome)
    | Update(id: nat, outcome: Outcome)
    | Inventory(outcome: Outcome)
    | Finish
    | Leave
    | Die
    | Reboot
    | Stray
    | StrayMark

  function At(s: State, place: Place): State
    requires s.holder.Some?
  {
    s.(holder := Some(s.holder.value.(place := place)))
  }

  predicate Loads(s: State) { s.data.Some? && s.data.value.Good? && s.data.value.boot == s.boot }

  /** A missing record, or one of an earlier boot, starts an empty one; anything else is an error. */
  predicate Startable(s: State) { s.data.None? || s.data.value.Good? }

  function Opened(s: State): Data
    requires Startable(s)
  {
    if Loads(s) then s.data.value else Good(s.boot, 0, [])
  }

  /** The constructor after the record was read: a new generation, or an invalid marker. */
  function Start(s: State, outcome: Outcome): State
    requires s.holder.Some?
  {
    if !Startable(s) || Opened(s).generation >= GENERATION_MAX then At(s, Invalidating(ToStart))
    else
      var d := Opened(s).(generation := Opened(s).generation + 1);
      match outcome
      case Done => At(s.(data := Some(d)), Working)
      case Fails => At(s, Invalidating(ToStart))
      case DoneButFails => At(s.(data := Some(d)), Invalidating(ToStart))
  }

  /** One recorded observation. */
  function Record(s: State, id: nat, outcome: Outcome): State
    requires s.holder.Some?
  {
    if !Loads(s) || outcome.Fails? then
      At(if s.holder.value.published then s.(asked := s.asked + [id], debt := true) else s.(missed := true),
          Invalidating(ToWorking))
    else
      var t := s.(data := Some(s.data.value.(entries := s.data.value.entries + [id])), asked := s.asked + [id]);
      if outcome.Done? then t else At(t, Invalidating(ToWorking))
  }

  /** A full assignment: whatever the record was, it is now the inventory. */
  function Assign(s: State, outcome: Outcome): State
    requires s.holder.Some?
  {
    var d := if Loads(s) then s.data.value.(entries := []) else Good(s.boot, 1, []);
    match outcome
    case Fails => At(if s.holder.value.published then s.(debt := true) else s.(missed := true), Invalidating(ToWorking))
    case Done => At(s.(data := Some(d), asked := [], debt := false, missed := false), Clearing)
    case DoneButFails => At(s.(data := Some(d), asked := [], debt := false, missed := false), Invalidating(ToWorking))
  }

  function Proceed(s: State, outcome: Outcome): State
    requires s.holder.Some?
  {
    match s.holder.value.place
    case Checking => At(s, if s.pending then Invalidating(ToPublishing) else Publishing)
    case Publishing =>
      (match outcome
       case Done => s.(pending := true, holder := Some(Holder(Loading, true)))
       case Fails => At(s, Invalidating(ToStart))
       case DoneButFails => At(s.(pending := true), Invalidating(ToStart)))
    case Loading => Start(s, outcome)
    case Clearing => At(if outcome.Fails? then s else s.(invalid := false), Working)
    case Ending => At(s, if s.invalid then Ended else Removing)
    case Removing => At(if outcome.Fails? then s else s.(pending := false), Ended)
    case Invalidating(next) => At(s.(invalid := true), if next.ToPublishing? then Publishing else Working)
    case _ => s
  }

  /** The holder is gone; a published operation that was not finished is a debt. */
  function Gone(s: State): State {
    if s.holder.None? then s
    else
      var open := !s.holder.value.place.Ended?;
      s.(holder := None,
         debt := s.debt || (s.holder.value.published && open),
         missed := s.missed || (!s.holder.value.published && open && Begun(s.holder.value.place)))
  }

  /** Past its constructor, so the operation may have changed something. */
  predicate Begun(place: Place) {
    match place
    case Working => true
    case Clearing => true
    case Ending => true
    case Removing => true
    case Ended => true
    case Invalidating(next) => next.ToWorking?
    case _ => false
  }

  /** What the holder itself does next. */
  function Work(s: State, a: Action): State
    requires s.holder.Some?
  {
    var place := s.holder.value.place;
    if a.Advance? then Proceed(s, a.outcome)
    else if a.Update? && place.Working? then Record(s, a.id, a.outcome)
    else if a.Inventory? && place.Working? then Assign(s, a.outcome)
    else if a.Finish? && place.Working? then At(s, Ending)
    else if a.Leave? && (place.Working? || place.Ended?) then Gone(s)
    else s
  }

  /** A step of the holder, a death or a reboot; or an operation that could not get the lock: its
    * update is refused, then it marks the record invalid, if it lives. */
  function Step(s: State, a: Action): State {
    if a.Lock? then (if s.holder.None? then s.(holder := Some(Holder(Checking, false))) else s)
    else if a.Stray? then s.(missed := true)
    else if a.StrayMark? then s.(invalid := true)
    else if a.Die? then Gone(s)
    else if a.Reboot? then Gone(s).(boot := s.boot + 1, asked := [], missed := false)
    else if s.holder.Some? then Work(s, a)
    else s
  }

  /** A snapshot taken now reports definite states: the shared lock was free, the record loads and
    * neither marker is there. */
  predicate Definite(s: State) {
    s.holder.None? && Loads(s) && !s.pending && !s.invalid
  }

  // ---- what holds in every run -----------------------------------------------------------

  /** A loss is always visible: in the markers, or in what the holder does next. */
  predicate Visible(s: State) {
    s.debt ==>
      match s.holder
      case None => s.pending || s.invalid
      case Some(h) =>
        match h.place
        case Checking => s.pending || s.invalid
        case Invalidating(_) => s.pending || s.invalid
        case Clearing => false
        case Removing => false
        case _ => s.invalid
  }

  /** An operation's pending marker stays until it is finished. */
  predicate Marked(s: State) {
    s.holder.Some? && s.holder.value.published && !s.holder.value.place.Ended? ==> s.pending
  }

  /** Without a loss the record holds every update asked for. */
  predicate Recorded(s: State) {
    && (s.data.Some? && s.data.value.Good? ==> s.data.value.boot <= s.boot)
    && (!s.debt ==> if Loads(s) then s.data.value.entries == s.asked else Startable(s) ==> s.asked == [])
  }

  predicate Holds(s: State) { Visible(s) && Marked(s) && Recorded(s) }

  /** Any files left from before, with nothing asked yet in this boot. */
  predicate Init(s: State) {
    && s.holder.None? && s.asked == [] && !s.debt && !s.missed
    && (s.data.Some? && s.data.value.Good? ==> s.data.value.boot < s.boot)
  }

  lemma StepHolds(s: State, a: Action)
    requires Holds(s)
    ensures Holds(Step(s, a))
  {
    hide Work, Holds;
    if a.Lock? || a.Stray? || a.StrayMark? || a.Die? || a.Reboot? {
      OutsideHolds(s, a);
    } else if s.holder.Some? {
      WorkHolds(s, a);
    }
  }

  lemma OutsideHolds(s: State, a: Action)
    requires Holds(s) && (a.Lock? || a.Stray? || a.StrayMark? || a.Die? || a.Reboot?)
    ensures Holds(Step(s, a))
  {}

  lemma WorkHolds(s: State, a: Action)
    requires Holds(s) && s.holder.Some?
    ensures Holds(Work(s, a))
  {
    hide Proceed, Record, Assign;
    if a.Advance? {
      NextHolds(s, a.outcome);
    } else if a.Update? && s.holder.value.place.Working? {
      RecordHolds(s, a.id, a.outcome);
    } else if a.Inventory? && s.holder.value.place.Working? {
      AssignHolds(s, a.outcome);
    }
  }

  lemma NextHolds(s: State, outcome: Outcome)
    requires Holds(s) && s.holder.Some?
    ensures Holds(Proceed(s, outcome))
  {
    hide Start;
    if s.holder.value.place.Loading? {
      StartHolds(s, outcome);
    }
  }

  lemma StartHolds(s: State, outcome: Outcome)
    requires Holds(s) && s.holder.Some? && s.holder.value.place.Loading?
    ensures Holds(Start(s, outcome))
  {}

  lemma RecordHolds(s: State, id: nat, outcome: Outcome)
    requires Holds(s) && s.holder.Some? && s.holder.value.place.Working?
    ensures Holds(Record(s, id, outcome))
  {}

  lemma AssignHolds(s: State, outcome: Outcome)
    requires Holds(s) && s.holder.Some? && s.holder.value.place.Working?
    ensures Holds(Assign(s, outcome))
  {}

  /** The states a list of actions leads through. */
  function Run(s: State, actions: seq<Action>): State {
    if actions == [] then s else Step(Run(s, actions[..|actions| - 1]), actions[|actions| - 1])
  }

  /** Whatever happens, a definite snapshot reports every update asked for since the last full
    * inventory, and no published operation was lost or is unfinished. */
  lemma {:induction false} DefiniteIsComplete(s: State, actions: seq<Action>)
    requires Init(s)
    ensures var t := Run(s, actions);
            Holds(t) && (Definite(t) ==> !t.debt && t.data.value.entries == t.asked)
  {
    hide Step, Init, Holds;
    if actions == [] {
      InitHolds(s);
    } else {
      DefiniteIsComplete(s, actions[..|actions| - 1]);
      StepHolds(Run(s, actions[..|actions| - 1]), actions[|actions| - 1]);
    }
    if Definite(Run(s, actions)) {
      HoldsIsComplete(Run(s, actions));
    }
  }

  lemma InitHolds(s: State)
    requires Init(s)
    ensures Holds(s)
  {}

  lemma HoldsIsComplete(s: State)
    requires Holds(s) && Definite(s)
    ensures !s.debt && s.data.value.entries == s.asked
  {}

  /** Only a full inventory clears a loss. */
  lemma {:induction false} LossStays(s: State, actions: seq<Action>)
    requires Holds(s) && s.debt && forall i :: 0 <= i < |actions| ==> !actions[i].Inventory?
    ensures Run(s, actions).debt && !Definite(Run(s, actions)) && Holds(Run(s, actions))
  {
    hide Holds, Step, Definite;
    if actions != [] {
      var before := Run(s, actions[..|actions| - 1]);
      LossStays(s, actions[..|actions| - 1]);
      StepHolds(before, actions[|actions| - 1]);
      LossStep(before, actions[|actions| - 1]);
    }
    if Definite(Run(s, actions)) {
      HoldsIsComplete(Run(s, actions));
    }
  }

  lemma LossStep(s: State, a: Action)
    requires s.debt && !a.Inventory?
    ensures Step(s, a).debt
  {}

  // ---- operations without a lock or a marker ---------------------------------------------

  /** A step that loses something no marker of its operation stands for: an operation without the lock
    * is refused an update, or one whose marker was not written is refused an update or an inventory,
    * or goes without finishing. */
  predicate Loses(s: State, a: Action) {
    || a.Stray?
    || (s.holder.Some? && !s.holder.value.published && LosesUnpublished(s, s.holder.value.place, a))
  }

  predicate LosesUnpublished(s: State, place: Place, a: Action) {
    match a
    case Update(_, outcome) => place.Working? && (!Loads(s) || outcome.Fails?)
    case Inventory(outcome) => place.Working? && outcome.Fails?
    case Die => Begun(place) && !place.Ended?
    case Leave => place.Working?
    case _ => false
  }

  /** A step after which earlier losses no longer matter: a full inventory is stored, or a boot begins. */
  predicate Clears(s: State, a: Action) {
    a.Reboot? || (a.Inventory? && s.holder.Some? && s.holder.value.place.Working? && !a.outcome.Fails?)
  }

  lemma MissedStep(s: State, a: Action)
    ensures Step(s, a).missed == (!Clears(s, a) && (s.missed || Loses(s, a)))
  {
    hide Work, Gone;
    if s.holder.Some? && !a.Lock? && !a.Stray? && !a.StrayMark? && !a.Die? && !a.Reboot? {
      MissedWork(s, a);
    }
    MissedGone(s);
  }

  lemma MissedGone(s: State)
    ensures Gone(s).missed == (s.missed || (s.holder.Some? && !s.holder.value.published
                                            && !s.holder.value.place.Ended? && Begun(s.holder.value.place)))
  {}

  /** What the holder's own steps lose. */
  lemma MissedWork(s: State, a: Action)
    requires s.holder.Some? && !a.Lock? && !a.Stray? && !a.StrayMark? && !a.Die? && !a.Reboot?
    ensures Work(s, a).missed == (!Clears(s, a) && (s.missed || Loses(s, a)))
  {
    hide Proceed, Gone;
    MissedProceed(s);
    MissedGone(s);
  }

  lemma MissedProceed(s: State)
    requires s.holder.Some?
    ensures forall outcome :: Proceed(s, outcome).missed == s.missed
  {}

  /** The i-th step loses something and no later step clears it. */
  ghost predicate LostAt(s: State, actions: seq<Action>, i: int) {
    && 0 <= i < |actions| && Loses(Run(s, actions[..i]), actions[i])
    && !Clears(Run(s, actions[..i]), actions[i])
    && forall j :: i < j < |actions| ==> !Clears(Run(s, actions[..j]), actions[j])
  }

  lemma {:induction false} MissedExactly(s: State, actions: seq<Action>)
    requires !s.missed
    ensures Run(s, actions).missed <==> exists i :: LostAt(s, actions, i)
  {
    if actions != [] {
      hide Step, Loses, Clears;
      var n := |actions| - 1;
      var front := actions[..n];
      MissedExactly(s, front);
      MissedStep(Run(s, front), actions[n]);
      forall i | 0 <= i < n
        ensures front[i] == actions[i] && front[..i] == actions[..i]
      {}
      forall i | 0 <= i < n
        ensures LostAt(s, actions, i) <==> LostAt(s, front, i) && !Clears(Run(s, front), actions[n])
      {
        LostLater(s, actions, i);
      }
      assert LostAt(s, actions, n) <==> Loses(Run(s, front), actions[n]) && !Clears(Run(s, front), actions[n]);
      LostSplit(s, actions);
    }
  }

  lemma LostLater(s: State, actions: seq<Action>, i: nat)
    requires i < |actions| - 1
    ensures var front, last := actions[..|actions| - 1], actions[|actions| - 1];
            LostAt(s, actions, i) <==> LostAt(s, front, i) && !Clears(Run(s, front), last)
  {
    hide Run, Loses, Clears;
    var n := |actions| - 1;
    var front := actions[..n];
    forall j | 0 <= j < n
      ensures front[..j] == actions[..j] && front[j] == actions[j]
    {}
    if LostAt(s, front, i) && !Clears(Run(s, front), actions[n]) {
      forall j | i < j < |actions|
        ensures !Clears(Run(s, actions[..j]), actions[j])
      {
        if j < n {
          assert !Clears(Run(s, front[..j]), front[j]);
        }
      }
    }
    if LostAt(s, actions, i) {
      forall j | i < j < n
        ensures !Clears(Run(s, front[..j]), front[j])
      {
        assert !Clears(Run(s, actions[..j]), actions[j]);
      }
    }
  }

  lemma LostSplit(s: State, actions: seq<Action>)
    requires actions != []
    ensures (exists i :: LostAt(s, actions, i))
            <==> LostAt(s, actions, |actions| - 1) || exists i :: 0 <= i < |actions| - 1 && LostAt(s, actions, i)
  {
    hide Run, Loses, Clears;
    if i :| LostAt(s, actions, i) {
      assert i == |actions| - 1 || i < |actions| - 1;
    }
  }

  /** A definite snapshot holds every update that was taken on and no published operation is unfinished or
    * lost one; beyond those something was missed if and only if a step lost it that no later step cleared. */
  lemma DefiniteMissesExactly(s: State, actions: seq<Action>)
    requires Init(s) && Definite(Run(s, actions))
    ensures var t := Run(s, actions);
            !t.debt && t.data.value.entries == t.asked && (t.missed <==> exists i :: LostAt(s, actions, i))
  {
    hide Step;
    DefiniteIsComplete(s, actions);
    MissedExactly(s, actions);
  }

  lemma {:induction false} Then(s: State, actions: seq<Action>, a: Action)
    ensures Run(s, actions + [a]) == Step(Run(s, actions), a)
  {
    assert (actions + [a])[..|actions|] == actions;
  }

  lemma RunNothing(s: State)
    ensures Run(s, []) == s
  {}

  const EMPTY: State := State(1, None, false, false, None, [], false, false)

  /** An operation that prepares, stores a full inventory and clears the invalid marker. */
  function Opening(publish: Outcome): seq<Action> {
    [Lock] + [Advance(Done)] + [Advance(publish)] + [Advance(Done)] + [Inventory(Done)]
  }

  lemma OpeningReaches(publish: Outcome)
    requires !publish.DoneButFails?
    ensures Init(EMPTY)
    ensures var s := Run(EMPTY, Opening(publish));
            s.holder == Some(Holder(Clearing, publish.Done?)) && Loads(s) && s.pending == publish.Done? && !s.missed
  {
    RunNothing(EMPTY);
    hide Run;
    Then(EMPTY, [], Lock);
    assert [] + [Lock] == [Lock];
    Then(EMPTY, [Lock], Advance(Done));
    Then(EMPTY, [Lock] + [Advance(Done)], Advance(publish));
    Then(EMPTY, [Lock] + [Advance(Done)] + [Advance(publish)], Advance(Done));
    Then(EMPTY, [Lock] + [Advance(Done)] + [Advance(publish)] + [Advance(Done)], Inventory(Done));
  }

  /** From any definite state an operation without the lock may be refused its update and be killed
    * before it marks the record invalid: the state stays definite. */
  lemma StrayIsUnseen(s: State, actions: seq<Action>)
    requires Definite(Run(s, actions))
    ensures Definite(Run(s, actions + [Stray])) && LostAt(s, actions + [Stray], |actions|)
  {
    Then(s, actions, Stray);
    assert (actions + [Stray])[..|actions|] == actions;
  }

  /** A mark written while an inventory is being finished is removed with the old one. */
  lemma StrayMarkIsErased() returns (actions: seq<Action>)
    ensures var s := Run(EMPTY, actions);
            s.holder == Some(Holder(Working, true)) && Loads(s) && !s.invalid && s.missed
  {
    hide Opening, Run;
    OpeningReaches(Done);
    actions := Opening(Done) + [Stray] + [StrayMark] + [Advance(Done)];
    Then(EMPTY, Opening(Done), Stray);
    Then(EMPTY, Opening(Done) + [Stray], StrayMark);
    Then(EMPTY, Opening(Done) + [Stray] + [StrayMark], Advance(Done));
  }

  /** Once that operation has finished nothing is left of the loss. */
  lemma StrayMarkIsUnseen() returns (actions: seq<Action>)
    ensures Definite(Run(EMPTY, actions)) && Run(EMPTY, actions).missed
  {
    hide Run;
    var a := StrayMarkIsErased();
    Then(EMPTY, a, Finish);
    Then(EMPTY, a + [Finish], Advance(Done));
    Then(EMPTY, a + [Finish] + [Advance(Done)], Advance(Done));
    Then(EMPTY, a + [Finish] + [Advance(Done)] + [Advance(Done)], Leave);
    actions := a + [Finish] + [Advance(Done)] + [Advance(Done)] + [Leave];
  }

  /** The pending marker matters: without it, a death between a failed store and the invalid marker
    * goes unseen once an inventory has cleared the earlier mark. */
  lemma UnpublishedIsUnseen(id: nat)
    ensures var actions := Opening(Fails) + [Advance(Done)] + [Update(id, Fails)] + [Die];
            Definite(Run(EMPTY, actions)) && Run(EMPTY, actions).missed
  {
    hide Opening, Run;
    OpeningReaches(Fails);
    var a := Opening(Fails);
    Then(EMPTY, a, Advance(Done));
    Then(EMPTY, a + [Advance(Done)], Update(id, Fails));
    Then(EMPTY, a + [Advance(Done)] + [Update(id, Fails)], Die);
  }

  // ---- what an undisturbed operation achieves --------------------------------------------

  /** Take the lock, publish, record one update, finish and leave, with every save working. */
  function Recording(id: nat): seq<Action> {
    [Lock, Advance(Done), Advance(Done), Advance(Done), Update(id, Done), Finish, Advance(Done), Advance(Done), Leave]
  }

  /** Records of this boot, or none. */
  function Entries(s: State): seq<nat> { if Loads(s) then s.data.value.entries else [] }

  /** Steps of a run one by one. */
  function Steps(s: State, actions: seq<Action>): State
    decreases |actions|
  {
    if actions == [] then s else Steps(Step(s, actions[0]), actions[1..])
  }

  lemma {:induction false} StepsAreRun(s: State, actions: seq<Action>)
    ensures Steps(s, actions) == Run(s, actions)
    decreases |actions|
  {
    hide Step;
    if actions != [] {
      StepsAreRun(Step(s, actions[0]), actions[1..]);
      RunFirst(s, actions);
    }
  }

  lemma {:induction false} RunFirst(s: State, actions: seq<Action>)
    requires actions != []
    ensures Run(s, actions) == Run(Step(s, actions[0]), actions[1..])
    decreases |actions|
  {
    hide Step;
    var n := |actions| - 1;
    if n == 0 {
      assert actions[..0] == [] && actions[1..] == [];
    } else {
      RunFirst(s, actions[..n]);
      assert actions[..n][1..] == actions[1..][..n - 1] && actions[1..][n - 1] == actions[n];
    }
  }

  /** From files without markers an undisturbed operation leaves a definite snapshot with its update last. */
  lemma RecordingIsDefinite(s: State, id: nat)
    requires s.holder.None? && !s.pending && !s.invalid && Startable(s) && Opened(s).generation < GENERATION_MAX
    ensures var t := Run(s, Recording(id));
            && Definite(t) && t.boot == s.boot && t.data.value.entries == Entries(s) + [id]
            && t.asked == s.asked + [id] && t.debt == s.debt && t.missed == s.missed
            && t.data.value.generation == Opened(s).generation + 1
  {
    StepsAreRun(s, Recording(id));
    hide Run, Steps, Work;
    var a := Recording(id);
    var published := s.(pending := true, holder := Some(Holder(Loading, true)));
    var d := Opened(s).(generation := Opened(s).generation + 1);
    var working := published.(data := Some(d), holder := Some(Holder(Working, true)));
    var recorded := working.(data := Some(d.(entries := d.entries + [id])), asked := s.asked + [id]);
    Three(s, a);
    PublishSteps(s);
    StartStep(published, d);
    RecordStep(working, id, recorded);
    FinishSteps(recorded);
  }

  /** Nine steps are nine steps. */
  lemma Three(s: State, a: seq<Action>)
    requires |a| == 9
    ensures Steps(s, a)
         == Step(Step(Step(Step(Step(Step(Step(Step(Step(s, a[0]), a[1]), a[2]), a[3]), a[4]), a[5]), a[6]), a[7]),
            a[8])
  {
    hide Step;
    var b := a[3..];
    var c := b[3..];
    assert a[1..][1..][1..] == b && b[1..][1..][1..] == c && c[1..][1..][1..] == [];
    ThreeSteps(s, a);
    ThreeSteps(Step(Step(Step(s, a[0]), a[1]), a[2]), b);
    ThreeSteps(Step(Step(Step(Step(Step(Step(s, a[0]), a[1]), a[2]), a[3]), a[4]), a[5]), c);
  }

  lemma ThreeSteps(s: State, a: seq<Action>)
    requires |a| >= 3
    ensures Steps(s, a) == Steps(Step(Step(Step(s, a[0]), a[1]), a[2]), a[3..])
  {
    hide Step;
    var one := Step(s, a[0]);
    assert Steps(s, a) == Steps(one, a[1..]);
    assert a[1..][0] == a[1] && a[1..][1..] == a[2..];
    var two := Step(one, a[1]);
    assert Steps(one, a[1..]) == Steps(two, a[2..]);
    assert a[2..][0] == a[2] && a[2..][1..] == a[3..];
    assert Steps(two, a[2..]) == Steps(Step(two, a[2]), a[3..]);
  }

  lemma PublishSteps(s: State)
    requires s.holder.None? && !s.pending
    ensures Step(Step(Step(s, Lock), Advance(Done)), Advance(Done))
         == s.(pending := true, holder := Some(Holder(Loading, true)))
  {}

  lemma StartStep(s: State, d: Data)
    requires s.holder == Some(Holder(Loading, true)) && Startable(s) && Opened(s).generation < GENERATION_MAX
    requires d == Opened(s).(generation := Opened(s).generation + 1)
    ensures Step(s, Advance(Done)) == s.(data := Some(d), holder := Some(Holder(Working, true)))
  {}

  lemma RecordStep(s: State, id: nat, t: State)
    requires s.holder == Some(Holder(Working, true)) && Loads(s)
    requires t == s.(data := Some(s.data.value.(entries := s.data.value.entries + [id])), asked := s.asked + [id])
    ensures Step(s, Update(id, Done)) == t
  {}

  lemma FinishSteps(s: State)
    requires s.holder == Some(Holder(Working, true)) && !s.invalid
    ensures Step(Step(Step(Step(s, Finish), Advance(Done)), Advance(Done)), Leave)
            == s.(pending := false, holder := None)
  {}

  /** Taking the lock and publishing; a leftover marker, or a record that cannot be started, is marked first. */
  function Preparing(marked: bool, unusable: bool): seq<Action> {
    [Lock, Advance(Done)] + (if marked then [Advance(Done)] else []) + [Advance(Done), Advance(Done)]
    + (if unusable then [Advance(Done)] else [])
  }

  const REBUILDING: seq<Action> := [Inventory(Done), Advance(Done), Finish, Advance(Done), Advance(Done), Leave]

  predicate Usable(s: State) { Startable(s) && Opened(s).generation < GENERATION_MAX }

  lemma {:induction false} StepsThen(s: State, a: seq<Action>, b: seq<Action>)
    ensures Steps(s, a + b) == Steps(Steps(s, a), b)
    decreases |a|
  {
    hide Step;
    if a == [] {
      assert a + b == b;
    } else {
      assert (a + b)[1..] == a[1..] + b;
      StepsThen(Step(s, a[0]), a[1..], b);
    }
  }

  lemma OneStep(s: State, x: Action)
    ensures Steps(s, [x]) == Step(s, x)
  {
    hide Step;
    assert [x][1..] == [];
  }

  lemma TwoSteps(s: State, x: Action, y: Action)
    ensures Steps(s, [x, y]) == Step(Step(s, x), y)
  {
    hide Step;
    assert [x, y][1..] == [y];
    OneStep(Step(s, x), y);
  }

  lemma PreparingReaches(s: State)
    requires s.holder.None?
    ensures var w := Steps(s, Preparing(s.pending, !Usable(s)));
            && w.holder == Some(Holder(Working, true)) && w.pending && w.boot == s.boot
            && (Loads(w) ==> w.data.value.boot == s.boot)
  {
    hide Step;
    var checked := s.(holder := Some(Holder(if s.pending then Invalidating(ToPublishing) else Publishing, false)));
    var publishing := if s.pending then s.(invalid := true, holder := Some(Holder(Publishing, false))) else checked;
    var loading := publishing.(pending := true, holder := Some(Holder(Loading, true)));
    TwoSteps(s, Lock, Advance(Done));
    LockStep(s);
    var first := [Lock, Advance(Done)] + (if s.pending then [Advance(Done)] else []);
    StepsThen(s, [Lock, Advance(Done)], if s.pending then [Advance(Done)] else []);
    if s.pending {
      OneStep(checked, Advance(Done));
      MarkStep(s);
    }
    assert Steps(s, first) == publishing;
    StepsThen(s, first, [Advance(Done), Advance(Done)]);
    TwoSteps(publishing, Advance(Done), Advance(Done));
    LoadStep(publishing);
    var started := Step(loading, Advance(Done));
    StepsThen(s, first + [Advance(Done), Advance(Done)], if !Usable(s) then [Advance(Done)] else []);
    StartedWorks(loading);
    if !Usable(s) {
      OneStep(started, Advance(Done));
    }
  }

  lemma LockStep(s: State)
    requires s.holder.None?
    ensures Step(Step(s, Lock), Advance(Done))
         == s.(holder := Some(Holder(if s.pending then Invalidating(ToPublishing) else Publishing, false)))
  {}

  lemma MarkStep(s: State)
    ensures Step(s.(holder := Some(Holder(Invalidating(ToPublishing), false))), Advance(Done))
         == s.(invalid := true, holder := Some(Holder(Publishing, false)))
  {}

  lemma LoadStep(s: State)
    requires s.holder == Some(Holder(Publishing, false))
    ensures Step(s, Advance(Done)) == s.(pending := true, holder := Some(Holder(Loading, true)))
  {}

  lemma StartedWorks(s: State)
    requires s.holder == Some(Holder(Loading, true)) && s.pending
    ensures var t := Step(s, Advance(Done));
            var w := if Usable(s) then t else Step(t, Advance(Done));
            w.holder == Some(Holder(Working, true)) && w.pending && w.boot == s.boot
  {}

  /** Whatever an earlier operation left behind, an undisturbed full inventory makes the snapshot definite:
    * the record is of this boot and holds the inventory, and nothing earlier is missed. */
  lemma InventoryIsDefinite(s: State)
    requires s.holder.None?
    ensures var t := Run(s, Preparing(s.pending, !Usable(s)) + REBUILDING);
            Definite(t) && t.boot == s.boot && t.data.value.entries == [] && t.asked == [] && !t.debt && !t.missed
  {
    var a := Preparing(s.pending, !Usable(s));
    StepsAreRun(s, a + REBUILDING);
    StepsThen(s, a, REBUILDING);
    PreparingReaches(s);
    hide Step, Run, Preparing;
    var w := Steps(s, a);
    StepsThen(w, [Inventory(Done), Advance(Done)], [Finish, Advance(Done), Advance(Done), Leave]);
    TwoSteps(w, Inventory(Done), Advance(Done));
    AssignSteps(w);
    var rebuilt := Step(Step(w, Inventory(Done)), Advance(Done));
    StepsThen(rebuilt, [Finish, Advance(Done)], [Advance(Done), Leave]);
    TwoSteps(rebuilt, Finish, Advance(Done));
    TwoSteps(Step(Step(rebuilt, Finish), Advance(Done)), Advance(Done), Leave);
    FinishSteps(rebuilt);
    assert REBUILDING == [Inventory(Done), Advance(Done)] + [Finish, Advance(Done), Advance(Done), Leave];
    assert [Finish, Advance(Done), Advance(Done), Leave] == [Finish, Advance(Done)] + [Advance(Done), Leave];
  }

  lemma AssignSteps(s: State)
    requires s.holder == Some(Holder(Working, true))
    ensures var t := Step(Step(s, Inventory(Done)), Advance(Done));
            && t.holder == Some(Holder(Working, true)) && !t.invalid && t.boot == s.boot && Loads(t)
            && t.data.value.entries == [] && t.asked == [] && !t.debt && !t.missed
  {}

  /** An operation without the lock that lives to mark the record takes every snapshot's certainty. */
  lemma StrayMarks(s: State)
    ensures !Definite(Step(Step(s, Stray), StrayMark))
  {}
}
