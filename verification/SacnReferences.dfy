/** The sACN library shared by all instances: a global reference count brings it up and down. */
module SacnReferences {

  /** What a library call does: report success, report an error, or throw. */
  datatype Outcome = Good | Bad | Throws

  /** The count and the library; calls lists the library's own Init (true) and Deinit (false) in order. */
  datatype Global = Global(refs: nat, up: bool, calls: seq<bool>)

  const START := Global(0, false, [])

  /** sacn_global_init; the caller gets a reference when it succeeds. Only a first reference meets the library. */
  function Acquire(g: Global, init: Outcome): Global {
    if g.refs > 0 then g.(refs := g.refs + 1)
    else if init == Good then Global(1, true, g.calls + [true])
    else g
  }

  predicate Acquires(g: Global, init: Outcome) {
    g.refs > 0 || init == Good
  }

  /** sacn_global_deinit. */
  function Release(g: Global): Global {
    if g.refs > 1 then g.(refs := g.refs - 1)
    else if g.refs == 1 then Global(0, false, g.calls + [false])
    else g
  }

  // ----- instances, interleaved

  /** Where one instance is. An instance has at most one init or deinit in progress: both hold its state mutex. */
  datatype Phase =
    | Idle(initialized: bool)
    | Starting      // has its reference, the source is being set up
    | Failing       // has its reference, and is about to give it back
    | Catching      // the library threw: no reference, but about to give one back
    | Closing       // has its reference, the source has been shut down
    | Released      // has given it back, the flag is still set

  predicate HasReference(p: Phase) {
    p == Idle(true) || p.Starting? || p.Failing? || p.Closing?
  }

  datatype System = System(global: Global, phases: seq<Phase>)

  datatype Move = Create | Begin(init: Outcome) | Succeed | Fail | GiveUp | Close | GiveBack | Clear

  /** One step of instance i; a move that does not fit its phase changes nothing. Create adds an instance. */
  function Step(s: System, i: nat, move: Move): System {
    if move == Create then System(s.global, s.phases + [Idle(false)])
    else if i >= |s.phases| then s
    else
      var p := s.phases[i];
      match move
      case Begin(init) =>
        if p != Idle(false) then s
        else if Acquires(s.global, init) then System(Acquire(s.global, init), s.phases[i := Starting])
        else if init == Throws then s.(phases := s.phases[i := Catching])
        else s
      case Succeed => if p.Starting? then s.(phases := s.phases[i := Idle(true)]) else s
      case Fail => if p.Starting? then s.(phases := s.phases[i := Failing]) else s
      case GiveUp => if p.Failing? || p.Catching? then System(Release(s.global), s.phases[i := Idle(false)]) else s
      case Close => if p == Idle(true) then s.(phases := s.phases[i := Closing]) else s
      case GiveBack => if p.Closing? then System(Release(s.global), s.phases[i := Released]) else s
      case Clear => if p.Released? then s.(phases := s.phases[i := Idle(false)]) else s
      case Create => s
  }

  datatype Turn = Turn(i: nat, move: Move)

  function Run(s: System, turns: seq<Turn>): System {
    if turns == [] then s
    else
      var k := |turns| - 1;
      Step(Run(s, turns[..k]), turns[k].i, turns[k].move)
  }

  function Holders(phases: seq<Phase>): nat {
    if phases == [] then 0
    else
      var k := |phases| - 1;
      Holders(phases[..k]) + if HasReference(phases[k]) then 1 else 0
  }

  function Initialized(phases: seq<Phase>): nat {
    if phases == [] then 0
    else
      var k := |phases| - 1;
      Initialized(phases[..k]) + if phases[k] == Idle(true) || phases[k].Closing? || phases[k].Released? then 1 else 0
  }

  /** Every reference counted belongs to an instance, and every instance that needs the library is counted. */
  predicate Conserved(s: System) {
    s.global.refs == Holders(s.phases)
  }

  /** Init and Deinit alternate, and the library is up exactly while the count is positive. */
  predicate Sound(g: Global) {
    (g.up <==> g.refs > 0) && (g.up <==> g.calls != [] && g.calls[|g.calls| - 1]) &&
    (forall k :: 0 <= k < |g.calls| ==> g.calls[k] == (k % 2 == 0))
  }

  lemma {:induction false} HoldersUpdate(phases: seq<Phase>, i: nat, p: Phase)
    requires i < |phases|
    ensures Holders(phases[i := p]) ==
      Holders(phases) - (if HasReference(phases[i]) then 1 else 0) + (if HasReference(p) then 1 else 0)
  {
    var k := |phases| - 1;
    if i == k {
      assert phases[i := p][..k] == phases[..k];
    } else {
      HoldersUpdate(phases[..k], i, p);
      assert phases[i := p][..k] == phases[..k][i := p];
    }
  }

  lemma HoldersCreate(phases: seq<Phase>)
    ensures Holders(phases + [Idle(false)]) == Holders(phases)
  {
    assert (phases + [Idle(false)])[..|phases|] == phases;
  }

  lemma {:induction false} HolderCounted(phases: seq<Phase>, i: nat)
    requires i < |phases| && HasReference(phases[i])
    ensures Holders(phases) > 0
  {
    if i < |phases| - 1 {
      HolderCounted(phases[..|phases| - 1], i);
    }
  }

  // ----- conservation

  /** The step that takes a reference from someone else: the handler gives back one it never got. */
  predicate Steals(s: System, t: Turn) {
    t.i < |s.phases| && s.phases[t.i].Catching? && t.move == GiveUp && s.global.refs > 0
  }

  lemma {:induction false} StepConserves(s: System, t: Turn)
    requires Conserved(s)
    ensures Conserved(Step(s, t.i, t.move)) <==> !Steals(s, t)
  {
    hide Holders;
    if t.move == Create {
      HoldersCreate(s.phases);
    } else if t.i < |s.phases| {
      var s' := Step(s, t.i, t.move);
      if s'.phases != s.phases {
        HoldersUpdate(s.phases, t.i, s'.phases[t.i]);
      }
      if HasReference(s.phases[t.i]) {
        HolderCounted(s.phases, t.i);
      }
    }
  }

  function From(turns: seq<Turn>): System {
    Run(System(START, []), turns)
  }

  /** The count is right at the start and after each turn. */
  predicate RightThroughout(turns: seq<Turn>) {
    Conserved(From(turns)) && (turns != [] ==> RightThroughout(turns[..|turns| - 1]))
  }

  /** None of the turns takes away a reference of another instance. */
  predicate NobodySteals(turns: seq<Turn>) {
    turns != [] ==>
      NobodySteals(turns[..|turns| - 1]) && !Steals(From(turns[..|turns| - 1]), turns[|turns| - 1])
  }

  /**
   * Over any interleaving of any number of instances, whatever the library answers, the count is
   * right after every step if and only if no handler ever gives up a reference it never got
   * while the count is positive.
   */
  lemma {:induction false} ConservedExactly(turns: seq<Turn>)
    ensures RightThroughout(turns) <==> NobodySteals(turns)
  {
    hide Step, Steals, Conserved;
    if turns == [] {
      NothingYet();
    } else {
      var before := turns[..|turns| - 1];
      ConservedExactly(before);
      if Conserved(From(before)) {
        StepConserves(From(before), turns[|turns| - 1]);
      }
    }
  }

  lemma NothingYet()
    ensures Conserved(Run(System(START, []), []))
  {
  }

  /** Without a throwing library no handler runs without a reference. */
  lemma {:induction false} NobodyCatching(turns: seq<Turn>)
    requires forall t :: t in turns ==> t.move != Begin(Throws)
    ensures var s := Run(System(START, []), turns);
      Conserved(s) && forall i :: 0 <= i < |s.phases| ==> !s.phases[i].Catching?
  {
    hide Holders;
    if turns == [] {
      NothingYet();
    } else {
      var k := |turns| - 1;
      assert turns[k] in turns;
      NobodyCatching(turns[..k]);
      StepConserves(Run(System(START, []), turns[..k]), turns[k]);
    }
  }

  /** Instances between method calls: the flags are then all there is to count. */
  predicate AtRest(phases: seq<Phase>) {
    forall i :: 0 <= i < |phases| ==> phases[i].Idle?
  }

  lemma {:induction false} RestCounts(phases: seq<Phase>)
    requires AtRest(phases)
    ensures Initialized(phases) == Holders(phases)
  {
    if phases != [] {
      RestCounts(phases[..|phases| - 1]);
    }
  }

  /**
   * While the library does not throw, the count equals the instances that hold a reference; it
   * equals the initialized ones when no method is in progress, and an instance that uses the
   * library finds it up.
   */
  lemma ReferencesConserved(turns: seq<Turn>, i: nat)
    requires forall t :: t in turns ==> t.move != Begin(Throws)
    ensures var s := Run(System(START, []), turns);
      s.global.refs == Holders(s.phases) && (s.global.up <==> s.global.refs > 0) &&
      (AtRest(s.phases) ==> s.global.refs == Initialized(s.phases)) &&
      (i < |s.phases| && HasReference(s.phases[i]) ==> s.global.up)
  {
    hide Holders, Initialized, Run;
    var s := Run(System(START, []), turns);
    NobodyCatching(turns);
    AlwaysSound(turns);
    if AtRest(s.phases) {
      RestCounts(s.phases);
    }
    if i < |s.phases| && HasReference(s.phases[i]) {
      HolderCounted(s.phases, i);
    }
  }

  lemma GlobalSound(g: Global, init: Outcome)
    requires Sound(g)
    ensures Sound(Acquire(g, init)) && Sound(Release(g))
  {
  }

  /** Whatever throws: the library's Init and Deinit alternate, and it is up exactly while the count is positive. */
  lemma {:induction false} AlwaysSound(turns: seq<Turn>)
    ensures Sound(Run(System(START, []), turns).global)
  {
    hide Sound, Acquire, Release;
    if turns == [] {
      assert Sound(START) by {
        StartSound();
      }
    } else {
      var k := |turns| - 1;
      AlwaysSound(turns[..k]);
      var t := turns[k];
      GlobalSound(Run(System(START, []), turns[..k]).global, if t.move.Begin? then t.move.init else Good);
    }
  }

  lemma StartSound()
    ensures Sound(START)
  {
  }

  lemma RunSnoc(s: System, turns: seq<Turn>, t: Turn)
    ensures Run(s, turns + [t]) == Step(Run(s, turns), t.i, t.move)
  {
    assert (turns + [t])[..|turns|] == turns;
  }

  /**
   * An instance gets its reference if and only if the library is up already, or comes up; only an
   * instance that finds it down asks the library, and only the last one to leave takes it down.
   */
  lemma LibraryAskedExactly(turns: seq<Turn>, i: nat, init: Outcome)
    requires i < |From(turns).phases| && From(turns).phases[i] == Idle(false)
    ensures var s := From(turns);
      var s' := Step(s, i, Begin(init));
      (s'.phases[i].Starting? <==> s.global.up || init == Good) &&
      (s'.phases[i].Catching? <==> !s.global.up && init == Throws) &&
      s'.global.calls == (if !s.global.up && init == Good then s.global.calls + [true] else s.global.calls) &&
      s'.global.refs == s.global.refs + (if s.global.up || init == Good then 1 else 0)
    ensures var s := From(turns);
      Release(s.global).refs == (if s.global.refs > 0 then s.global.refs - 1 else 0) &&
      Release(s.global).calls == if s.global.refs == 1 then s.global.calls + [false] else s.global.calls
  {
    AlwaysSound(turns);
    hide Run;
  }

  /** The handler of one instance, whose Init threw, takes the library down under another one. */
  lemma Torn()
    ensures var s := Run(System(START, []), [Turn(0, Create), Turn(0, Create), Turn(0, Begin(Throws)),
      Turn(1, Begin(Good)), Turn(1, Succeed), Turn(0, GiveUp)]);
      s.phases == [Idle(false), Idle(true)] && s.global.refs == 0 && !s.global.up
  {
    var t := [Turn(0, Create), Turn(0, Create), Turn(0, Begin(Throws)),
      Turn(1, Begin(Good)), Turn(1, Succeed), Turn(0, GiveUp)];
    var a := System(START, []);
    assert Run(a, t[..0]) == a;
    assert t[..1][..0] == t[..0] && t[..2][..1] == t[..1] && t[..3][..2] == t[..2];
    assert t[..4][..3] == t[..3] && t[..5][..4] == t[..4] && t[..6] == t;
    assert Run(a, t[..2]) == System(START, [Idle(false), Idle(false)]);
    assert Run(a, t[..3]) == System(START, [Catching, Idle(false)]);
    assert Run(a, t[..5]) == System(Global(1, true, [true]), [Catching, Idle(true)]);
  }

  // ----- the code of one instance

  class Library {
    var refCount: int
    var up: bool
    ghost var calls: seq<bool>

    ghost predicate Valid()
      reads this
    {
      refCount >= 0
    }

    ghost function View(): Global
      requires Valid()
      reads this
    {
      Global(refCount, up, calls)
    }

    constructor ()
      ensures Valid() && View() == START
    {
      refCount, up, calls := 0, false, [];
    }

    /** sacn_global_init; thrown says that the library's own Init threw. */
    method GlobalInit(init: Outcome) returns (ok: bool, thrown: bool)
      requires Valid()
      modifies this
      ensures Valid() && View() == Acquire(old(View()), init)
      ensures ok == Acquires(old(View()), init) && thrown == (!ok && init == Throws)
    {
      if refCount == 0 {
        if init == Throws {
          return false, true;
        }
        if init == Bad {
          return false, false;
        }
        up, calls := true, calls + [true];
      }
      refCount := refCount + 1;
      ok, thrown := true, false;
    }

    /** sacn_global_deinit. */
    method GlobalDeinit()
      requires Valid()
      modifies this
      ensures Valid() && View() == Release(old(View()))
    {
      if refCount > 0 {
        refCount := refCount - 1;
        if refCount == 0 {
          up, calls := false, calls + [false];
        }
      }
    }
  }

  /** The first answer other than Good, if there is one. */
  function FirstProblem(answers: seq<Outcome>): (problem: Outcome)
    ensures problem == Good <==> forall k :: 0 <= k < |answers| ==> answers[k] == Good
    ensures problem != Good ==>
      exists k :: 0 <= k < |answers| && answers[k] == problem && forall j :: 0 <= j < k ==> answers[j] == Good
  {
    if answers == [] then Good
    else if answers[0] != Good then answers[0]
    else FirstProblem(answers[1..])
  }

  /** The moves of one init_sACN when no other instance comes between them. */
  function InitTurns(i: nat, init: Outcome, acquired: bool, answers: seq<Outcome>): seq<Turn> {
    [Turn(i, Begin(init))] +
      if !acquired then (if init == Throws then [Turn(i, GiveUp)] else [])
      else if FirstProblem(answers) == Good then [Turn(i, Succeed)]
      else [Turn(i, Fail), Turn(i, GiveUp)]
  }

  class Instance {
    const library: Library
    var initialized: bool
    var sourceUp: bool

    constructor (library: Library)
      ensures this.library == library && !initialized && !sourceUp
    {
      this.library, initialized, sourceUp := library, false, false;
    }

    /**
     * init_sACN on an instance that is not initialized: the library's answer, that of making an
     * identifier, of starting the source and of adding each universe. A source whose universe is
     * refused is shut down again; one that throws is left running.
     */
    method InitSacn(init: Outcome, cid: Outcome, startup: Outcome, adds: seq<Outcome>) returns (ok: bool)
      requires library.Valid() && !initialized
      modifies this`initialized, this`sourceUp, library
      ensures library.Valid() && initialized == ok
      ensures library.refCount == old(library.refCount) + if ok then 1 else 0
      ensures ok <==> Acquires(old(library.View()), init) && FirstProblem([cid, startup] + adds) == Good
      ensures System(library.View(), [Idle(initialized)]) ==
        Run(System(old(library.View()), [Idle(false)]),
          InitTurns(0, init, Acquires(old(library.View()), init), [cid, startup] + adds))
      ensures sourceUp ==
        if Acquires(old(library.View()), init) && cid == Good && startup == Good then FirstProblem(adds) != Bad
        else old(sourceUp)
    {
      ghost var g := library.View();
      ghost var answers := [cid, startup] + adds;
      FirstOfThree(cid, startup, adds);
      InitEffect(g, init, answers);
      hide Run, InitTurns, FirstProblem;
      ok := false;
      var acquired, thrown := library.GlobalInit(init);
      if !acquired {
        if thrown {
          library.GlobalDeinit();
        }
        return;
      }
      if cid != Good {
        library.GlobalDeinit();
        return;
      }
      if startup != Good {
        library.GlobalDeinit();
        return;
      }
      sourceUp := true;
      var problem := AddAll(adds);
      if problem != Good {
        if problem == Bad {
          sourceUp := false;
        }
        library.GlobalDeinit();
        return;
      }
      initialized, ok := true, true;
    }

    /** Adds the universes one after the other up to the first that is not accepted. */
    method AddAll(adds: seq<Outcome>) returns (problem: Outcome)
      ensures problem == FirstProblem(adds)
    {
      problem := Good;
      for k := 0 to |adds|
        invariant problem == Good && FirstProblem(adds) == FirstProblem(adds[k..])
      {
        if adds[k] != Good {
          problem := adds[k];
          return;
        }
      }
    }

    /** deinit_sACN. */
    method DeinitSacn()
      requires library.Valid()
      modifies this`initialized, this`sourceUp, library
      ensures library.Valid() && !initialized
      ensures library.refCount == old(library.refCount) - if old(initialized && library.refCount > 0) then 1 else 0
      ensures System(library.View(), [Idle(initialized)]) ==
        if old(initialized) then
          Run(System(old(library.View()), [Idle(true)]), [Turn(0, Close), Turn(0, GiveBack), Turn(0, Clear)])
        else System(old(library.View()), [Idle(false)])
      ensures sourceUp == (old(sourceUp) && !old(initialized))
    {
      DeinitEffect(library.View());
      hide Run;
      if !initialized {
        return;
      }
      sourceUp := false;
      library.GlobalDeinit();
      initialized := false;
    }
  }

  lemma FirstOfThree(cid: Outcome, startup: Outcome, adds: seq<Outcome>)
    ensures FirstProblem([cid, startup] + adds) ==
      if cid != Good then cid else if startup != Good then startup else FirstProblem(adds)
  {
    var answers := [cid, startup] + adds;
    assert answers[1..] == [startup] + adds && answers[1..][1..] == adds;
  }

  lemma InitEffect(g: Global, init: Outcome, answers: seq<Outcome>)
    ensures var acquired := Acquires(g, init);
      var ok := acquired && FirstProblem(answers) == Good;
      Run(System(g, [Idle(false)]), InitTurns(0, init, acquired, answers)) ==
        System(if ok then Acquire(g, init) else if acquired then Release(Acquire(g, init))
          else if init == Throws then Release(g) else g, [Idle(ok)])
  {
    hide FirstProblem, Acquire, Release, Run;
    var s := System(g, [Idle(false)]);
    var first := Turn(0, Begin(init));
    RunOne(s, first);
    RunSnoc(s, [first], Turn(0, GiveUp));
    RunSnoc(s, [first], Turn(0, Succeed));
    RunSnoc(s, [first], Turn(0, Fail));
    RunSnoc(s, [first] + [Turn(0, Fail)], Turn(0, GiveUp));
    assert [first] + [Turn(0, Fail)] + [Turn(0, GiveUp)] == [first] + [Turn(0, Fail), Turn(0, GiveUp)];
    assert [first] + [] == [first];
  }

  lemma RunOne(s: System, t: Turn)
    ensures Run(s, [t]) == Step(s, t.i, t.move)
  {
    assert [t][..0] == [];
  }

  lemma DeinitEffect(g: Global)
    ensures Run(System(g, [Idle(true)]), [Turn(0, Close), Turn(0, GiveBack), Turn(0, Clear)]) ==
      System(Release(g), [Idle(false)])
  {
    hide Release;
    var s := System(g, [Idle(true)]);
    RunSnoc(s, [], Turn(0, Close));
    RunSnoc(s, [] + [Turn(0, Close)], Turn(0, GiveBack));
    RunSnoc(s, [] + [Turn(0, Close)] + [Turn(0, GiveBack)], Turn(0, Clear));
    assert [] + [Turn(0, Close)] + [Turn(0, GiveBack)] + [Turn(0, Clear)]
      == [Turn(0, Close), Turn(0, GiveBack), Turn(0, Clear)];
  }
}
