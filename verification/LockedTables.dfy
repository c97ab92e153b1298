/**
 * What the mutexes of the DMX class protect: the accesses each method makes, under which locks, and
 * the proof that no two threads are ever about to touch the same data at once.
 */
module LockedTables {
  import opened LockOrder

  /** Which mutexes an access must be made under. The keys may be read under either table lock. */
  predicate Allowed(r: Resource, write: bool, held: set<Kind>) {
    match r
    case Levels => Dmx in held
    case Fades => Fade in held
    case Keys => if write then Fade in held && Dmx in held else Fade in held || Dmx in held
    case Settings => State in held
    case Device => Serial in held
    case Cooldown => Send in held
    case References => Global in held
  }

  predicate Disciplined(c: Code, held: set<Kind>) {
    match c
    case Skip => true
    case Access(r, w) => Allowed(r, w, held)
    case Then(a, b) => Disciplined(a, held) && Disciplined(b, held)
    case Either(a, b) => Disciplined(a, held) && Disciplined(b, held)
    case Locked(k, b) => Disciplined(b, held + {k})
  }

  lemma DisciplineRules()
    ensures forall h :: Disciplined(Skip, h)
    ensures forall r, w, h :: Disciplined(Access(r, w), h) <==> Allowed(r, w, h)
    ensures forall a, b, h :: Disciplined(Then(a, b), h) <==> Disciplined(a, h) && Disciplined(b, h)
    ensures forall a, b, h :: Disciplined(Either(a, b), h) <==> Disciplined(a, h) && Disciplined(b, h)
    ensures forall k, b, h :: Disciplined(Locked(k, b), h) <==> Disciplined(b, h + {k})
  {
  }

  /** Every method makes each of its accesses under the mutexes that protect it. */
  lemma MethodsDisciplined(m: Method)
    ensures Disciplined(CodeOf(m), {})
  {
    if m.SendDmx? {
      SendDisciplined();
    } else if m.Init? {
      InitDisciplined();
    } else {
      OthersDisciplined(m);
    }
  }

  lemma SendDisciplined()
    ensures Disciplined(CodeOf(SendDmx), {})
  {
    hide Disciplined;
    DisciplineRules();
  }

  lemma InitDisciplined()
    ensures Disciplined(CodeOf(Init), {})
  {
    hide Disciplined;
    DisciplineRules();
  }

  lemma OthersDisciplined(m: Method)
    requires !m.SendDmx? && !m.Init?
    ensures Disciplined(CodeOf(m), {})
  {
    hide Disciplined, CANCEL, SET_LEVEL, BEGIN_FADE, ALL_ROWS, CHANGE_TABLE, LIVE_SOURCE, DEINIT_ALL;
    DisciplineRules();
    PartsDisciplined();
  }

  lemma PartsDisciplined()
    ensures Disciplined(CANCEL, {}) && Disciplined(SET_LEVEL, {}) && Disciplined(BEGIN_FADE, {})
    ensures Disciplined(ALL_ROWS, {}) && Disciplined(CHANGE_TABLE, {}) && Disciplined(LIVE_SOURCE, {})
    ensures Disciplined(DEINIT_ALL, {})
  {
    hide Disciplined;
    DisciplineRules();
  }

  // ----- which tables a method touches

  predicate Touches(c: Code, r: Resource, write: bool) {
    match c
    case Skip => false
    case Access(q, w) => q == r && w == write
    case Then(a, b) => Touches(a, r, write) || Touches(b, r, write)
    case Either(a, b) => Touches(a, r, write) || Touches(b, r, write)
    case Locked(_, b) => Touches(b, r, write)
  }

  lemma TouchRules(r: Resource, w: bool)
    ensures !Touches(Skip, r, w)
    ensures forall q, v :: Touches(Access(q, v), r, w) <==> q == r && v == w
    ensures forall a, b :: Touches(Then(a, b), r, w) <==> Touches(a, r, w) || Touches(b, r, w)
    ensures forall a, b :: Touches(Either(a, b), r, w) <==> Touches(a, r, w) || Touches(b, r, w)
    ensures forall k, b :: Touches(Locked(k, b), r, w) <==> Touches(b, r, w)
  {
  }

  lemma PartsTouch(r: Resource, w: bool)
    ensures Touches(CANCEL, r, w) <==> (r.Keys? && !w) || (r.Fades? && w)
    ensures Touches(SET_LEVEL, r, w) <==> (r.Keys? && !w) || (r.Levels? && w)
    ensures Touches(BEGIN_FADE, r, w) <==> (r.Keys? && !w) || (r.Levels? && !w) || (r.Fades? && w)
    ensures Touches(ALL_ROWS, r, w) <==> (r.Keys? && !w) || (r.Fades? && w) || (r.Levels? && w)
    ensures Touches(CHANGE_TABLE, r, w) <==> r.Keys?
    ensures Touches(LIVE_SOURCE, r, w) <==> r.Settings?
    ensures Touches(DEVICE, r, w) <==> r.Device? && w
    ensures Touches(INIT_SACN, r, w) <==> r.References? && w
    ensures Touches(DEINIT_ALL, r, w) <==> (r.Device? || r.References?) && w
    ensures Touches(SEND_SERIAL, r, w) <==> (r.Cooldown? || r.Device?) && w
    ensures Touches(RETRY, r, w) <==> (r.Cooldown? || r.Settings? || r.References?) && w
  {
    hide Touches;
    TouchRules(r, w);
  }

  /** The methods that write each of the tables; no others do. */
  lemma WritersExactly(m: Method, r: Resource)
    ensures Touches(CodeOf(m), r, true) <==> match r
      case Levels =>
        m.SetChannel? || m.SetChannelOn? || m.SetChannels? || m.Blackout? || m.SendDmx? || m.FadeTo? || m.FadeOn?
      case Fades =>
        m.SetChannel? || m.SetChannelOn? || m.SetChannels? || m.Blackout? || m.SendDmx? || m.FadeTo? || m.FadeOn?
      case Keys => m.SelectUniverse? || m.AddUniverse? || m.RemoveUniverse?
      case Settings =>
        m.SetProtocol? || m.Init? || m.SendDmx? || m.AddUniverse? || m.RemoveUniverse? || m.SetPriority? || m.SetName?
      case Device => m.Init? || m.SendDmx? || m.Destroy?
      case Cooldown => m.SendDmx?
      case References => m.Init? || m.SendDmx? || m.Destroy?
  {
    hide Touches, CANCEL, SET_LEVEL, BEGIN_FADE, ALL_ROWS, CHANGE_TABLE, LIVE_SOURCE;
    hide DEVICE, INIT_SACN, DEINIT_ALL, SEND_SERIAL, RETRY;
    TouchRules(r, true);
    PartsTouch(r, true);
  }

  /** The methods that read each of the tables without writing it at once; no others do. */
  lemma ReadersExactly(m: Method, r: Resource)
    ensures Touches(CodeOf(m), r, false) <==> match r
      case Levels => m.GetChannel? || m.SendDmx? || m.FadeTo? || m.FadeOn?
      case Keys =>
        m.GetChannel? || m.SetChannel? || m.SetChannelOn? || m.SetChannels? || m.Blackout? || m.Init? || m.SendDmx? ||
        m.SelectUniverse? || m.AddUniverse? || m.RemoveUniverse? || m.UniverseCount? || m.ListUniverses? ||
        m.SetPriority? || m.FadeTo? || m.FadeOn?
      case Settings =>
        m.GetProtocol? || m.SendDmx? || m.Connected? || m.AddUniverse? || m.RemoveUniverse? || m.GetPriority? ||
        m.SetPriority? || m.GetName? || m.SetName?
      case _ => false
  {
    hide Touches, CANCEL, SET_LEVEL, BEGIN_FADE, ALL_ROWS, CHANGE_TABLE, LIVE_SOURCE;
    hide DEVICE, INIT_SACN, DEINIT_ALL, SEND_SERIAL, RETRY;
    TouchRules(r, false);
    PartsTouch(r, false);
  }

  // ----- over whole runs

  /** The kinds of lock a thread holds on one instance, the shared one included. */
  function HeldOn(t: Stack, id: nat): set<Kind> {
    match t
    case End => {}
    case Exec(_, _, rest) => HeldOn(rest, id)
    case Unlock(m, rest) =>
      HeldOn(rest, id) + (if m.Shared? then {Global} else if m.instance == id then {m.kind} else {})
  }

  /** Whatever a thread still has to do, it will do under the locks it needs. */
  predicate Careful(t: Stack) {
    match t
    case End => true
    case Exec(id, c, rest) => Disciplined(c, HeldOn(rest, id)) && Careful(rest)
    case Unlock(_, rest) => Careful(rest)
  }

  lemma StepCareful(s: System, i: nat, left: bool)
    requires i < |s.threads| && Step(s, i, left).Stepped? && Careful(s.threads[i])
    ensures Careful(Step(s, i, left).system.threads[i])
  {
  }

  lemma {:induction false} RunCareful(s: System, schedule: seq<(nat, bool)>, j: nat)
    requires j < |s.threads| && forall k :: 0 <= k < |s.threads| ==> Careful(s.threads[k])
    ensures j < |Run(s, schedule).threads| && Careful(Run(s, schedule).threads[j])
    ensures |Run(s, schedule).threads| == |s.threads|
    decreases |schedule|
  {
    if schedule != [] {
      var (i, left) := schedule[0];
      if i < |s.threads| && Step(s, i, left).Stepped? {
        var s' := Step(s, i, left).system;
        StepCareful(s, i, left);
        OthersStay(s, i, left);
        RunCareful(s', schedule[1..], j);
      } else {
        RunCareful(s, schedule[1..], j);
      }
    }
  }

  lemma OthersStay(s: System, i: nat, left: bool)
    requires i < |s.threads| && Step(s, i, left).Stepped?
    ensures var s' := Step(s, i, left).system;
      forall j :: 0 <= j < |s.threads| && j != i ==> s'.threads[j] == s.threads[j]
  {
  }

  lemma {:induction false} CallsCareful(calls: seq<(nat, Method)>)
    ensures Careful(Calls(calls)) && forall id :: HeldOn(Calls(calls), id) == {}
  {
    if calls != [] {
      CallsCareful(calls[1..]);
      MethodsDisciplined(calls[0].1);
    }
  }

  /** Holding a kind of lock on an instance is holding its mutex; the shared one has no instance. */
  lemma {:induction false} HeldIsHolds(t: Stack, id: nat, k: Kind)
    requires k in HeldOn(t, id) && WellFormed(t)
    ensures Holds(t, MutexOf(id, k))
  {
    match t
    case End =>
    case Exec(_, _, rest) => HeldIsHolds(rest, id, k);
    case Unlock(m, rest) =>
      if k in HeldOn(rest, id) {
        HeldIsHolds(rest, id, k);
      }
  }

  /** No instance owns a mutex of the shared kind. */
  predicate WellFormed(t: Stack) {
    match t
    case End => true
    case Exec(_, _, rest) => WellFormed(rest)
    case Unlock(m, rest) => (m.Own? ==> m.kind != Global) && WellFormed(rest)
  }

  /** The thread's next step is an access. */
  predicate AboutTo(t: Stack, id: nat, r: Resource, write: bool) {
    t.Exec? && t.instance == id && t.code == Access(r, write)
  }

  lemma StepWellFormed(s: System, i: nat, left: bool)
    requires i < |s.threads| && Step(s, i, left).Stepped? && WellFormed(s.threads[i])
    ensures WellFormed(Step(s, i, left).system.threads[i])
  {
  }

  lemma {:induction false} RunWellFormed(s: System, schedule: seq<(nat, bool)>, j: nat)
    requires j < |s.threads| && forall k :: 0 <= k < |s.threads| ==> WellFormed(s.threads[k])
    ensures j < |Run(s, schedule).threads| && WellFormed(Run(s, schedule).threads[j])
    decreases |schedule|
  {
    if schedule != [] {
      var (i, left) := schedule[0];
      if i < |s.threads| && Step(s, i, left).Stepped? {
        StepWellFormed(s, i, left);
        OthersStay(s, i, left);
        RunWellFormed(Step(s, i, left).system, schedule[1..], j);
      } else {
        RunWellFormed(s, schedule[1..], j);
      }
    }
  }

  lemma {:induction false} CallsWellFormed(calls: seq<(nat, Method)>)
    ensures WellFormed(Calls(calls))
  {
    if calls != [] {
      CallsWellFormed(calls[1..]);
    }
  }

  /** A lock that protects both of two accesses of which one is a write. */
  function CommonLock(r: Resource, v: bool, held: set<Kind>, held': set<Kind>): (k: Kind)
    requires Allowed(r, true, held) && Allowed(r, v, held')
    ensures k in held && k in held' && (k == Global <==> r == References)
  {
    match r
    case Levels => Dmx
    case Fades => Fade
    case Keys => if Fade in held' then Fade else Dmx
    case Settings => State
    case Device => Serial
    case Cooldown => Send
    case References => Global
  }

  /**
   * No races. Any threads call any methods of any instances under any schedule: it never happens
   * that one thread is about to write what another is about to read or write, be it a table of one
   * instance or the count that all instances share.
   */
  lemma RaceFree(s: System, programs: seq<seq<(nat, Method)>>, schedule: seq<(nat, bool)>,
                 i: nat, j: nat, id: nat, id': nat, r: Resource, v: bool)
    requires Fresh(s, programs) && (id == id' || r == References)
    requires i < |Run(s, schedule).threads| && j < |Run(s, schedule).threads|
    requires AboutTo(Run(s, schedule).threads[i], id, r, true) && AboutTo(Run(s, schedule).threads[j], id', r, v)
    ensures i == j
  {
    hide Run, Holds, HeldOn, Allowed;
    forall k | 0 <= k < |s.threads|
      ensures Careful(s.threads[k]) && WellFormed(s.threads[k])
    {
      CallsCareful(programs[k]);
      CallsWellFormed(programs[k]);
    }
    SameThreads(s, schedule);
    RunCareful(s, schedule, i);
    RunCareful(s, schedule, j);
    RunWellFormed(s, schedule, i);
    RunWellFormed(s, schedule, j);
    var a, b := Run(s, schedule).threads[i], Run(s, schedule).threads[j];
    var k := CommonLock(r, v, HeldOn(a.rest, id), HeldOn(b.rest, id'));
    HeldIsHolds(a.rest, id, k);
    HeldIsHolds(b.rest, id', k);
    HoldsBelow(a, MutexOf(id, k));
    HoldsBelow(b, MutexOf(id', k));
    MutualExclusion(s, programs, schedule, i, j, MutexOf(id, k));
  }

  lemma HoldsBelow(t: Stack, m: Mutex)
    requires t.Exec? && Holds(t.rest, m)
    ensures Holds(t, m)
  {
  }

  lemma {:induction false} SameThreads(s: System, schedule: seq<(nat, bool)>)
    ensures |Run(s, schedule).threads| == |s.threads|
    decreases |schedule|
  {
    if schedule != [] {
      var (i, left) := schedule[0];
      SameThreads(if i < |s.threads| && Step(s, i, left).Stepped? then Step(s, i, left).system else s, schedule[1..]);
    }
  }
}
