/**
 * The mutexes of the DMX class: the lock skeleton of every method, threads that call any methods
 * of any instances, and the proof that they never deadlock.
 */
module LockOrder {

  datatype Kind = Fade | Dmx | Send | State | Serial | Global

  /** A lock may be taken only while every lock held ranks lower. */
  function Rank(k: Kind): int {
    match k
    case Fade => 0
    case Dmx => 1
    case Send => 2
    case State => 3
    case Serial => 4
    case Global => 5
  }

  /** Each instance has five mutexes of its own; the sACN one is shared. */
  datatype Mutex = Own(instance: nat, kind: Kind) | Shared

  function MutexOf(instance: nat, k: Kind): Mutex {
    if k == Global then Shared else Own(instance, k)
  }

  function RankOf(m: Mutex): int {
    if m.Shared? then Rank(Global) else Rank(m.kind)
  }

  /**
   * What methods share: the levels and the fades of all universes, the keys of their table, the
   * settings, flags and mapping of an instance, its serial device, the time of its last
   * reconnection; and the count of sACN references, shared by all instances.
   */
  datatype Resource = Levels | Fades | Keys | Settings | Device | Cooldown | References

  /** What a method does with locks. A lock_guard holds its mutex for the rest of its scope. */
  datatype Code =
    | Skip
    | Access(resource: Resource, write: bool)
    | Then(first: Code, rest: Code)
    | Either(left: Code, right: Code)
    | Locked(kind: Kind, body: Code)

  predicate WellRanked(c: Code, floor: int) {
    match c
    case Skip => true
    case Access(_, _) => true
    case Then(a, b) => WellRanked(a, floor) && WellRanked(b, floor)
    case Either(a, b) => WellRanked(a, floor) && WellRanked(b, floor)
    case Locked(k, b) => Rank(k) > floor && WellRanked(b, Rank(k))
  }

  // ----- the methods

  datatype Method =
    | GetProtocol | SetProtocol | GetChannel | SetChannel | SetChannelOn | SetChannels | Blackout | Init | SendDmx
    | Connected | GetPort | SetPort | SelectUniverse | AddUniverse | RemoveUniverse | UniverseCount | ListUniverses
    | GetPriority | SetPriority | GetName | SetName | FadeTo | FadeOn | Destroy

  function Opt(c: Code): Code {
    Either(c, Skip)
  }

  function Reads(r: Resource): Code {
    Access(r, false)
  }

  function Writes(r: Resource): Code {
    Access(r, true)
  }

  /** One access, or one and then maybe another, under a lock. */
  function Guard(k: Kind, c: Code): Code {
    Locked(k, c)
  }

  const CANCEL := Guard(Fade, Then(Reads(Keys), Opt(Writes(Fades))))
  const SET_LEVEL := Guard(Dmx, Then(Reads(Keys), Opt(Writes(Levels))))
  const BEGIN_FADE := Guard(Fade, Then(Reads(Keys), Opt(Then(Guard(Dmx, Reads(Levels)), Writes(Fades)))))
  const ALL_ROWS := Guard(Fade, Guard(Dmx, Then(Reads(Keys), Then(Writes(Fades), Writes(Levels)))))
  const CHANGE_TABLE := Guard(Fade, Guard(Dmx, Then(Reads(Keys), Opt(Writes(Keys)))))
  const LIVE_SOURCE := Guard(Send, Guard(State, Then(Reads(Settings), Opt(Writes(Settings)))))
  const DEVICE := Guard(Serial, Writes(Device))
  const DEINIT_SACN := Opt(Guard(Global, Writes(References)))
  const INIT_SACN := Then(Guard(Global, Writes(References)), Opt(Guard(Global, Writes(References))))
  const DEINIT_ALL := Then(Opt(DEVICE), DEINIT_SACN)
  const SEND_SERIAL := Guard(Serial, Then(Opt(Writes(Cooldown)), Writes(Device)))
  const RECONNECT := Guard(State, Then(Writes(Settings), Either(Then(DEINIT_SACN, INIT_SACN), Skip)))
  const RETRY := Then(Writes(Cooldown), Opt(RECONNECT))

  /** The lock skeleton of each method; every early return is a choice. */
  function CodeOf(m: Method): Code {
    match m
    case GetProtocol => Guard(State, Reads(Settings))
    case SetProtocol => Guard(State, Writes(Settings))
    case GetChannel => Opt(Guard(Dmx, Then(Reads(Keys), Opt(Reads(Levels)))))
    case SetChannel => Opt(Then(CANCEL, SET_LEVEL))
    case SetChannelOn => Opt(Then(CANCEL, Opt(SET_LEVEL)))
    case SetChannels => Then(CANCEL, SET_LEVEL)
    case Blackout => ALL_ROWS
    case Init =>
      Then(Guard(Dmx, Reads(Keys)),
           Guard(State, Then(Writes(Settings), Then(DEINIT_ALL, Either(Opt(DEVICE), Opt(INIT_SACN))))))
    case SendDmx =>
      Then(ALL_ROWS, Then(Guard(State, Reads(Settings)), Then(Guard(Dmx, Then(Reads(Keys), Reads(Levels))),
        Guard(Send, Either(Opt(SEND_SERIAL), Opt(RETRY))))))
    case Connected => Guard(State, Reads(Settings))
    case GetPort => Guard(State, Skip)
    case SetPort => Guard(State, Skip)
    case SelectUniverse => Opt(CHANGE_TABLE)
    case AddUniverse => Opt(Then(CHANGE_TABLE, Opt(Then(LIVE_SOURCE, Opt(CHANGE_TABLE)))))
    case RemoveUniverse => Then(CHANGE_TABLE, Opt(LIVE_SOURCE))
    case UniverseCount => Guard(Dmx, Reads(Keys))
    case ListUniverses => Guard(Dmx, Reads(Keys))
    case GetPriority => Guard(State, Reads(Settings))
    case SetPriority => Opt(Then(Guard(Dmx, Reads(Keys)), LIVE_SOURCE))
    case GetName => Guard(State, Reads(Settings))
    case SetName => LIVE_SOURCE
    case FadeTo => Opt(Either(Then(CANCEL, SET_LEVEL), BEGIN_FADE))
    case FadeOn => Opt(Either(Then(CANCEL, Opt(SET_LEVEL)), BEGIN_FADE))
    case Destroy => DEINIT_ALL
  }

  lemma RankRules()
    ensures forall f :: WellRanked(Skip, f)
    ensures forall r, w, f :: WellRanked(Access(r, w), f)
    ensures forall a, b, f :: WellRanked(Then(a, b), f) <==> WellRanked(a, f) && WellRanked(b, f)
    ensures forall a, b, f :: WellRanked(Either(a, b), f) <==> WellRanked(a, f) && WellRanked(b, f)
    ensures forall k, b, f :: WellRanked(Locked(k, b), f) <==> Rank(k) > f && WellRanked(b, Rank(k))
  {
  }

  /** Every method takes its locks in increasing rank. */
  lemma MethodsWellRanked(m: Method)
    ensures WellRanked(CodeOf(m), -1)
  {
    hide WellRanked;
    RankRules();
  }

  // ----- threads

  /** What a thread still has to do; Unlock ends the scope of a lock it holds. */
  datatype Stack = End | Exec(instance: nat, code: Code, rest: Stack) | Unlock(mutex: Mutex, rest: Stack)

  datatype System = System(threads: seq<Stack>, owner: map<Mutex, nat>)

  datatype Outcome = Stuck | Stepped(system: System)

  /** One step of thread i; it is stuck if it is finished or waits for a mutex. */
  function Step(s: System, i: nat, left: bool): (r: Outcome)
    requires i < |s.threads|
    ensures r.Stepped? ==> |r.system.threads| == |s.threads|
  {
    match s.threads[i]
    case End => Stuck
    case Unlock(m, rest) => Stepped(System(s.threads[i := rest], s.owner - {m}))
    case Exec(id, code, rest) =>
      match code
      case Skip => Stepped(s.(threads := s.threads[i := rest]))
      case Access(_, _) => Stepped(s.(threads := s.threads[i := rest]))
      case Then(a, b) => Stepped(s.(threads := s.threads[i := Exec(id, a, Exec(id, b, rest))]))
      case Either(a, b) => Stepped(s.(threads := s.threads[i := Exec(id, if left then a else b, rest)]))
      case Locked(k, b) =>
        var m := MutexOf(id, k);
        if m in s.owner then Stuck
        else Stepped(System(s.threads[i := Exec(id, b, Unlock(m, rest))], s.owner[m := i]))
  }

  /** A schedule names the thread to step next and the way it goes at a choice. */
  function Run(s: System, schedule: seq<(nat, bool)>): System
    decreases |schedule|
  {
    if schedule == [] then s
    else
      var (i, left) := schedule[0];
      Run(if i < |s.threads| && Step(s, i, left).Stepped? then Step(s, i, left).system else s, schedule[1..])
  }

  /** The locks a thread will release, which are the ones it holds. */
  predicate Holds(t: Stack, m: Mutex) {
    match t
    case End => false
    case Exec(_, _, rest) => Holds(rest, m)
    case Unlock(n, rest) => n == m || Holds(rest, m)
  }

  /** The highest rank among the locks a thread holds. */
  function Floor(t: Stack): int {
    match t
    case End => -1
    case Exec(_, _, rest) => Floor(rest)
    case Unlock(m, _) => RankOf(m)
  }

  predicate Ordered(t: Stack) {
    match t
    case End => true
    case Exec(_, c, rest) => WellRanked(c, Floor(rest)) && Ordered(rest)
    case Unlock(m, rest) => RankOf(m) > Floor(rest) && Ordered(rest)
  }

  /** The mutexes owned are the ones held, each by its owner alone; ranks rise within a thread. */
  ghost predicate Inv(s: System) {
    (forall i :: 0 <= i < |s.threads| ==> Ordered(s.threads[i])) &&
    (forall i, m :: 0 <= i < |s.threads| ==> (Holds(s.threads[i], m) <==> m in s.owner && s.owner[m] == i)) &&
    (forall m :: m in s.owner ==> s.owner[m] < |s.threads|)
  }

  lemma {:induction false} FloorIsHighest(t: Stack, m: Mutex)
    requires Ordered(t) && Holds(t, m)
    ensures Floor(t) >= RankOf(m)
  {
    match t
    case Exec(_, _, rest) => FloorIsHighest(rest, m);
    case Unlock(n, rest) =>
      if n != m {
        FloorIsHighest(rest, m);
      }
  }

  /** A step changes who holds a mutex only by what it takes or releases. */
  lemma StepHolds(s: System, i: nat, left: bool, m: Mutex)
    requires Inv(s) && i < |s.threads| && Step(s, i, left).Stepped?
    ensures var s' := Step(s, i, left).system;
      (Holds(s'.threads[i], m) <==> m in s'.owner && s'.owner[m] == i) &&
      (m in s'.owner && s'.owner[m] != i <==> m in s.owner && s.owner[m] != i) &&
      (m in s.owner && m in s'.owner ==> s.owner[m] == s'.owner[m])
  {
    var t := s.threads[i];
    assert Holds(t, m) <==> m in s.owner && s.owner[m] == i;
    if t.Unlock? {
      assert Holds(t, t.mutex) <==> t.mutex in s.owner && s.owner[t.mutex] == i;
      if Holds(t.rest, t.mutex) {
        FloorIsHighest(t.rest, t.mutex);
      }
    }
  }

  lemma StepKeepsInv(s: System, i: nat, left: bool)
    requires Inv(s) && i < |s.threads| && Step(s, i, left).Stepped?
    ensures Inv(Step(s, i, left).system)
  {
    var s' := Step(s, i, left).system;
    assert Ordered(s'.threads[i]) && forall j :: 0 <= j < |s.threads| && j != i ==> s'.threads[j] == s.threads[j];
    hide Step, Holds, Ordered;
    forall m
      ensures m in s'.owner ==> s'.owner[m] < |s'.threads|
      ensures forall j :: 0 <= j < |s'.threads| ==> (Holds(s'.threads[j], m) <==> m in s'.owner && s'.owner[m] == j)
    {
      StepHolds(s, i, left, m);
    }
  }

  lemma {:induction false} RunKeepsInv(s: System, schedule: seq<(nat, bool)>)
    requires Inv(s)
    ensures Inv(Run(s, schedule))
    decreases |schedule|
  {
    if schedule != [] {
      var (i, left) := schedule[0];
      if i < |s.threads| && Step(s, i, left).Stepped? {
        StepKeepsInv(s, i, left);
        RunKeepsInv(Step(s, i, left).system, schedule[1..]);
      } else {
        RunKeepsInv(s, schedule[1..]);
      }
    }
  }

  /** The rank a thread is about to ask for. */
  function Wanted(t: Stack): int {
    if t.Exec? && t.code.Locked? then Rank(t.code.kind) else -1
  }

  /** Whoever waits, waits for a thread that wants a lock of higher rank, if it waits at all. */
  lemma {:induction false} SomeoneCanStep(s: System, i: nat) returns (j: nat)
    requires Inv(s) && i < |s.threads| && s.threads[i] != End
    ensures j < |s.threads| && Step(s, j, true).Stepped?
    decreases 5 - Wanted(s.threads[i])
  {
    var t := s.threads[i];
    if Step(s, i, true).Stepped? {
      j := i;
    } else {
      var m := MutexOf(t.instance, t.code.kind);
      var o := s.owner[m];
      assert Holds(s.threads[o], m);
      FloorIsHighest(s.threads[o], m);
      if Step(s, o, true).Stepped? {
        j := o;
      } else {
        j := SomeoneCanStep(s, o);
      }
    }
  }

  // ----- whole programs

  /** A thread calling methods, each on some instance. */
  function Calls(calls: seq<(nat, Method)>): Stack {
    if calls == [] then End else Exec(calls[0].0, CodeOf(calls[0].1), Calls(calls[1..]))
  }

  lemma {:induction false} CallsOrdered(calls: seq<(nat, Method)>)
    ensures Ordered(Calls(calls)) && Floor(Calls(calls)) == -1 && forall m :: !Holds(Calls(calls), m)
  {
    if calls != [] {
      CallsOrdered(calls[1..]);
      MethodsWellRanked(calls[0].1);
    }
  }

  /** Threads that have called nothing yet; no mutex is taken. */
  ghost predicate Fresh(s: System, programs: seq<seq<(nat, Method)>>) {
    |s.threads| == |programs| && s.owner == map[] &&
    forall i :: 0 <= i < |programs| ==> s.threads[i] == Calls(programs[i])
  }

  lemma FreshInv(s: System, programs: seq<seq<(nat, Method)>>)
    requires Fresh(s, programs)
    ensures Inv(s)
  {
    forall i | 0 <= i < |programs|
      ensures Ordered(s.threads[i]) && forall m :: !Holds(s.threads[i], m)
    {
      CallsOrdered(programs[i]);
    }
  }

  /**
   * No deadlock. Any number of threads call any methods of any number of instances, under any
   * schedule: as long as one thread is not finished, some thread can step.
   */
  lemma DeadlockFree(s: System, programs: seq<seq<(nat, Method)>>, schedule: seq<(nat, bool)>, i: nat)
    requires Fresh(s, programs)
    requires i < |Run(s, schedule).threads| && Run(s, schedule).threads[i] != End
    ensures var t := Run(s, schedule); exists j: nat :: j < |t.threads| && Step(t, j, true).Stepped?
  {
    FreshInv(s, programs);
    RunKeepsInv(s, schedule);
    var j := SomeoneCanStep(Run(s, schedule), i);
  }

  /** Two threads never hold the same mutex. */
  lemma MutualExclusion(
    s: System, programs: seq<seq<(nat, Method)>>, schedule: seq<(nat, bool)>, i: nat, j: nat, m: Mutex)
    requires Fresh(s, programs)
    requires i < |Run(s, schedule).threads| && j < |Run(s, schedule).threads|
    requires Holds(Run(s, schedule).threads[i], m) && Holds(Run(s, schedule).threads[j], m)
    ensures i == j
  {
    FreshInv(s, programs);
    RunKeepsInv(s, schedule);
    var t := Run(s, schedule);
    assert Holds(t.threads[i], m) ==> t.owner[m] == i;
    assert Holds(t.threads[j], m) ==> t.owner[m] == j;
  }

  // ----- everyone gets to the end

  function Size(c: Code): nat {
    match c
    case Skip => 1
    case Access(_, _) => 1
    case Then(a, b) => 2 + Size(a) + Size(b)
    case Either(a, b) => 1 + Size(a) + Size(b)
    case Locked(_, b) => 3 + Size(b)
  }

  function Work(t: Stack): nat {
    match t
    case End => 0
    case Exec(_, c, rest) => Size(c) + 1 + Work(rest)
    case Unlock(_, rest) => 1 + Work(rest)
  }

  function TotalWork(threads: seq<Stack>): nat {
    if threads == [] then 0 else TotalWork(threads[..|threads| - 1]) + Work(threads[|threads| - 1])
  }

  lemma {:induction false} WorkUpdate(threads: seq<Stack>, i: nat, t: Stack)
    requires i < |threads|
    ensures TotalWork(threads[i := t]) == TotalWork(threads) - Work(threads[i]) + Work(t)
  {
    var n := |threads| - 1;
    if i == n {
      assert threads[i := t][..n] == threads[..n];
    } else {
      assert threads[i := t][..n] == threads[..n][i := t];
      WorkUpdate(threads[..n], i, t);
    }
  }

  lemma StepUsesUp(s: System, i: nat, left: bool)
    requires i < |s.threads| && Step(s, i, left).Stepped?
    ensures var s' := Step(s, i, left).system;
      |s'.threads| == |s.threads| && s'.threads == s.threads[i := s'.threads[i]] &&
      Work(s'.threads[i]) < Work(s.threads[i])
  {
    hide Size;
    SizePositive(s.threads[i]);
  }

  lemma SizePositive(t: Stack)
    ensures t.Exec? ==> match t.code
      case Skip => Size(t.code) == 1
      case Access(_, _) => Size(t.code) == 1
      case Then(a, b) => Size(t.code) == 2 + Size(a) + Size(b)
      case Either(a, b) => Size(t.code) == 1 + Size(a) + Size(b)
      case Locked(_, b) => Size(t.code) == 3 + Size(b)
  {
  }

  lemma StepShrinks(s: System, i: nat, left: bool)
    requires i < |s.threads| && Step(s, i, left).Stepped?
    ensures TotalWork(Step(s, i, left).system.threads) < TotalWork(s.threads)
  {
    hide TotalWork, Work, Step;
    StepUsesUp(s, i, left);
    WorkUpdate(s.threads, i, Step(s, i, left).system.threads[i]);
  }

  /**
   * From every reachable state some schedule runs all threads to their end; and since every step
   * uses up work, no schedule can step forever.
   */
  lemma {:induction false} AllFinish(s: System) returns (schedule: seq<(nat, bool)>)
    requires Inv(s)
    ensures forall i :: 0 <= i < |Run(s, schedule).threads| ==> Run(s, schedule).threads[i] == End
    decreases TotalWork(s.threads)
  {
    if i: nat :| i < |s.threads| && s.threads[i] != End {
      var j := SomeoneCanStep(s, i);
      var s' := Step(s, j, true).system;
      StepShrinks(s, j, true);
      StepKeepsInv(s, j, true);
      var later := AllFinish(s');
      schedule := [(j, true)] + later;
      assert schedule[0] == (j, true) && schedule[1..] == later;
    } else {
      schedule := [];
    }
  }
}
