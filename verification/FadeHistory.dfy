/** Every channel of every universe, over whole runs of the engine's public operations. */
module FadeHistory {
  import opened ArtNetBytes
  import opened Common
  import opened FadeModel

  /** The universes that exist, each with a row of SLOTS items, and the active one. */
  datatype Engine<T> = Engine(universes: map<int, seq<T>>, active: int)

  datatype Op =
    | Channel(ch: int, level: int)
    | ChannelOn(uni: int, ch: int, level: int)
    | Channels(start: int, levels: seq<byte>)
    | Blackout
    | FadeTo(ch: int, target: int, millis: int, now: int)
    | FadeOn(uni: int, ch: int, target: int, millis: int, now: int)
    | Send(now: int)
    | Select(uni: int)
    | Add(uni: int, refused: bool)  // refused: sACN is running and does not accept the universe
    | Remove(uni: int)

  predicate IsChannel(ch: int) {
    1 <= ch <= 512
  }

  /** A fade of no duration sets the level at once. */
  function Faded(target: int, millis: int, now: int): Act {
    if millis <= 0 then Set(Clamp(target)) else Ramp(Clamp(target), millis, now)
  }

  /** What an operation does to channel ch of universe uni, if anything. */
  function ActOn(op: Op, active: int, uni: int, ch: int): Option<Act> {
    match op
    case Channel(c, level) => if uni == active && ch == c && IsChannel(c) then Some(Set(Clamp(level))) else None
    case ChannelOn(u, c, level) =>
      if uni == u && ch == c && IsUniverse(u) && IsChannel(c) then Some(Set(Clamp(level))) else None
    case Channels(start, levels) =>
      if uni == active && IsChannel(ch) && start <= ch < start + |levels| then Some(Set(levels[ch - start])) else None
    case Blackout => if IsChannel(ch) then Some(Set(0)) else None
    case FadeTo(c, target, millis, now) =>
      if uni == active && ch == c && IsChannel(c) then Some(Faded(target, millis, now)) else None
    case FadeOn(u, c, target, millis, now) =>
      if uni == u && ch == c && IsUniverse(u) && IsChannel(c) then Some(Faded(target, millis, now)) else None
    case Send(now) => if IsChannel(ch) then Some(Tick(now)) else None
    case _ => None
  }

  /** The first key of the ordered universe map that is at least from, 0 if there is none. */
  function FirstKey(keys: set<int>, from: int): (k: int)
    requires from >= 1
    ensures k != 0 ==> k in keys && from <= k <= 63999
    ensures forall u :: u in keys && from <= u && IsUniverse(u) ==> k != 0 && k <= u
    decreases 64000 - from
  {
    if from > 63999 then 0 else if from in keys then from else FirstKey(keys, from + 1)
  }

  /** What an operation does to the set of universes and to the active one. */
  function Restructure<T>(e: Engine<T>, op: Op, blank: seq<T>): Engine<T> {
    match op
    case Select(u) =>
      if !IsUniverse(u) then e
      else if u in e.universes then e.(active := u)
      else if |e.universes| >= MAX_UNIVERSES then e
      else Engine(e.universes[u := blank], u)
    case Add(u, refused) =>
      if IsUniverse(u) && u !in e.universes && |e.universes| < MAX_UNIVERSES && !refused
      then e.(universes := e.universes[u := blank]) else e
    case Remove(u) =>
      if u !in e.universes || |e.universes| <= 1 then e
      else Engine(e.universes - {u}, if e.active == u then FirstKey(e.universes.Keys - {u}, 1) else e.active)
    case _ => e
  }

  // ----- the engine

  type Row = s: seq<Cell> | |s| == 513 witness seq(513, _ => Cell(0, NO_FADE))

  function NewRow(): (row: Row)
    ensures forall ch :: 0 <= ch < SLOTS ==> row[ch] == NEW_CELL
  {
    seq(SLOTS, _ => NEW_CELL)
  }

  function After(c: Cell, a: Option<Act>): Cell {
    if a.Some? then Perform(c, a.value) else c
  }

  function SetCell(row: Row, ch: nat, c: Cell): (r: Row)
    requires ch < SLOTS
    ensures forall i :: 0 <= i < SLOTS ==> r[i] == if i == ch then c else row[i]
  {
    var r: seq<Cell> := row;
    r[ch := c]
  }

  function StepRow(row: Row, op: Op, active: int, uni: int): Row {
    seq<Cell>(SLOTS, ch requires 0 <= ch < SLOTS => After(row[ch], ActOn(op, active, uni, ch)))
  }

  ghost predicate Rows(e: Engine<Cell>) {
    forall u :: u in e.universes ==> |e.universes[u]| == SLOTS
  }

  ghost function StepRows(e: Engine<Cell>, op: Op): map<int, seq<Cell>>
    requires Rows(e)
  {
    map u | u in e.universes :: StepRow(e.universes[u], op, e.active, u)
  }

  ghost function Apply(e: Engine<Cell>, op: Op): (e': Engine<Cell>)
    requires Rows(e)
    ensures Rows(e')
  {
    Restructure(Engine(StepRows(e, op), e.active), op, NewRow())
  }

  predicate Structural(op: Op) {
    op.Select? || op.Add? || op.Remove?
  }

  /** An operation that keeps the universes acts on each row by itself. */
  lemma ApplyRows(e: Engine<Cell>, op: Op, e': Engine<Cell>)
    requires Rows(e) && !Structural(op) && e'.universes.Keys == e.universes.Keys && e'.active == e.active
    requires forall u :: u in e.universes ==> e'.universes[u] == StepRow(e.universes[u], op, e.active, u)
    ensures Apply(e, op) == e'
  {
    assert StepRows(e, op) == e'.universes;
  }

  /** An operation that acts on no channel and keeps the universes changes nothing. */
  lemma ApplyNowhere(e: Engine<Cell>, op: Op)
    requires Rows(e) && !Structural(op)
    requires forall u, ch :: u in e.universes ==> ActOn(op, e.active, u, ch) == None
    ensures Apply(e, op) == e
  {
    forall u | u in e.universes
      ensures e.universes[u] == StepRow(e.universes[u], op, e.active, u)
    {
    }
    ApplyRows(e, op, e);
  }

  function Replaced(e: Engine<Cell>, u: int, row: Row): Engine<Cell> {
    Engine(e.universes[u := row], e.active)
  }

  /** An operation that acts on one channel only. */
  lemma ApplyAt(e: Engine<Cell>, op: Op, uni: int, ch: int, a: Act)
    requires Rows(e) && !Structural(op) && uni in e.universes && 0 <= ch < SLOTS
    requires forall u, c :: ActOn(op, e.active, u, c) == if u == uni && c == ch then Some(a) else None
    ensures Apply(e, op) == Replaced(e, uni, SetCell(e.universes[uni], ch, Perform(e.universes[uni][ch], a)))
  {
    hide Perform;
    var e' := Replaced(e, uni, SetCell(e.universes[uni], ch, Perform(e.universes[uni][ch], a)));
    assert e'.universes.Keys == e.universes.Keys;
    forall u | u in e.universes
      ensures e'.universes[u] == StepRow(e.universes[u], op, e.active, u)
    {
    }
    ApplyRows(e, op, e');
  }

  /** An operation that acts within one universe only. */
  lemma ApplyWithin(e: Engine<Cell>, op: Op, uni: int)
    requires Rows(e) && !Structural(op) && uni in e.universes
    requires forall u, c :: u != uni ==> ActOn(op, e.active, u, c) == None
    ensures Apply(e, op) == Replaced(e, uni, StepRow(e.universes[uni], op, e.active, uni))
  {
    var e' := Replaced(e, uni, StepRow(e.universes[uni], op, e.active, uni));
    assert e'.universes.Keys == e.universes.Keys;
    forall u | u in e.universes
      ensures e'.universes[u] == StepRow(e.universes[u], op, e.active, u)
    {
    }
    ApplyRows(e, op, e');
  }

  /** Rows below next have been stepped by op, the others have not; 0 stands for the end of the map. */
  ghost predicate SteppedBelow(e: Engine<Cell>, e': Engine<Cell>, op: Op, next: int)
    requires Rows(e)
  {
    Rows(e') && e'.universes.Keys == e.universes.Keys && e'.active == e.active && (next != 0 ==> next in e.universes) &&
    (forall v :: v in e.universes ==> IsUniverse(v)) &&
    forall v :: v in e.universes ==>
      e'.universes[v] ==
      if next == 0 || v < next then StepRow(e.universes[v], op, e.active, v) else e.universes[v]
  }

  /** A key of the map, or 0 at its end. */
  predicate Cursor(keys: set<int>, u: int) {
    u != 0 ==> u in keys && 1 <= u <= 63999
  }

  lemma StepsBegin(e: Engine<Cell>, op: Op)
    requires Rows(e) && forall u :: u in e.universes ==> IsUniverse(u)
    ensures var u := FirstKey(e.universes.Keys, 1); SteppedBelow(e, e, op, u) && Cursor(e.universes.Keys, u)
  {
    hide StepRow;
  }

  lemma StepsEnd(e: Engine<Cell>, e': Engine<Cell>, op: Op)
    requires Rows(e) && SteppedBelow(e, e', op, 0) && !Structural(op)
    ensures Apply(e, op) == e'
  {
    hide StepRow;
    ApplyRows(e, op, e');
  }

  /** The row at u is stepped, and the cursor moves on to the next key. */
  lemma StepsOn(e: Engine<Cell>, e': Engine<Cell>, op: Op, u: int)
    requires Rows(e) && SteppedBelow(e, e', op, u) && u != 0 && u in e.universes && 1 <= u
    ensures e'.active == e.active && e'.universes.Keys == e.universes.Keys && Rows(e')
    ensures e'.universes[u] == e.universes[u]
    ensures var next := FirstKey(e.universes.Keys, u + 1);
      SteppedBelow(e, Replaced(e', u, StepRow(e.universes[u], op, e.active, u)), op, next) &&
      Cursor(e.universes.Keys, next) && (next != 0 ==> next > u)
  {
    hide StepRow;
  }

  /** Creating and removing universes leaves every other row alone. */
  lemma ApplyStructural(e: Engine<Cell>, op: Op)
    requires Rows(e) && Structural(op)
    ensures Apply(e, op) == Restructure(e, op, NewRow())
  {
    forall u | u in e.universes
      ensures StepRow(e.universes[u], op, e.active, u) == e.universes[u]
    {
    }
    assert StepRows(e, op) == e.universes;
  }

  lemma ApplySelect(e: Engine<Cell>, u: int)
    requires Rows(e)
    ensures Apply(e, Select(u)) ==
      if IsUniverse(u) && u in e.universes then Engine(e.universes, u)
      else if IsUniverse(u) && |e.universes| < MAX_UNIVERSES then Engine(Replaced(e, u, NewRow()).universes, u)
      else e
  {
    ApplyStructural(e, Select(u));
  }

  lemma ApplyAdd(e: Engine<Cell>, u: int, refused: bool)
    requires Rows(e)
    ensures Apply(e, Op.Add(u, refused)) ==
      if IsUniverse(u) && u !in e.universes && |e.universes| < MAX_UNIVERSES && !refused
      then Replaced(e, u, NewRow()) else e
    ensures u !in e.universes ==> Engine(Replaced(e, u, NewRow()).universes - {u}, e.active) == e
  {
    ApplyStructural(e, Op.Add(u, refused));
    if u !in e.universes {
      assert Replaced(e, u, NewRow()).universes - {u} == e.universes;
    }
  }

  lemma ApplyRemove(e: Engine<Cell>, u: int)
    requires Rows(e) && e.active in e.universes && forall v :: v in e.universes ==> IsUniverse(v)
    ensures Apply(e, Op.Remove(u)) ==
      if u !in e.universes || |e.universes| <= 1 then e
      else Engine(e.universes - {u}, NextActive(e, u))
    ensures u in e.universes && |e.universes| > 1 ==> NextActive(e, u) in e.universes && NextActive(e, u) != u
  {
    ApplyStructural(e, Op.Remove(u));
    if u in e.universes && |e.universes| > 1 {
      assert |e.universes| == |e.universes.Keys|;
      OtherElement(e.universes.Keys, u);
    }
  }

  /** The active universe once u is removed: the first remaining one, if u was active. */
  function NextActive(e: Engine<Cell>, u: int): int {
    if e.active == u then FirstKey(e.universes.Keys - {u}, 1) else e.active
  }

  function Initial(): Engine<Cell> {
    Engine(map[1 := NewRow()], 1)
  }

  ghost function Run(e: Engine<Cell>, ops: seq<Op>): (e': Engine<Cell>)
    requires Rows(e)
    ensures Rows(e')
  {
    if ops == [] then e else Apply(Run(e, ops[..|ops| - 1]), ops[|ops| - 1])
  }

  // ----- snapshots

  type Snapshot = (int, seq<byte>)

  function Frame(row: Row): (f: seq<byte>)
    ensures |f| == 513 && forall ch :: 0 <= ch < 513 ==> f[ch] == row[ch].value
  {
    seq(SLOTS, ch requires 0 <= ch < SLOTS => row[ch].value)
  }

  /** The buffers send copies, in the order of the universe map. */
  function SnapshotsFrom(e: Engine<Cell>, from: int): seq<Snapshot>
    requires from >= 1 && Rows(e)
    decreases 64000 - from
  {
    var k := FirstKey(e.universes.Keys, from);
    if k == 0 then [] else [(k, Frame(e.universes[k]))] + SnapshotsFrom(e, k + 1)
  }

  lemma SnapshotsStep(e: Engine<Cell>, from: int)
    requires from >= 1 && Rows(e)
    ensures var k := FirstKey(e.universes.Keys, from);
      SnapshotsFrom(e, from) == if k == 0 then [] else [(k, Frame(e.universes[k]))] + SnapshotsFrom(e, k + 1)
  {
  }

  /** Snapshots are taken in ascending order, and each shows its universe's buffer. */
  lemma {:induction false} SnapshotsOrdered(e: Engine<Cell>, from: int)
    requires from >= 1 && Rows(e)
    ensures var s := SnapshotsFrom(e, from);
      (forall i :: 0 <= i < |s| ==> s[i].0 >= from && s[i].0 in e.universes && s[i].1 == Frame(e.universes[s[i].0])) &&
      (forall i, j :: 0 <= i < j < |s| ==> s[i].0 < s[j].0)
    decreases 64000 - from
  {
    hide Frame;
    var k := FirstKey(e.universes.Keys, from);
    if k != 0 {
      SnapshotsOrdered(e, k + 1);
      assert SnapshotsFrom(e, from) == [(k, Frame(e.universes[k]))] + SnapshotsFrom(e, k + 1);
    }
  }

  /** Every universe is among the snapshots. */
  lemma {:induction false} SnapshotsComplete(e: Engine<Cell>, from: int, u: int)
    requires from >= 1 && Rows(e) && u in e.universes && from <= u <= 63999
    ensures (u, Frame(e.universes[u])) in SnapshotsFrom(e, from)
    decreases 64000 - from
  {
    hide Frame;
    var k := FirstKey(e.universes.Keys, from);
    assert SnapshotsFrom(e, from) == [(k, Frame(e.universes[k]))] + SnapshotsFrom(e, k + 1);
    if u != k {
      SnapshotsComplete(e, k + 1, u);
    }
  }

  // ----- the record of what was asked for

  type Histories = s: seq<seq<Act>> | |s| == 513 witness seq(513, _ => [])

  function NoHistory(): (row: Histories)
    ensures forall ch :: 0 <= ch < SLOTS ==> row[ch] == []
  {
    seq(SLOTS, _ => [])
  }

  function Noted(h: seq<Act>, a: Option<Act>): seq<Act> {
    if a.Some? then h + [a.value] else h
  }

  function NoteRow(row: Histories, op: Op, active: int, uni: int): Histories {
    seq(SLOTS, ch requires 0 <= ch < SLOTS => Noted(row[ch], ActOn(op, active, uni, ch)))
  }

  ghost predicate Records(e: Engine<seq<Act>>) {
    forall u :: u in e.universes ==> |e.universes[u]| == SLOTS
  }

  ghost function NoteRows(r: Engine<seq<Act>>, op: Op): map<int, seq<seq<Act>>>
    requires Records(r)
  {
    map u | u in r.universes :: NoteRow(r.universes[u], op, r.active, u)
  }

  ghost function RecordOp(r: Engine<seq<Act>>, op: Op): (r': Engine<seq<Act>>)
    requires Records(r)
    ensures Records(r')
  {
    Restructure(Engine(NoteRows(r, op), r.active), op, NoHistory())
  }

  /** The actions asked of each channel since its universe was created. */
  ghost function Record(ops: seq<Op>): (r: Engine<seq<Act>>)
    ensures Records(r)
  {
    if ops == [] then Engine(map[1 := NoHistory()], 1)
    else RecordOp(Record(ops[..|ops| - 1]), ops[|ops| - 1])
  }

  // ----- refinement

  predicate HasTime(op: Op) {
    op.FadeTo? || op.FadeOn? || op.Send?
  }

  function Latest(ops: seq<Op>): int {
    if ops == [] then 0
    else if HasTime(ops[|ops| - 1]) then ops[|ops| - 1].now else Latest(ops[..|ops| - 1])
  }

  /** The clock is read at nondecreasing times, none before its epoch. */
  predicate Timed(ops: seq<Op>) {
    ops == [] ||
    (Timed(ops[..|ops| - 1]) && (HasTime(ops[|ops| - 1]) ==> ops[|ops| - 1].now >= Latest(ops[..|ops| - 1])))
  }

  ghost predicate Agrees(e: Engine<Cell>, r: Engine<seq<Act>>, latest: int)
    requires Rows(e) && Records(r)
  {
    e.universes.Keys == r.universes.Keys && e.active == r.active && e.active in e.universes &&
    (forall u :: u in e.universes ==> IsUniverse(u)) &&
    forall u :: u in e.universes ==> RowAgrees(e.universes[u], r.universes[u], latest)
  }

  ghost predicate RowAgrees(row: Row, histories: Histories, latest: int) {
    histories[0] == [] && row[0] == NEW_CELL &&
    forall ch :: 0 <= ch < SLOTS ==> Reflects(row[ch], histories[ch], latest)
  }

  lemma ReflectsLater(c: Cell, h: seq<Act>, latest: int, later: int)
    requires Reflects(c, h, latest) && latest <= later
    ensures Reflects(c, h, later)
  {
  }

  lemma RowStep(row: Row, histories: Histories, latest: int, op: Op, active: int, uni: int, later: int)
    requires RowAgrees(row, histories, latest)
    requires if HasTime(op) then latest <= op.now == later else later == latest
    ensures RowAgrees(StepRow(row, op, active, uni), NoteRow(histories, op, active, uni), later)
  {
    hide Reflects, Perform;
    forall ch | 0 <= ch < SLOTS
      ensures Reflects(StepRow(row, op, active, uni)[ch], NoteRow(histories, op, active, uni)[ch], later)
    {
      var a := ActOn(op, active, uni, ch);
      if a.Some? {
        PerformReflects(row[ch], histories[ch], latest, a.value);
        ReflectsLater(Perform(row[ch], a.value), histories[ch] + [a.value], Later(a.value, latest), later);
      } else {
        ReflectsLater(row[ch], histories[ch], latest, later);
      }
    }
  }

  ghost function Pick<T>(s: set<T>): (t: T)
    requires s != {}
    ensures t in s
  {
    var t :| t in s;
    t
  }

  lemma OtherElement(s: set<int>, u: int)
    requires u in s && |s| > 1
    ensures exists v :: v in s && v != u
  {
    assert |s - {u}| == |s| - 1;
    var v := Pick(s - {u});
    assert v in s && v != u;
  }

  lemma RestructureAgrees(e: Engine<Cell>, r: Engine<seq<Act>>, latest: int, op: Op)
    requires Rows(e) && Records(r) && Agrees(e, r, latest)
    ensures var (e', r') := (Restructure(e, op, NewRow()), Restructure(r, op, NoHistory()));
      Rows(e') && Records(r') && Agrees(e', r', latest)
  {
    assert RowAgrees(NewRow(), NoHistory(), latest);
    hide RowAgrees;
    assert |e.universes| == |e.universes.Keys| == |r.universes.Keys| == |r.universes|;
    if op.Remove? && op.uni in e.universes {
      if |e.universes| > 1 {
        OtherElement(e.universes.Keys, op.uni);
      }
    }
  }

  lemma ApplyAgrees(e: Engine<Cell>, r: Engine<seq<Act>>, latest: int, op: Op, later: int)
    requires Rows(e) && Records(r) && Agrees(e, r, latest)
    requires if HasTime(op) then latest <= op.now == later else later == latest
    ensures Agrees(Apply(e, op), RecordOp(r, op), later)
  {
    hide RowAgrees, StepRow, NoteRow, Restructure;
    var e', r' := Engine(StepRows(e, op), e.active), Engine(NoteRows(r, op), r.active);
    forall u | u in e.universes
      ensures RowAgrees(e'.universes[u], r'.universes[u], later)
    {
      RowStep(e.universes[u], r.universes[u], latest, op, e.active, u, later);
    }
    RestructureAgrees(e', r', later, op);
  }

  lemma {:induction false} EngineAgrees(ops: seq<Op>)
    requires Timed(ops)
    ensures Agrees(Run(Initial(), ops), Record(ops), Latest(ops))
  {
    if ops == [] {
      assert RowAgrees(NewRow(), NoHistory(), 0);
    } else {
      var rest, op := ops[..|ops| - 1], ops[|ops| - 1];
      EngineAgrees(rest);
      hide Agrees, Apply, RecordOp;
      ApplyAgrees(Run(Initial(), rest), Record(rest), Latest(rest), op, Latest(ops));
    }
  }

  /**
   * The fade engine refines its history. After any run with a monotone clock, what send snapshots
   * at time now is, for every universe and channel, the level the history gives it at now; slot 0,
   * the start code, is 0 in every reachable state.
   */
  lemma SnapshotShowsHistory(ops: seq<Op>, now: int, uni: int, ch: int)
    requires Timed(ops + [Send(now)]) && 0 <= ch < SLOTS
    ensures var after := Run(Initial(), ops + [Send(now)]);
      var asked := Record(ops);
      after.universes.Keys == asked.universes.Keys && after.active == asked.active && after.active in after.universes &&
      (uni in asked.universes ==>
        var row := after.universes[uni];
        row[0].value == 0 && (IsChannel(ch) ==> row[ch].value == ValueAt(asked.universes[uni][ch], now)))
  {
    var all := ops + [Send(now)];
    assert all[..|all| - 1] == ops && Timed(ops) && Latest(all) == now;
    EngineAgrees(ops);
    SendShows(Run(Initial(), ops), Record(ops), Latest(ops), now, uni, ch);
  }

  lemma SendShows(e: Engine<Cell>, r: Engine<seq<Act>>, latest: int, now: int, uni: int, ch: int)
    requires Rows(e) && Records(r) && Agrees(e, r, latest) && latest <= now && 0 <= ch < SLOTS
    ensures var after := Apply(e, Send(now));
      after.universes.Keys == r.universes.Keys && after.active == r.active && after.active in after.universes &&
      (uni in r.universes ==>
        var row := after.universes[uni];
        row[0].value == 0 && (IsChannel(ch) ==> row[ch].value == ValueAt(r.universes[uni][ch], now)))
  {
    if uni in r.universes {
      var h := r.universes[uni][ch];
      RowStep(e.universes[uni], r.universes[uni], latest, Send(now), e.active, uni, now);
      assert Noted(h, Some(Tick(now)))[..|h|] == h;
    }
  }

  /** The start code is 0 in every reachable state. */
  lemma StartCodeZero(ops: seq<Op>, uni: int)
    requires Timed(ops) && uni in Run(Initial(), ops).universes
    ensures var c := Run(Initial(), ops).universes[uni][0]; c.value == 0 && !c.fade.active
  {
    EngineAgrees(ops);
    hide Run, Record, Timed, Latest, Initial;
  }
}
