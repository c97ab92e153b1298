/**
 * What each call does to each channel of each universe, to the table and to the active universe, in
 * the numbers of the interface: channels 1 to 512, levels 0 to 255, universes 1 to 63999.
 */
module FadeCalls {
  import opened ArtNetBytes
  import opened Common
  import opened FadeModel
  import opened FadeHistory

  /** The universes that stay have each channel acted on by itself. */
  lemma CellAfter(e: Engine<Cell>, op: Op, u: int, ch: int)
    requires Rows(e) && u in e.universes && 0 <= ch < 513 && u in Apply(e, op).universes
    ensures Apply(e, op).universes[u][ch] == After(e.universes[u][ch], ActOn(op, e.active, u, ch))
  {
    hide After, ActOn;
    assert StepRows(e, op)[u] == StepRow(e.universes[u], op, e.active, u);
    if Structural(op) {
      ApplyStructural(e, op);
      ActsNowhere(op, e.active, u, ch);
    }
  }

  lemma ActsNowhere(op: Op, active: int, u: int, ch: int)
    requires Structural(op)
    ensures ActOn(op, active, u, ch) == None && forall c: Cell :: After(c, None) == c
  {
  }

  /** Calls that set or fade channels, blackout and send keep the table and the active universe. */
  lemma TableKept(e: Engine<Cell>, op: Op)
    requires Rows(e) && !op.Select? && !op.Add? && !op.Remove?
    ensures Apply(e, op).universes.Keys == e.universes.Keys && Apply(e, op).active == e.active
  {
  }

  /** channel(uni, ch, value): the named channel takes the value, clamped, and loses its fade; nothing else changes. */
  lemma ChannelOnExactly(e: Engine<Cell>, uni: int, channel: int, level: int, u: int, ch: int)
    requires Rows(e) && u in e.universes && 0 <= ch < 513
    ensures var c, c' := e.universes[u][ch], Apply(e, Op.ChannelOn(uni, channel, level)).universes[u][ch];
      if u == uni && ch == channel && 1 <= uni <= 63999 && 1 <= channel <= 512 then
        c' == Cell(if level < 0 then 0 else if level > 255 then 255 else level, c.fade.(active := false))
      else c' == c
  {
    TableKept(e, Op.ChannelOn(uni, channel, level));
    CellAfter(e, Op.ChannelOn(uni, channel, level), u, ch);
    hide Apply, Rows;
  }

  /** channel(ch, value): the same on the active universe. */
  lemma ChannelExactly(e: Engine<Cell>, channel: int, level: int, u: int, ch: int)
    requires Rows(e) && u in e.universes && 0 <= ch < 513
    ensures var c, c' := e.universes[u][ch], Apply(e, Op.Channel(channel, level)).universes[u][ch];
      if u == e.active && ch == channel && 1 <= channel <= 512 then
        c' == Cell(if level < 0 then 0 else if level > 255 then 255 else level, c.fade.(active := false))
      else c' == c
  {
    TableKept(e, Op.Channel(channel, level));
    CellAfter(e, Op.Channel(channel, level), u, ch);
    hide Apply, Rows;
  }

  /** channels(start, values, count): each covered channel of the active universe takes its own value. */
  lemma ChannelsExactly(e: Engine<Cell>, start: int, levels: seq<byte>, u: int, ch: int)
    requires Rows(e) && u in e.universes && 0 <= ch < 513
    ensures var c, c' := e.universes[u][ch], Apply(e, Op.Channels(start, levels)).universes[u][ch];
      if u == e.active && 1 <= ch <= 512 && 0 <= ch - start < |levels| then
        c' == Cell(levels[ch - start], c.fade.(active := false))
      else c' == c
  {
    TableKept(e, Op.Channels(start, levels));
    CellAfter(e, Op.Channels(start, levels), u, ch);
    hide Apply, Rows;
  }

  /** blackout(): every channel of every universe is 0 and has no active fade. */
  lemma BlackoutExactly(e: Engine<Cell>, u: int, ch: int)
    requires Rows(e) && u in e.universes && 0 <= ch < 513
    ensures var c, c' := e.universes[u][ch], Apply(e, Op.Blackout).universes[u][ch];
      c' == if ch >= 1 then Cell(0, c.fade.(active := false)) else c
  {
    TableKept(e, Op.Blackout);
    CellAfter(e, Op.Blackout, u, ch);
    hide Apply, Rows;
  }

  /**
   * fade(uni, ch, target, durationMs): the named channel keeps its value and fades from it; with no
   * duration it is set at once. Nothing else changes.
   */
  lemma FadeOnExactly(e: Engine<Cell>, uni: int, channel: int, target: int, millis: int, now: int, u: int, ch: int)
    requires Rows(e) && u in e.universes && 0 <= ch < 513
    ensures var c, c' := e.universes[u][ch], Apply(e, Op.FadeOn(uni, channel, target, millis, now)).universes[u][ch];
      var to: byte := if target < 0 then 0 else if target > 255 then 255 else target;
      if u == uni && ch == channel && 1 <= uni <= 63999 && 1 <= channel <= 512 then
        c' == if millis > 0 then Cell(c.value, Fade(true, c.value, to, now, millis))
              else Cell(to, c.fade.(active := false))
      else c' == c
  {
    TableKept(e, Op.FadeOn(uni, channel, target, millis, now));
    CellAfter(e, Op.FadeOn(uni, channel, target, millis, now), u, ch);
    hide Apply, Rows;
  }

  /** fade(ch, target, durationMs): the same on the active universe. */
  lemma FadeToExactly(e: Engine<Cell>, channel: int, target: int, millis: int, now: int, u: int, ch: int)
    requires Rows(e) && u in e.universes && 0 <= ch < 513
    ensures var c, c' := e.universes[u][ch], Apply(e, Op.FadeTo(channel, target, millis, now)).universes[u][ch];
      var to: byte := if target < 0 then 0 else if target > 255 then 255 else target;
      if u == e.active && ch == channel && 1 <= channel <= 512 then
        c' == if millis > 0 then Cell(c.value, Fade(true, c.value, to, now, millis))
              else Cell(to, c.fade.(active := false))
      else c' == c
  {
    TableKept(e, Op.FadeTo(channel, target, millis, now));
    CellAfter(e, Op.FadeTo(channel, target, millis, now), u, ch);
    hide Apply, Rows;
  }

  /** The update in send: every channel with a fade shows its value at that time; slot 0 is left alone. */
  lemma SendExactly(e: Engine<Cell>, u: int, ch: int, m: nat, r: nat)
    requires Rows(e) && u in e.universes && 0 <= ch < 513 && r < 1_000_000
    ensures var c := e.universes[u][ch];
      var f := c.fade;
      var c' := Apply(e, Op.Send(f.startTime + 1_000_000 * m + r)).universes[u][ch];
      if ch == 0 || !f.active then c' == c
      else if m >= f.duration then c' == Cell(f.target, f.(active := false))
      else (
        c'.fade == f &&
        c'.value ==
          if f.target >= f.start then f.start + m * (f.target - f.start) / f.duration
          else f.start - m * (f.start - f.target) / f.duration)
  {
    var c := e.universes[u][ch];
    var op := Op.Send(c.fade.startTime + 1_000_000 * m + r);
    TableKept(e, op);
    CellAfter(e, op, u, ch);
    TickExactly(c, m, r);
    hide Apply, Rows, Perform;
  }

  /**
   * universe(u): an existing universe becomes the active one; a new one is created, dark, while
   * there are fewer than 64; any other number changes nothing. No channel of another universe changes.
   */
  lemma SelectExactly(e: Engine<Cell>, uni: int, u: int, ch: int)
    requires Rows(e) && 0 <= ch < 513
    ensures var e' := Apply(e, Op.Select(uni));
      var created := 1 <= uni <= 63999 && uni !in e.universes && |e.universes| < 64;
      (u in e'.universes <==> u in e.universes || (created && u == uni)) &&
      e'.active == (if 1 <= uni <= 63999 && (uni in e.universes || created) then uni else e.active) &&
      (u in e.universes ==> e'.universes[u][ch] == e.universes[u][ch]) &&
      (u in e'.universes && u !in e.universes ==> e'.universes[u][ch].value == 0 && !e'.universes[u][ch].fade.active)
  {
    ApplyStructural(e, Op.Select(uni));
  }

  /** addUniverse(uni): the same without selecting it; a universe that sACN refuses is not kept. */
  lemma AddExactly(e: Engine<Cell>, uni: int, refused: bool, u: int, ch: int)
    requires Rows(e) && 0 <= ch < 513
    ensures var e' := Apply(e, Op.Add(uni, refused));
      var created := 1 <= uni <= 63999 && uni !in e.universes && |e.universes| < 64 && !refused;
      (u in e'.universes <==> u in e.universes || (created && u == uni)) && e'.active == e.active &&
      (u in e.universes ==> e'.universes[u][ch] == e.universes[u][ch]) &&
      (u in e'.universes && u !in e.universes ==> e'.universes[u][ch].value == 0 && !e'.universes[u][ch].fade.active)
  {
    ApplyStructural(e, Op.Add(uni, refused));
  }

  /**
   * removeUniverse(uni): the universe goes unless it is the last one. The active universe changes
   * only if it was the one removed, to the smallest one left.
   */
  lemma RemoveExactly(ops: seq<Op>, uni: int, u: int, ch: int)
    requires Timed(ops) && 0 <= ch < 513
    ensures var e := Run(Initial(), ops);
      var e' := Apply(e, Op.Remove(uni));
      var removed := uni in e.universes && |e.universes| > 1;
      (u in e'.universes <==> u in e.universes && !(removed && u == uni)) &&
      (u in e'.universes ==> e'.universes[u][ch] == e.universes[u][ch]) &&
      e'.active in e'.universes &&
      (removed && e.active == uni ==> (u in e'.universes ==> e'.active <= u)) &&
      (!(removed && e.active == uni) ==> e'.active == e.active)
  {
    EngineAgrees(ops);
    var e := Run(Initial(), ops);
    hide Run, Record, Apply, RowAgrees, FirstKey;
    ApplyRemove(e, uni);
    if e.active == uni && u in e.universes && u != uni {
      assert u in e.universes.Keys - {uni};
    }
  }

  /** A new instance: universe 1, active, dark. */
  lemma InitialExactly(u: int, ch: int)
    requires 0 <= ch < 513
    ensures (u in Initial().universes <==> u == 1) && Initial().active == 1
    ensures Initial().universes[1][ch].value == 0 && !Initial().universes[1][ch].fade.active
  {
  }

  // ----- a fade over a run

  function Sends(times: seq<int>): (ops: seq<Op>)
    ensures |ops| == |times| && forall i :: 0 <= i < |ops| ==> ops[i] == Op.Send(times[i])
  {
    seq(|times|, i requires 0 <= i < |times| => Op.Send(times[i]))
  }

  /** A fade that is on, or that has come to its end no later than m milliseconds after its start. */
  predicate On(c: Cell, f: Fade, m: nat) {
    f.active && (c.fade == f || (c == Cell(f.target, f.(active := false)) && m >= f.duration))
  }

  lemma {:induction false} FadeGoesOn(e: Engine<Cell>, u: int, ch: int, f: Fade, times: seq<int>, m: nat, r: nat)
    requires Rows(e) && u in e.universes && 1 <= ch <= 512 && r < 1_000_000 && On(e.universes[u][ch], f, m)
    requires forall i :: 0 <= i < |times| ==> f.startTime <= times[i] <= f.startTime + 1_000_000 * m + r
    ensures var after := FadeHistory.Run(e, Sends(times));
      u in after.universes && On(after.universes[u][ch], f, m) &&
      (times != [] && times[|times| - 1] == f.startTime + 1_000_000 * m + r ==>
        after.universes[u][ch].value ==
          if m >= f.duration then f.target
          else if f.target >= f.start then f.start + m * (f.target - f.start) / f.duration
          else f.start - m * (f.start - f.target) / f.duration)
  {
    hide Apply, FadeHistory.Rows;
    if times != [] {
      var k := |times| - 1;
      FadeGoesOn(e, u, ch, f, times[..k], m, r);
      assert Sends(times)[..k] == Sends(times[..k]);
      var before := FadeHistory.Run(e, Sends(times[..k]));
      var past := times[k] - f.startTime;
      assert times[k] == f.startTime + 1_000_000 * (past / 1_000_000) + past % 1_000_000;
      TableKept(before, Op.Send(times[k]));
      SendExactly(before, u, ch, past / 1_000_000, past % 1_000_000);
    }
  }

  /**
   * Once a fade has begun, what a later send puts on the wire, whenever other sends have come in
   * between: the start value and the share of the way that m whole milliseconds are of the
   * duration, or the target from the duration on.
   */
  lemma FadeOnTheWire(e: Engine<Cell>, named: bool, u: int, ch: int, target: int, millis: int, begun: int,
                      times: seq<int>, m: nat, r: nat)
    requires Rows(e) && u in e.universes && 1 <= u <= 63999 && 1 <= ch <= 512 && millis > 0 && r < 1_000_000
    requires named || u == e.active
    requires forall i :: 0 <= i < |times| ==> begun <= times[i] <= begun + 1_000_000 * m + r
    requires times != [] && times[|times| - 1] == begun + 1_000_000 * m + r
    ensures var start := e.universes[u][ch].value;
      var to := if target < 0 then 0 else if target > 255 then 255 else target;
      var fade := if named then Op.FadeOn(u, ch, target, millis, begun) else Op.FadeTo(ch, target, millis, begun);
      exists s :: s in SnapshotsFrom(FadeHistory.Run(Apply(e, fade), Sends(times)), 1) && s.0 == u && |s.1| == 513 &&
        s.1[ch] ==
          if m >= millis then to
          else if to >= start then start + m * (to - start) / millis
          else start - m * (start - to) / millis
  {
    hide Apply, FadeHistory.Run, SnapshotsFrom;
    var fade := if named then Op.FadeOn(u, ch, target, millis, begun) else Op.FadeTo(ch, target, millis, begun);
    if named {
      FadeOnExactly(e, u, ch, target, millis, begun, u, ch);
    } else {
      FadeToExactly(e, ch, target, millis, begun, u, ch);
    }
    TableKept(e, fade);
    var e' := Apply(e, fade);
    FadeGoesOn(e', u, ch, e'.universes[u][ch].fade, times, m, r);
    var after := FadeHistory.Run(e', Sends(times));
    SnapshotsComplete(after, 1, u);
    assert (u, Frame(after.universes[u])) in SnapshotsFrom(after, 1);
  }
}
