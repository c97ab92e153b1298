/** The engine of class DMX: buffers and fade tables per universe, updated in place. */
module FadeEngine {
  import opened ArtNetBytes
  import opened Common
  import opened FadeModel
  import opened FadeHistory

  function CountActive(fades: seq<Fade>): nat {
    if fades == [] then 0 else CountActive(fades[..|fades| - 1]) + if fades[|fades| - 1].active then 1 else 0
  }

  lemma {:induction false} CountUpdate(fades: seq<Fade>, i: nat, f: Fade)
    requires i < |fades|
    ensures CountActive(fades[i := f]) ==
      CountActive(fades) - (if fades[i].active then 1 else 0) + if f.active then 1 else 0
  {
    var n := |fades| - 1;
    if i == n {
      assert fades[i := f][..n] == fades[..n];
    } else {
      assert fades[i := f][..n] == fades[..n][i := f];
      CountUpdate(fades[..n], i, f);
    }
  }

  /** A zero count means there is nothing to advance. */
  lemma {:induction false} CountZero(fades: seq<Fade>)
    ensures CountActive(fades) == 0 <==> forall i :: 0 <= i < |fades| ==> !fades[i].active
  {
    if fades != [] {
      CountZero(fades[..|fades| - 1]);
    }
  }

  class UniverseData {
    const dmxData: array<byte>
    const fades: array<Fade>
    var activeFadeCount: int

    ghost const Repr: set<object> := {this, dmxData, fades}

    /** The cached count is exact, and the start code is never faded. */
    ghost predicate Valid()
      reads Repr
    {
      dmxData.Length == fades.Length == SLOTS && activeFadeCount == CountActive(fades[..]) &&
      (forall i :: 0 <= i < SLOTS ==> fades[i].active ==> fades[i].duration > 0) &&
      dmxData[0] == 0 && fades[0] == NO_FADE
    }

    ghost function View(): Row
      requires Valid()
      reads Repr
    {
      seq<Cell>(SLOTS, i requires 0 <= i < SLOTS reads Repr => Cell(dmxData[i], fades[i]))
    }

    constructor ()
      ensures Valid() && View() == NewRow() && fresh(Repr)
    {
      dmxData := new byte[SLOTS](_ => 0);
      fades := new Fade[SLOTS](_ => NO_FADE);
      activeFadeCount := 0;
      new;
      CountZero(fades[..]);
    }

    /** Cancels the channel's fade, keeping the count exact. */
    method CancelFade(ch: int)
      requires Valid() && 0 <= ch < SLOTS
      modifies fades, this`activeFadeCount
      ensures Valid()
      ensures fades[..] == old(fades[..])[ch := old(fades[ch]).(active := false)]
    {
      if fades[ch].active {
        CountUpdate(fades[..], ch, fades[ch].(active := false));
        fades[ch] := fades[ch].(active := false);
        activeFadeCount := activeFadeCount - 1;
        assert fades[..] == old(fades[..])[ch := old(fades[ch]).(active := false)];
      }
    }

    method SetChannel(ch: int, level: byte)
      requires Valid() && IsChannel(ch)
      modifies Repr
      ensures Valid() && View() == SetCell(old(View()), ch, Perform(old(View())[ch], Set(level)))
    {
      CancelFade(ch);
      dmxData[ch] := level;
    }

    method StartFade(ch: int, target: byte, millis: nat, now: int)
      requires Valid() && IsChannel(ch) && millis > 0
      modifies Repr
      ensures Valid() && View() == SetCell(old(View()), ch, Perform(old(View())[ch], Ramp(target, millis, now)))
    {
      var f := Fade(true, dmxData[ch], target, now, millis);
      CountUpdate(fades[..], ch, f);
      if !fades[ch].active {
        activeFadeCount := activeFadeCount + 1;
      }
      fades[ch] := f;
      assert fades[..] == old(fades[..])[ch := f];
    }

    /** The loops of channels(): fades are cancelled first, then levels written. */
    method SetChannels(start: int, levels: seq<byte>)
      requires Valid()
      modifies Repr
      ensures Valid()
      ensures forall ch :: 0 <= ch < SLOTS ==>
        View()[ch] ==
        if IsChannel(ch) && start <= ch < start + |levels|
        then Perform(old(View())[ch], Set(levels[ch - start])) else old(View())[ch]
    {
      for i := 0 to |levels|
        invariant Valid() && dmxData[..] == old(dmxData[..])
        invariant forall ch :: 0 <= ch < SLOTS ==>
          fades[ch] ==
          if IsChannel(ch) && start <= ch < start + i then old(fades[ch]).(active := false) else old(fades[ch])
      {
        var ch := start + i;
        if 1 <= ch <= 512 {
          CancelFade(ch);
        }
      }
      assert forall ch :: 0 <= ch < SLOTS ==> dmxData[ch] == old(dmxData[ch]);
      for i := 0 to |levels|
        invariant Valid()
        invariant forall ch :: 0 <= ch < SLOTS ==>
          fades[ch] ==
          if IsChannel(ch) && start <= ch < start + |levels| then old(fades[ch]).(active := false) else old(fades[ch])
        invariant forall ch :: 0 <= ch < SLOTS ==>
          dmxData[ch] ==
          if IsChannel(ch) && start <= ch < start + i then levels[ch - start] else old(dmxData[ch])
      {
        var ch := start + i;
        if 1 <= ch <= 512 {
          dmxData[ch] := levels[i];
        }
      }
    }

    /** The body of blackout() for one universe. */
    method Blackout()
      requires Valid()
      modifies Repr
      ensures Valid()
      ensures forall ch :: 0 <= ch < SLOTS ==>
        View()[ch] == if IsChannel(ch) then Perform(old(View())[ch], Set(0)) else old(View())[ch]
    {
      for i := 1 to SLOTS
        invariant forall ch :: 0 <= ch < SLOTS ==>
          fades[ch] ==
          if 1 <= ch < i then old(fades[ch]).(active := false) else old(fades[ch])
        invariant dmxData[..] == old(dmxData[..])
      {
        fades[i] := fades[i].(active := false);
      }
      activeFadeCount := 0;
      assert dmxData[0] == old(dmxData[..])[0];
      forall i | 1 <= i < SLOTS {
        dmxData[i] := 0;
      }
      CountZero(fades[..]);
    }

    method CopyFrame() returns (frame: seq<byte>)
      requires Valid()
      ensures frame == Frame(View())
    {
      frame := dmxData[..];
    }

    /** The body of update_fades() for one universe: skipped when the cached count is zero. */
    method UpdateFades(now: int)
      requires Valid()
      modifies Repr
      ensures Valid()
      ensures forall ch :: 0 <= ch < SLOTS ==>
        View()[ch] == if IsChannel(ch) then Perform(old(View())[ch], Tick(now)) else old(View())[ch]
    {
      if activeFadeCount == 0 {
        CountZero(fades[..]);
        return;
      }
      for ch := 1 to SLOTS
        invariant Valid()
        invariant forall c :: 0 <= c < SLOTS ==>
          Cell(dmxData[c], fades[c]) ==
          if 1 <= c < ch then Perform(old(View())[c], Tick(now)) else old(View())[c]
      {
        var f := fades[ch];
        if f.active {
          assert old(View())[ch] == Cell(dmxData[ch], f);
          var elapsed := CDiv(now - f.startTime, NANOS_PER_MILLI);
          if elapsed >= f.duration {
            dmxData[ch] := f.target;
            CancelFade(ch);
          } else {
            dmxData[ch] := Clamp(f.start + CDiv(elapsed * (f.target - f.start), f.duration));
          }
        }
      }
    }
  }

  lemma SameSize<K, V, W>(m: map<K, V>, n: map<K, W>)
    requires m.Keys == n.Keys
    ensures |m| == |n|
  {
    assert |m| == |m.Keys| && |n| == |n.Keys|;
  }

  /** An engine's objects: its own, and those of its universes, which are all different. */
  ghost predicate Separate(self: object, universes: map<int, UniverseData>, active: int, repr: set<object>) {
    self in repr && active in universes &&
    (forall u :: u in universes ==> IsUniverse(u) && universes[u].Repr <= repr && self !in universes[u].Repr) &&
    forall u, v :: u in universes && v in universes && u != v ==> universes[u].Repr !! universes[v].Repr
  }

  lemma SeparateInsert(self: object, universes: map<int, UniverseData>, active: int, repr: set<object>,
                       u: int, data: UniverseData)
    requires Separate(self, universes, active, repr) && IsUniverse(u) && u !in universes && data.Repr !! repr
    ensures Separate(self, universes[u := data], active, repr + data.Repr)
  {
  }

  class Dmx {
    var universes: map<int, UniverseData>
    var activeUniverse: int
    ghost var Repr: set<object>

    ghost predicate Shape()
      reads this
    {
      Separate(this, universes, activeUniverse, Repr)
    }

    ghost predicate Valid()
      reads this, Repr
    {
      Shape() && forall u :: u in universes ==> universes[u].Valid()
    }

    ghost function View(): (e: Engine<Cell>)
      requires Valid()
      reads this, Repr
      ensures Rows(e) && e.universes.Keys == universes.Keys && e.active == activeUniverse
    {
      Engine(map u | u in universes :: universes[u].View(), activeUniverse)
    }

    /** What Valid and View say about one universe. */
    lemma Part(u: int)
      requires Valid() && u in universes
      ensures universes[u].Valid() && universes[u].Repr <= Repr && this !in universes[u].Repr && IsUniverse(u)
      ensures View().universes[u] == universes[u].View()
    {
    }

    /** The whole again, from its parts. */
    lemma Assemble(e: Engine<Cell>)
      requires Shape() && e.universes.Keys == universes.Keys && e.active == activeUniverse && Rows(e)
      requires forall v :: v in universes ==> universes[v].Valid() && universes[v].View() == e.universes[v]
      ensures Valid() && View() == e
    {
      assert forall v :: v in universes ==> View().universes[v] == e.universes[v];
      assert View().universes == e.universes;
    }

    /** The whole again, once one universe's data has changed and the others have not. */
    lemma Whole(e: Engine<Cell>, u: int)
      requires Shape() && u in universes && e.universes.Keys + {u} == universes.Keys
      requires e.active == activeUniverse && Rows(e)
      requires universes[u].Valid()
      requires forall v :: v in universes && v != u ==> universes[v].Valid() && universes[v].View() == e.universes[v]
      ensures Valid() && View() == Replaced(e, u, universes[u].View())
    {
      Assemble(Replaced(e, u, universes[u].View()));
    }

    lemma Owned()
      requires Valid()
      ensures Separate(this, universes, activeUniverse, Repr) && this in Repr
      ensures forall v :: v in universes ==> universes[v].Repr <= Repr && this !in universes[v].Repr
    {
    }

    lemma Shaped()
      requires Separate(this, universes, activeUniverse, Repr)
      ensures Shape()
    {
    }

    lemma AllUniverses()
      requires Valid()
      ensures forall u :: u in View().universes ==> IsUniverse(u)
    {
    }

    /** Every part, as Valid and View have it. */
    lemma Parts()
      requires Valid()
      ensures Shape()
      ensures forall v :: v in universes ==> universes[v].Valid() && universes[v].View() == View().universes[v]
    {
    }

    constructor ()
      ensures Valid() && fresh(Repr) && View() == Initial()
    {
      var data := new UniverseData();
      universes := map[1 := data];
      activeUniverse := 1;
      Repr := {this} + data.Repr;
    }

    method SetLevel(u: int, ch: int, level: byte)
      requires Valid() && u in universes && IsChannel(ch)
      modifies Repr
      ensures Valid() && Repr == old(Repr)
      ensures View() ==
        old(Replaced(View(), u, SetCell(View().universes[u], ch, Perform(View().universes[u][ch], Set(level)))))
    {
      ghost var e := View();
      Part(u);
      hide UniverseData.Valid, UniverseData.View;
      universes[u].SetChannel(ch, level);
      Whole(e, u);
    }

    method BeginFade(u: int, ch: int, target: byte, millis: nat, now: int)
      requires Valid() && u in universes && IsChannel(ch) && millis > 0
      modifies Repr
      ensures Valid() && Repr == old(Repr)
      ensures View() == old(Replaced(View(), u, SetCell(View().universes[u], ch,
                                                        Perform(View().universes[u][ch], Ramp(target, millis, now)))))
    {
      ghost var e := View();
      Part(u);
      hide UniverseData.Valid, UniverseData.View;
      universes[u].StartFade(ch, target, millis, now);
      Whole(e, u);
    }

    /** channel(ch, value) on the active universe: out-of-range channels are ignored, values clamped. */
    method Channel(ch: int, level: int)
      requires Valid()
      modifies Repr
      ensures Valid() && Repr == old(Repr)
      ensures View() == Apply(old(View()), Op.Channel(ch, level))
    {
      ghost var op := Op.Channel(ch, level);
      if ch < 1 || ch > 512 {
        ApplyNowhere(View(), op);
      } else {
        ApplyAt(View(), op, activeUniverse, ch, Set(Clamp(level)));
        assert activeUniverse in universes;
        hide *;
        SetLevel(activeUniverse, ch, Clamp(level));
      }
    }

    /** channel(uni, ch, value). */
    method ChannelOn(uni: int, ch: int, level: int)
      requires Valid()
      modifies Repr
      ensures Valid() && Repr == old(Repr)
      ensures View() == Apply(old(View()), Op.ChannelOn(uni, ch, level))
    {
      ghost var op := Op.ChannelOn(uni, ch, level);
      if uni < 1 || uni > 63999 || ch < 1 || ch > 512 || uni !in universes {
        ApplyNowhere(View(), op);
      } else {
        ApplyAt(View(), op, uni, ch, Set(Clamp(level)));
        hide *;
        SetLevel(uni, ch, Clamp(level));
      }
    }

    /** fade(ch, target, durationMs) on the active universe; without a duration it sets the level. */
    method FadeTo(ch: int, target: int, millis: int, now: int)
      requires Valid()
      modifies Repr
      ensures Valid() && Repr == old(Repr)
      ensures View() == Apply(old(View()), Op.FadeTo(ch, target, millis, now))
    {
      ghost var op := Op.FadeTo(ch, target, millis, now);
      if ch < 1 || ch > 512 {
        ApplyNowhere(View(), op);
      } else {
        ApplyAt(View(), op, activeUniverse, ch, Faded(target, millis, now));
        FadeCell(activeUniverse, ch, target, millis, now);
      }
    }

    /** fade(uni, ch, target, durationMs). */
    method FadeOn(uni: int, ch: int, target: int, millis: int, now: int)
      requires Valid()
      modifies Repr
      ensures Valid() && Repr == old(Repr)
      ensures View() == Apply(old(View()), Op.FadeOn(uni, ch, target, millis, now))
    {
      ghost var op := Op.FadeOn(uni, ch, target, millis, now);
      if uni < 1 || uni > 63999 || ch < 1 || ch > 512 || uni !in universes {
        ApplyNowhere(View(), op);
      } else {
        ApplyAt(View(), op, uni, ch, Faded(target, millis, now));
        FadeCell(uni, ch, target, millis, now);
      }
    }

    /** What both forms of fade do once their arguments are checked. */
    method FadeCell(u: int, ch: int, target: int, millis: int, now: int)
      requires Valid() && u in universes && IsChannel(ch)
      modifies Repr
      ensures Valid() && Repr == old(Repr)
      ensures View() == old(Replaced(View(), u, SetCell(View().universes[u], ch,
                                                        Perform(View().universes[u][ch], Faded(target, millis, now)))))
    {
      if millis <= 0 {
        assert Faded(target, millis, now) == Set(Clamp(target));
        hide *;
        SetLevel(u, ch, Clamp(target));
      } else {
        assert Faded(target, millis, now) == Ramp(Clamp(target), millis, now);
        hide *;
        BeginFade(u, ch, Clamp(target), millis, now);
      }
    }

    /** channels(startCh, values, count) on the active universe. */
    method Channels(start: int, levels: seq<byte>)
      requires Valid()
      modifies Repr
      ensures Valid() && Repr == old(Repr)
      ensures View() == Apply(old(View()), Op.Channels(start, levels))
    {
      var u := activeUniverse;
      ghost var e, op := View(), Op.Channels(start, levels);
      ApplyWithin(e, op, u);
      Part(u);
      hide UniverseData.Valid, UniverseData.View, Apply, Perform;
      universes[u].SetChannels(start, levels);
      assert universes[u].View() == StepRow(e.universes[u], op, e.active, u);
      Whole(e, u);
    }

    method BlackoutRow(u: int)
      requires Valid() && u in universes
      modifies Repr
      ensures Valid() && Repr == old(Repr) && universes == old(universes)
      ensures View() == old(Replaced(View(), u, StepRow(View().universes[u], Op.Blackout, activeUniverse, u)))
    {
      ghost var e := View();
      Part(u);
      hide UniverseData.Valid, UniverseData.View, Perform;
      universes[u].Blackout();
      assert universes[u].View() == StepRow(e.universes[u], Op.Blackout, e.active, u);
      Whole(e, u);
    }

    /** Every universe goes dark and every fade is dropped. */
    method Blackout()
      requires Valid()
      modifies Repr
      ensures Valid() && Repr == old(Repr)
      ensures View() == Apply(old(View()), Op.Blackout)
    {
      hide Valid, View, SteppedBelow, FirstKey, Rows, StepRow, Replaced, Apply;
      ghost var e, op := View(), Op.Blackout;
      AllUniverses();
      StepsBegin(e, op);
      var u := FirstKey(universes.Keys, 1);
      while u != 0
        invariant Valid() && Repr == old(Repr) && universes.Keys == e.universes.Keys
        invariant SteppedBelow(e, View(), op, u) && Cursor(e.universes.Keys, u)
        decreases if u == 0 then 0 else 64000 - u
      {
        StepsOn(e, View(), op, u);
        BlackoutRow(u);
        u := FirstKey(universes.Keys, u + 1);
      }
      StepsEnd(e, View(), op);
    }

    method UpdateRow(u: int, now: int)
      requires Valid() && u in universes
      modifies Repr
      ensures Valid() && Repr == old(Repr) && universes == old(universes)
      ensures View() == old(Replaced(View(), u, StepRow(View().universes[u], Op.Send(now), activeUniverse, u)))
    {
      ghost var e := View();
      Part(u);
      hide UniverseData.Valid, UniverseData.View, Perform;
      universes[u].UpdateFades(now);
      assert universes[u].View() == StepRow(e.universes[u], Op.Send(now), e.active, u);
      Whole(e, u);
    }

    /** update_fades. */
    method UpdateFades(now: int)
      requires Valid()
      modifies Repr
      ensures Valid() && Repr == old(Repr)
      ensures View() == Apply(old(View()), Op.Send(now))
    {
      hide Valid, View, SteppedBelow, FirstKey, Rows, StepRow, Replaced, Apply;
      ghost var e, op := View(), Op.Send(now);
      AllUniverses();
      StepsBegin(e, op);
      var u := FirstKey(universes.Keys, 1);
      while u != 0
        invariant Valid() && Repr == old(Repr) && universes.Keys == e.universes.Keys
        invariant SteppedBelow(e, View(), op, u) && Cursor(e.universes.Keys, u)
        decreases if u == 0 then 0 else 64000 - u
      {
        StepsOn(e, View(), op, u);
        UpdateRow(u, now);
        u := FirstKey(universes.Keys, u + 1);
      }
      StepsEnd(e, View(), op);
    }

    /** Copies every universe's buffer, in the order of the map. */
    method TakeSnapshots() returns (snapshots: seq<Snapshot>)
      requires Valid()
      ensures snapshots == SnapshotsFrom(View(), 1)
    {
      snapshots := [];
      hide *;
      var u := FirstKey(universes.Keys, 1);
      ghost var e, from := View(), 1;
      while u != 0
        invariant from >= 1 && u == FirstKey(e.universes.Keys, from)
        invariant snapshots + SnapshotsFrom(e, from) == SnapshotsFrom(e, 1)
        decreases if u == 0 then 0 else 64000 - u
      {
        Part(u);
        SnapshotsStep(e, from);
        var frame := universes[u].CopyFrame();
        snapshots := snapshots + [(u, frame)];
        from := u + 1;
        u := FirstKey(universes.Keys, u + 1);
      }
      SnapshotsStep(e, from);
    }

    /** The first half of send: fades are advanced, then every buffer is copied. */
    method Send(now: int) returns (snapshots: seq<Snapshot>)
      requires Valid()
      modifies Repr
      ensures Valid() && Repr == old(Repr)
      ensures View() == Apply(old(View()), Op.Send(now))
      ensures snapshots == SnapshotsFrom(View(), 1)
    {
      hide *;
      UpdateFades(now);
      snapshots := TakeSnapshots();
    }

    method Create(u: int)
      requires Valid() && IsUniverse(u) && u !in universes
      modifies this`universes, this`Repr
      ensures Valid() && fresh(Repr - old(Repr)) && universes.Keys == old(universes.Keys) + {u}
      ensures View() == old(Replaced(View(), u, NewRow()))
    {
      hide Valid, View, UniverseData.Valid, UniverseData.View, NewRow, Replaced, Rows;
      var data := new UniverseData();
      Insert(u, data);
    }

    method Insert(u: int, data: UniverseData)
      requires Valid() && IsUniverse(u) && u !in universes && data.Valid() && data.Repr !! Repr
      modifies this`universes, this`Repr
      ensures Valid() && Repr == old(Repr) + data.Repr && universes.Keys == old(universes.Keys) + {u}
      ensures View() == old(Replaced(View(), u, data.View()))
    {
      hide Separate, Shape, Valid, View, UniverseData.Valid, UniverseData.View;
      Parts();
      Owned();
      SeparateInsert(this, universes, activeUniverse, Repr, u, data);
      ghost var e := View();
      universes := universes[u := data];
      Repr := Repr + data.Repr;
      Shaped();
      Whole(e, u);
    }

    /** Takes a universe out of the map and makes another one active. */
    method Drop(uni: int, next: int)
      requires Valid() && next in universes && next != uni
      modifies this`universes, this`activeUniverse
      ensures Valid() && Repr == old(Repr) && universes == old(universes) - {uni}
      ensures View() == Engine(old(View().universes) - {uni}, next)
    {
      ghost var e := View();
      Parts();
      universes := universes - {uni};
      activeUniverse := next;
      assert Shape();
      hide Shape, UniverseData.Valid, UniverseData.View;
      Assemble(Engine(e.universes - {uni}, next));
    }

    method Activate(uni: int)
      requires Valid() && uni in universes
      modifies this`activeUniverse
      ensures Valid() && Repr == old(Repr) && activeUniverse == uni
      ensures View() == Engine(old(View().universes), uni)
    {
      ghost var e := View();
      Parts();
      activeUniverse := uni;
      assert Shape();
      hide Shape, UniverseData.Valid, UniverseData.View;
      Assemble(Engine(e.universes, uni));
    }

    /** universe(u): selects a universe, creating it if there is room. */
    method Select(u: int) returns (ok: bool)
      requires Valid()
      modifies Repr
      ensures Valid() && fresh(Repr - old(Repr))
      ensures View() == Apply(old(View()), Op.Select(u)) && (ok <==> 1 <= u <= 63999 && u in universes)
    {
      ghost var e := View();
      assert |universes| == |e.universes| && this in Repr by {
        SameSize(universes, e.universes);
      }
      ApplySelect(e, u);
      hide Valid, View, NewRow, Apply, Shape;
      if u < 1 || u > 63999 {
        return false;
      }
      if u !in universes {
        if |universes| >= MAX_UNIVERSES {
          return false;
        }
        Create(u);
      }
      Activate(u);
      ok := true;
    }

    /**
     * addUniverse(uni): sacnRunning says whether sACN is initialized, accepted whether its library
     * then takes the universe. A refused universe is erased again.
     */
    method Add(uni: int, sacnRunning: bool, accepted: bool) returns (ok: bool)
      requires Valid()
      modifies Repr
      ensures Valid() && fresh(Repr - old(Repr))
      ensures View() == Apply(old(View()), Op.Add(uni, sacnRunning && !accepted))
      ensures ok <==> uni in universes && IsUniverse(uni)
    {
      ghost var e := View();
      assert |universes| == |e.universes| && this in Repr && activeUniverse in universes by {
        SameSize(universes, e.universes);
      }
      ApplyAdd(e, uni, sacnRunning && !accepted);
      hide Valid, View, NewRow, Apply, Shape;
      if uni < 1 || uni > 63999 {
        return false;
      }
      if uni in universes {
        return true;
      }
      if |universes| >= MAX_UNIVERSES {
        return false;
      }
      Create(uni);
      if sacnRunning && !accepted {
        Drop(uni, activeUniverse);
        return false;
      }
      ok := true;
    }

    /** The universe map's part of removeUniverse(uni): the last universe cannot be removed. */
    method Remove(uni: int) returns (ok: bool)
      requires Valid()
      modifies Repr
      ensures Valid() && Repr == old(Repr)
      ensures View() == Apply(old(View()), Op.Remove(uni)) && (ok <==> uni !in universes)
    {
      ghost var e := View();
      assert |universes| == |e.universes| && this in Repr && activeUniverse in universes by {
        SameSize(universes, e.universes);
      }
      ApplyRemove(e, uni);
      hide Valid, View, Apply, Shape;
      if uni !in universes {
        return true;
      }
      if |universes| <= 1 {
        return false;
      }
      Drop(uni, if activeUniverse == uni then FirstKey(universes.Keys - {uni}, 1) else activeUniverse);
      ok := true;
    }
  }
}
