/** The focus system: on every pointer press it rewrites the `inactive`
    flag of every text input, so that only the pressed input (if it is one)
    accepts keystrokes. The flag is inverted: `inactive == true` means the
    input is NOT focused. */
module Focus {
  import Ecs

  type Entity = Ecs.Entity

  /** The pointer state of a UI node, as reported when it changes. */
  datatype Interaction = None | Hovered | Pressed

  /** One changed `(entity, interaction)` pair of a tick's batch. */
  datatype InteractionEvent = InteractionEvent(entity: Entity, interaction: Interaction)

  /** A text input and its inverted focus flag. */
  datatype TextInput = TextInput(entity: Entity, inactive: bool)

  /** Every text input of the world, in query order. */
  type Registry = seq<TextInput>

  function Entities(reg: Registry): (es: seq<Entity>)
  {
    seq(|reg|, i requires 0 <= i < |reg| => reg[i].entity)
  }

  predicate Registered(reg: Registry, e: Entity) {
    exists i :: 0 <= i < |reg| && reg[i].entity == e
  }

  predicate AllInactive(reg: Registry) {
    forall i :: 0 <= i < |reg| ==> reg[i].inactive
  }

  /** Focus exclusivity: no two text inputs accept keystrokes at once. */
  predicate AtMostOneActive(reg: Registry) {
    forall i, j :: 0 <= i < |reg| && 0 <= j < |reg| && !reg[i].inactive && !reg[j].inactive ==> i == j
  }

  predicate IsPress(e: InteractionEvent) {
    e.interaction == Pressed
  }

  predicate NoPress(events: seq<InteractionEvent>) {
    forall k :: 0 <= k < |events| ==> !IsPress(events[k])
  }

  /** `k` is the position of the last press of the batch. */
  predicate IsLastPress(events: seq<InteractionEvent>, k: int) {
    && 0 <= k < |events|
    && IsPress(events[k])
    && forall l :: k < l < |events| ==> !IsPress(events[l])
  }

  /** The inner loop of the system: the input whose entity was pressed gets
      `inactive = false`, every other input gets `inactive = true`. */
  function FocusOn(reg: Registry, pressed: Entity): (r: Registry)
    ensures |r| == |reg|
    ensures forall i :: 0 <= i < |r| ==> r[i].entity == reg[i].entity
    ensures forall i :: 0 <= i < |r| ==> (r[i].inactive <==> reg[i].entity != pressed)
    ensures Entities(r) == Entities(reg)
  {
    if reg == [] then []
    else
      var r := [TextInput(reg[0].entity, reg[0].entity != pressed)] + FocusOn(reg[1..], pressed);
      assert forall i :: 0 <= i < |r| ==> Entities(r)[i] == Entities(reg)[i];
      r
  }

  /** One event of the batch: only a press touches the registry. */
  function Step(reg: Registry, e: InteractionEvent): Registry
  {
    if IsPress(e) then FocusOn(reg, e.entity) else reg
  }

  /** The whole system for one tick: the batch folded over the registry in
      iteration order. */
  function FocusTick(reg: Registry, events: seq<InteractionEvent>): (r: Registry)
    ensures Entities(r) == Entities(reg)
    decreases |events|
  {
    if events == [] then reg else FocusTick(Step(reg, events[0]), events[1..])
  }

  /** Reference definition: the entity of the last press of the batch, if any. */
  function LastPressed(events: seq<InteractionEvent>): (r: Ecs.Option<Entity>)
    ensures r.None? <==> NoPress(events)
    ensures r.Some? ==> exists k :: IsLastPress(events, k) && events[k].entity == r.value
  {
    if events == [] then Ecs.None
    else
      var rest := LastPressed(events[1..]);
      if rest.Some? then
        ghost var k :| IsLastPress(events[1..], k) && events[1..][k].entity == rest.value;
        assert IsLastPress(events, k + 1);
        rest
      else if IsPress(events[0]) then
        assert IsLastPress(events, 0);
        Ecs.Some(events[0].entity)
      else
        assert forall k :: 1 <= k < |events| ==> events[k] == events[1..][k - 1];
        Ecs.None
  }

  /** The registry a tick must leave behind, stated without the fold. */
  function AfterTick(reg: Registry, events: seq<InteractionEvent>): Registry
  {
    match LastPressed(events)
    case None => reg
    case Some(t) => FocusOn(reg, t)
  }

  /** Several ticks in a row. */
  function Session(reg: Registry, batches: seq<seq<InteractionEvent>>): (r: Registry)
    ensures Entities(r) == Entities(reg)
    decreases |batches|
  {
    if batches == [] then reg else Session(FocusTick(reg, batches[0]), batches[1..])
  }

  /** The system as written: for every changed pair, a press rewrites every
      text input's flag in place. */
  method FocusSystem(reg: Registry, events: seq<InteractionEvent>) returns (r: Registry)
    ensures Entities(r) == Entities(reg)
    ensures NoPress(events) ==> r == reg
    ensures forall k, i :: IsLastPress(events, k) && 0 <= i < |r| ==>
              (r[i].inactive <==> reg[i].entity != events[k].entity)
    ensures r == FocusTick(reg, events)
  {
    r := reg;
    for n := 0 to |events|
      invariant |r| == |reg|
      invariant forall i :: 0 <= i < |r| ==> r[i].entity == reg[i].entity
      invariant NoPress(events[..n]) ==> r == reg
      invariant forall k, i :: IsLastPress(events[..n], k) && 0 <= i < |r| ==>
                  (r[i].inactive <==> reg[i].entity != events[k].entity)
    {
      if IsPress(events[n]) {
        var j := 0;
        while j < |r|
          invariant j <= |r| == |reg|
          invariant forall i :: 0 <= i < |r| ==> r[i].entity == reg[i].entity
          invariant forall i :: 0 <= i < j ==> (r[i].inactive <==> reg[i].entity != events[n].entity)
        {
          r := r[j := TextInput(r[j].entity, r[j].entity != events[n].entity)];
          j := j + 1;
        }
        ghost var upTo := events[..n + 1];
        assert forall k :: IsLastPress(upTo, k) ==> k == n;
      } else {
        assert forall k :: IsLastPress(events[..n + 1], k) ==> IsLastPress(events[..n], k);
        assert NoPress(events[..n + 1]) ==> NoPress(events[..n]);
      }
    }
    assert events[..|events|] == events;
    assert forall i :: 0 <= i < |r| ==> Entities(r)[i] == Entities(reg)[i];
    FocusTickFollowsLastPress(reg, events);
    if !NoPress(events) {
      var t := LastPressed(events).value;
      var k :| IsLastPress(events, k) && events[k].entity == t;
      assert forall i :: 0 <= i < |r| ==> r[i] == FocusOn(reg, t)[i];
    }
  }

  // ---------------------------------------------------------------------
  // Properties of one tick

  /** Flags before a press do not matter: a press only reads entities. */
  lemma FocusOnForgetsFlags(r1: Registry, r2: Registry, t: Entity)
    requires Entities(r1) == Entities(r2)
    ensures FocusOn(r1, t) == FocusOn(r2, t)
  {
    var a, b := FocusOn(r1, t), FocusOn(r2, t);
    assert |a| == |Entities(a)| == |Entities(b)| == |b|;
    forall i | 0 <= i < |a|
      ensures a[i] == b[i]
    {
      assert Entities(a)[i] == Entities(b)[i] && Entities(r1)[i] == Entities(r2)[i];
    }
  }

  /** The fold equals the reference: the tick is decided by its last press. */
  lemma {:induction false} FocusTickFollowsLastPress(reg: Registry, events: seq<InteractionEvent>)
    ensures FocusTick(reg, events) == AfterTick(reg, events)
    decreases |events|
  {
    if events != [] {
      var next := Step(reg, events[0]);
      FocusTickFollowsLastPress(next, events[1..]);
      var rest := LastPressed(events[1..]);
      if rest.Some? {
        FocusOnForgetsFlags(next, reg, rest.value);
      }
    }
  }

  /** A batch of only `Hovered` and `None` changes leaves every flag alone. */
  lemma {:induction false} NoPressLeavesFlags(reg: Registry, events: seq<InteractionEvent>)
    requires NoPress(events)
    ensures FocusTick(reg, events) == reg
  {
    FocusTickFollowsLastPress(reg, events);
  }

  /** After a batch whose last press hit a registered text input, that input
      is the only one accepting keystrokes. */
  lemma PressedInputIsSoleActive(reg: Registry, events: seq<InteractionEvent>, k: int, i: int)
    requires Ecs.Distinct(Entities(reg))
    requires IsLastPress(events, k)
    requires 0 <= i < |reg| && reg[i].entity == events[k].entity
    ensures var r := FocusTick(reg, events);
            && |r| == |reg|
            && !r[i].inactive
            && forall j :: 0 <= j < |r| && j != i ==> r[j].inactive
  {
    FocusTickFollowsLastPress(reg, events);
    LastPressIsUnique(events, k);
    var r := FocusTick(reg, events);
    assert |r| == |Entities(r)| == |Entities(reg)| == |reg|;
    forall j | 0 <= j < |r| && j != i
      ensures r[j].inactive
    {
      assert Entities(reg)[i] != Entities(reg)[j];
    }
  }

  /** A press on anything that is not a text input (the full-screen
      background node, a button) takes focus away from every input. */
  lemma PressOutsideRegistryDeactivatesAll(reg: Registry, events: seq<InteractionEvent>, k: int)
    requires IsLastPress(events, k)
    requires !Registered(reg, events[k].entity)
    ensures AllInactive(FocusTick(reg, events))
  {
    FocusTickFollowsLastPress(reg, events);
    LastPressIsUnique(events, k);
  }

  lemma LastPressIsUnique(events: seq<InteractionEvent>, k: int)
    requires IsLastPress(events, k)
    ensures LastPressed(events) == Ecs.Some(events[k].entity)
  {
    assert !NoPress(events) by { assert IsPress(events[k]); }
    var last := LastPressed(events);
    var k' :| IsLastPress(events, k') && events[k'].entity == last.value;
    assert 0 <= k' < |events| && IsPress(events[k']);
    assert k' == k;
  }

  /** Last press wins: whatever came before, a press followed only by
      non-press changes fixes the whole outcome. */
  lemma LastPressWins(reg: Registry, before: seq<InteractionEvent>, pressed: Entity, after: seq<InteractionEvent>)
    requires NoPress(after)
    ensures FocusTick(reg, before + [InteractionEvent(pressed, Pressed)] + after) == FocusOn(reg, pressed)
  {
    var events := before + [InteractionEvent(pressed, Pressed)] + after;
    assert IsLastPress(events, |before|) by {
      forall l | |before| < l < |events|
        ensures !IsPress(events[l])
      {
        assert events[l] == after[l - |before| - 1];
      }
    }
    LastPressIsUnique(events, |before|);
    FocusTickFollowsLastPress(reg, events);
  }

  lemma {:induction false} FocusTickConcat(reg: Registry, e1: seq<InteractionEvent>, e2: seq<InteractionEvent>)
    ensures FocusTick(reg, e1 + e2) == FocusTick(FocusTick(reg, e1), e2)
    decreases |e1|
  {
    if e1 != [] {
      assert (e1 + e2)[1..] == e1[1..] + e2;
      FocusTickConcat(Step(reg, e1[0]), e1[1..], e2);
    } else {
      assert e1 + e2 == e2;
    }
  }

  /** Earlier presses are fully overwritten: once a later part of the batch
      holds a press, the events before it change nothing. */
  lemma EarlierEventsOverwritten(reg: Registry, e1: seq<InteractionEvent>, e2: seq<InteractionEvent>)
    requires !NoPress(e2)
    ensures FocusTick(reg, e1 + e2) == FocusTick(reg, e2)
  {
    FocusTickConcat(reg, e1, e2);
    var mid := FocusTick(reg, e1);
    FocusTickFollowsLastPress(mid, e2);
    FocusTickFollowsLastPress(reg, e2);
    FocusOnForgetsFlags(mid, reg, LastPressed(e2).value);
  }

  // ---------------------------------------------------------------------
  // Exclusivity across ticks

  lemma FocusOnLeavesAtMostOne(reg: Registry, t: Entity)
    requires Ecs.Distinct(Entities(reg))
    ensures AtMostOneActive(FocusOn(reg, t))
  {
    var r := FocusOn(reg, t);
    forall i, j | 0 <= i < |r| && 0 <= j < |r| && !r[i].inactive && !r[j].inactive
      ensures i == j
    {
      assert Entities(reg)[i] == t == Entities(reg)[j];
    }
  }

  /** One tick keeps focus exclusive and the registry's entities unchanged. */
  lemma TickKeepsExclusive(reg: Registry, events: seq<InteractionEvent>)
    requires Ecs.Distinct(Entities(reg))
    requires AtMostOneActive(reg)
    ensures AtMostOneActive(FocusTick(reg, events))
  {
    FocusTickFollowsLastPress(reg, events);
    if LastPressed(events).Some? {
      FocusOnLeavesAtMostOne(reg, LastPressed(events).value);
    }
  }

  /** Focus exclusivity: from the setup state, where every text input
      starts inactive, at most one input is active after every tick. */
  lemma {:induction false} SessionExclusive(reg: Registry, batches: seq<seq<InteractionEvent>>)
    requires Ecs.Distinct(Entities(reg))
    requires AllInactive(reg)
    ensures forall n :: 0 <= n <= |batches| ==> AtMostOneActive(Session(reg, batches[..n]))
  {
    SessionPrefixesExclusive(reg, batches);
  }

  lemma {:induction false} SessionPrefixesExclusive(reg: Registry, batches: seq<seq<InteractionEvent>>)
    requires Ecs.Distinct(Entities(reg))
    requires AtMostOneActive(reg)
    ensures forall n :: 0 <= n <= |batches| ==> AtMostOneActive(Session(reg, batches[..n]))
    decreases |batches|
  {
    if batches != [] {
      var next := FocusTick(reg, batches[0]);
      TickKeepsExclusive(reg, batches[0]);
      SessionPrefixesExclusive(next, batches[1..]);
      forall n | 0 <= n <= |batches|
        ensures AtMostOneActive(Session(reg, batches[..n]))
      {
        if n > 0 {
          assert batches[..n][1..] == batches[1..][..n - 1];
        }
      }
    }
  }
}
