/** The overlay as it is set up at startup, run through both systems. Of the
    node tree the layout system builds, only the background and the two
    tagged list containers are kept: every other node carries no list tag,
    so `Lists.CategoryIsolation` leaves it unchanged on every tick. The
    debug world's entities are the names delivered on the first tick.
    Entity numbers are arbitrary but distinct. */
module Scenarios {
  import Ecs
  import Focus
  import Lists

  const Background: Ecs.Entity := 1
  const CharacterListNode: Ecs.Entity := 4
  const ItemListNode: Ecs.Entity := 7
  const CharacterInput: Ecs.Entity := 11
  const ItemInput: Ecs.Entity := 15
  const CharacterSubmit: Ecs.Entity := 16

  /** The layout's tree reduced to the full-screen background and the two
      list containers, before any label is spawned; the untagged panels,
      forms and buttons are left out because no tick changes them. */
  function StartupUi(): Lists.Ui {
    [ Lists.Container(Background, {}, []),
      Lists.Container(CharacterListNode, {Lists.CharacterList}, []),
      Lists.Container(ItemListNode, {Lists.ItemList}, []) ]
  }

  /** The entities the debug world spawns, seen as added on the first tick. */
  function DebugWorld(): Lists.Added {
    Lists.Added(["Toby", "Swann", "Dan", "Tamara", "Niamh", "Erin"], ["Spoon"])
  }

  /** The two text inputs of the creation forms, both spawned inactive. */
  function StartupInputs(): Focus.Registry {
    [Focus.TextInput(CharacterInput, true), Focus.TextInput(ItemInput, true)]
  }

  function Press(e: Ecs.Entity): Focus.InteractionEvent {
    Focus.InteractionEvent(e, Focus.Pressed)
  }

  function Hover(e: Ecs.Entity): Focus.InteractionEvent {
    Focus.InteractionEvent(e, Focus.Hovered)
  }

  /** Any first tick: each list gains exactly its own category's names. */
  lemma StartupTick(added: Lists.Added)
    ensures Lists.UpdateDebugUi(StartupUi(), added) ==
      [ Lists.Container(Background, {}, []),
        Lists.Container(CharacterListNode, {Lists.CharacterList}, added.characters),
        Lists.Container(ItemListNode, {Lists.ItemList}, added.items) ]
  {
    var ui := StartupUi();
    assert Ecs.Distinct(Lists.Entities(ui)) by {
      assert Lists.Entities(ui) == [Background, CharacterListNode, ItemListNode];
    }
    Lists.UpdateMatchesExpected(ui, added);
    var e := Lists.Expected(ui, added);
    assert Lists.IsSole(ui, Lists.CharacterList, 1) && Lists.IsSole(ui, Lists.ItemList, 2);
    assert !Lists.IsSole(ui, Lists.CharacterList, 0) && !Lists.IsSole(ui, Lists.ItemList, 0);
    assert !Lists.IsSole(ui, Lists.ItemList, 1) && !Lists.IsSole(ui, Lists.CharacterList, 2);
    Lists.AppendEmpty([]);
    Lists.AppendEmpty(added.characters);
    Lists.AppendEmpty(added.items);
    assert |e| == 3;
    assert e[0] == Lists.Container(Background, {}, []);
    assert e[1] == Lists.Container(CharacterListNode, {Lists.CharacterList}, added.characters);
    assert e[2] == Lists.Container(ItemListNode, {Lists.ItemList}, added.items);
  }

  /** First tick: the character list shows the six characters in spawn
      order, the item list shows the spoon, the background gains nothing.
      The names are delivered in spawn order here: all six characters share
      one table, which the query walks in insertion order. */
  lemma DebugWorldFirstTick()
    ensures Lists.UpdateDebugUi(StartupUi(), DebugWorld()) ==
      [ Lists.Container(Background, {}, []),
        Lists.Container(CharacterListNode, {Lists.CharacterList},
                        ["Toby", "Swann", "Dan", "Tamara", "Niamh", "Erin"]),
        Lists.Container(ItemListNode, {Lists.ItemList}, ["Spoon"]) ]
  {
    StartupTick(DebugWorld());
  }

  lemma FocusOnInputs(a: bool, b: bool, t: Ecs.Entity)
    ensures Focus.FocusOn([Focus.TextInput(CharacterInput, a), Focus.TextInput(ItemInput, b)], t)
            == [Focus.TextInput(CharacterInput, CharacterInput != t), Focus.TextInput(ItemInput, ItemInput != t)]
  {
  }

  /** Focus follows the pointer: pressing an input focuses it alone, hovering
      changes nothing, pressing the other input moves focus, and pressing
      the background or a button leaves no input focused. */
  lemma FocusWalkthrough()
    ensures var r := StartupInputs();
            var t1 := Focus.FocusTick(r, [Press(CharacterInput)]);
            var t2 := Focus.FocusTick(t1, [Hover(CharacterInput)]);
            var t3 := Focus.FocusTick(t2, [Press(ItemInput)]);
            var t4 := Focus.FocusTick(t3, [Hover(ItemInput), Press(Background)]);
            var t5 := Focus.FocusTick(t4, [Press(ItemInput), Press(CharacterSubmit)]);
            && t1 == [Focus.TextInput(CharacterInput, false), Focus.TextInput(ItemInput, true)]
            && t2 == t1
            && t3 == [Focus.TextInput(CharacterInput, true), Focus.TextInput(ItemInput, false)]
            && t4 == [Focus.TextInput(CharacterInput, true), Focus.TextInput(ItemInput, true)]
            && t5 == t4
  {
    var r := StartupInputs();
    Focus.LastPressWins(r, [], CharacterInput, []);
    assert [] + [Press(CharacterInput)] + [] == [Press(CharacterInput)];
    FocusOnInputs(true, true, CharacterInput);
    var t1 := Focus.FocusTick(r, [Press(CharacterInput)]);
    Focus.NoPressLeavesFlags(t1, [Hover(CharacterInput)]);
    Focus.LastPressWins(t1, [], ItemInput, []);
    assert [] + [Press(ItemInput)] + [] == [Press(ItemInput)];
    FocusOnInputs(false, true, ItemInput);
    var t3 := Focus.FocusTick(t1, [Press(ItemInput)]);
    Focus.LastPressWins(t3, [Hover(ItemInput)], Background, []);
    assert [Hover(ItemInput)] + [Press(Background)] + [] == [Hover(ItemInput), Press(Background)];
    FocusOnInputs(true, false, Background);
    var t4 := Focus.FocusTick(t3, [Hover(ItemInput), Press(Background)]);
    Focus.LastPressWins(t4, [Press(ItemInput)], CharacterSubmit, []);
    assert [Press(ItemInput)] + [Press(CharacterSubmit)] + [] == [Press(ItemInput), Press(CharacterSubmit)];
    FocusOnInputs(true, true, CharacterSubmit);
  }

  /** Two presses in one tick: the later one in iteration order wins. */
  lemma SameTickPresses()
    ensures Focus.FocusTick(StartupInputs(), [Press(CharacterInput), Press(ItemInput)])
            == [Focus.TextInput(CharacterInput, true), Focus.TextInput(ItemInput, false)]
  {
    Focus.LastPressWins(StartupInputs(), [Press(CharacterInput)], ItemInput, []);
    assert [Press(CharacterInput)] + [Press(ItemInput)] + [] == [Press(CharacterInput), Press(ItemInput)];
    FocusOnInputs(true, true, ItemInput);
  }
}
