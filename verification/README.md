# Debug overlay systems, modelled in Dafny

The overlay of this small Bevy application has two per-tick systems in
`src/main.rs` that carry logic of their own:

- `focus` is the focus coordinator. Every text input carries an inverted flag,
  `TextInputInactive`. For every entity whose `Interaction` became `Pressed`
  this tick, the system rewrites the flag of every text input: the pressed
  input gets `false` (focused) and every other input gets `true`. The
  full-screen background node also carries an `Interaction`, so a click on the
  background, or on any button, takes focus away from every input.
- `update_debug_ui` is the list synchronizer. For every newly added
  `Character` (`Item`) it appends a text label with the entity's name as the
  last child of the container tagged `CharacterList` (`ItemList`). It does
  this only when exactly one such container exists, because
  `Query::get_single` fails when there are none or several.

Both systems are modelled as pure reducers over immutable sequences:

- `ecs.dfy`: entity handles, `Option`, and distinctness of query results.
- `focus.dfy` (module `Focus`): the text-input registry and the interaction
  events. `FocusOn` models the inner loop. `FocusTick` models one tick as a
  left fold over the batch. `FocusSystem` is the nested loop as written,
  updating in place. `LastPressed` is an independent reference definition:
  the entity of the last press. The lemmas connect the fold to that reference
  and carry exclusivity across ticks.
- `lists.dfy` (module `Lists`): the UI nodes, each with its list tags and its
  label children. `SingleList` models `get_single`. `ListCommands` and
  `UpdateCommands` model the queued `with_children` commands. `Apply` models
  Bevy applying those commands. `Expected` is a declarative reference for the
  result. The lemmas cover routing, append-only growth, ordering, category
  isolation and independence from batching.
- `scenarios.dfy` (module `Scenarios`): the startup layout and the debug
  world's entities (one spoon, six characters) run through both systems.

Two edge cases of the code that the model keeps:

- A press on any entity, registered or not, rewrites every text input's
  flag, so a press outside the registry leaves every input inactive
  (`Focus.PressOutsideRegistryDeactivatesAll`).
- `get_single` fails on zero or several tagged containers, so a category is
  skipped in both cases (`Lists.SingleList`).

## Model

| member | source | states |
|---|---|---|
| Focus.FocusOn | src/main.rs:103-109 | after a press, the input whose entity was pressed is the only one with inactive = false; every other input has inactive = true; the inputs, their order and their number do not change |
| Focus.FocusTick | src/main.rs:97-112 | a tick never adds, removes or reorders text inputs; only their flags can change |
| Focus.FocusSystem | src/main.rs:97-112 | the in-place nested loop keeps the inputs; a batch with no press returns the registry untouched; after a batch whose last press is at position k, an input is inactive exactly when its entity is not the one pressed at k; the result equals the functional fold |
| Focus.FocusTickFollowsLastPress | src/main.rs:101-110 | folding the batch gives the same registry as acting only on the last press, or leaving the registry alone when there is none |
| Focus.NoPressLeavesFlags | src/main.rs:101-102 | a batch of only Hovered and None changes leaves every flag as it was |
| Focus.PressedInputIsSoleActive | src/main.rs:103-108 | when the last press of the batch hits a registered text input, that input is active and every other input is inactive |
| Focus.PressOutsideRegistryDeactivatesAll | src/main.rs:103-108 | when the last press hits an entity that is not a text input, such as the background node or a button, every text input is inactive |
| Focus.LastPressWins | src/main.rs:101-110 | a press followed only by non-press changes decides the outcome, whatever came earlier in the batch |
| Focus.EarlierEventsOverwritten | src/main.rs:101-110 | once a later part of the batch holds a press, everything before it has no effect on the result |
| Focus.TickKeepsExclusive | src/main.rs:97-112 | with distinct text-input entities, a tick that starts with at most one active input ends with at most one |
| Focus.SessionExclusive | src/main.rs:97-112 | with distinct text-input entities, starting from the setup state where every input is inactive (each input is spawned with `TextInputInactive(true)` at src/ui_helper.rs:83), at most one input is active after every prefix of any sequence of ticks |
| Lists.SingleList | src/main.rs:126 | the lookup yields a node exactly when that node is the only one carrying the tag; it yields nothing when no node or several nodes carry it |
| Lists.ListCommands | src/main.rs:126-140 | with a sole tagged node, one append command per name, in delivery order, each naming that node as parent and carrying the name verbatim; otherwise no command |
| Lists.Apply | src/main.rs:128-139 | applying spawn-as-child commands never adds, removes, re-tags or reorders nodes; existing children stay an unchanged prefix |
| Lists.UpdateDebugUi | src/main.rs:114-159 | a tick is append-only: every node keeps its entity and tags, and its old children are a prefix of its new children |
| Lists.UpdateMatchesExpected | src/main.rs:114-159 | with distinct entities, the sole character list gains the new character names, the sole item list gains the new item names, and no other node changes |
| Lists.NamesAppendedInOrder | src/main.rs:126-157 | each newly added name of a category becomes exactly one label under that category's sole list, verbatim, in delivery order, after the existing children; on a node that is the sole list of both categories, the characters come first and the items after them |
| Lists.CategoryIsolation | src/main.rs:126-157 | a node without a category's list tag receives none of that category's names, only, if it is the other category's sole list, the other names |
| Lists.MissingListSkipsCategory | src/main.rs:126-142 | when no node is the sole list of a category, that category's names are dropped, and the other category is processed exactly as if they had never arrived |
| Lists.ExpectedTwice | src/main.rs:126-157 | two ticks leave the same lists as one tick that delivers both batches, when no node carries both list tags, the first batch has no items or the second has no characters |
| Lists.RunEqualsOneTick | src/main.rs:123-157 | when no node carries both list tags, or no tick delivers items, or no tick delivers characters, a run of ticks leaves the same tree as one tick that delivers all their names at once |
| Lists.OneAtATime | src/main.rs:126-157 | on any tree, for either category, N ticks that each deliver one name of that category build the same lists as one tick that delivers all N |
| Scenarios.StartupTick | src/main.rs:61-74 | on the startup layout, reduced to the background and the two tagged lists (the other nodes carry no list tag, so `Lists.CategoryIsolation` leaves them unchanged), any first tick puts each category's names, and only those, under its own list |
| Scenarios.DebugWorldFirstTick | src/main.rs:164-173 | the first tick after the debug world is spawned shows Toby, Swann, Dan, Tamara, Niamh and Erin under the character list and Spoon under the item list |
| Scenarios.FocusWalkthrough | src/main.rs:79-86 | pressing one form input focuses it alone; hovering changes nothing; pressing the other input moves focus; pressing the background or the submit button leaves no input focused |
| Scenarios.SameTickPresses | src/main.rs:101-110 | two presses in one tick leave only the later one's input focused |

## Left out

- Bevy's change detection (`Changed<Interaction>`, `Added<Character>`, `Added<Item>`) is not modelled. Each tick's changed pairs and added names are explicit input sequences, in query iteration order, which Bevy does not specify.
- Bevy's `Commands` buffering is modelled only as an ordered list of append commands applied after both lookups have read the tree. `Added<...>` reports an entity again only if its marker is removed and re-inserted, which nothing in this program does. The model does not reject a repeated name: it appends it again.
- System scheduling (`focus.before(TextInputSystem)`), the plugins, the camera, `println!` and the asset server are host-loop plumbing and are left out.
- The static layout built by `debug_ui` and all of `src/ui_helper.rs` are left out, except for two facts the scenarios use: text inputs start inactive, and the background node carries an `Interaction`.
- Sizes, colours and the label font size of 20.0 are floating-point styling with no bearing on the properties. A label is modelled by its text only.
- Lists.RunEqualsOneTick: requires that no node carries both list tags, or that the run delivers only characters, or only items. On a node tagged with both, one tick appends all characters before all items, so splitting mixed batches over several ticks interleaves them differently. The layout built at startup has no such node.
- Lists.ExpectedTwice: requires that no node carries both list tags, or that the first batch has no items, or that the second has no characters; otherwise the second batch's characters would land after the first batch's items.
- Focus.PressedInputIsSoleActive: assumes the text-input entities are distinct, as every query result is. Without that, every input that shares the pressed entity would be active.
