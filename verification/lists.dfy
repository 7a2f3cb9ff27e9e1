/** The debug list system: every tick it appends one text label per newly
    added character (item) as the last child of the container tagged as the
    character (item) list, provided exactly one such container exists. */
module Lists {
  import Ecs

  type Entity = Ecs.Entity

  /** The marker components of the world entities the overlay mirrors. */
  datatype Category = Character | Item

  /** The marker components of the two list containers. */
  datatype ListTag = CharacterList | ItemList

  function ListOf(c: Category): ListTag {
    match c
    case Character => CharacterList
    case Item => ItemList
  }

  function Other(c: Category): Category {
    match c
    case Character => Item
    case Item => Character
  }

  /** A UI node that may carry list tags; `children` are the texts of its
      label children, oldest first. */
  datatype Container = Container(entity: Entity, tags: set<ListTag>, children: seq<string>)

  type Ui = seq<Container>

  /** The names of the entities added since the previous tick, per category,
      in delivery order. */
  datatype Added = Added(characters: seq<string>, items: seq<string>)

  function NamesOf(added: Added, c: Category): seq<string> {
    match c
    case Character => added.characters
    case Item => added.items
  }

  /** `added` with the names of category `c` dropped. */
  function Without(added: Added, c: Category): Added {
    match c
    case Character => added.(characters := [])
    case Item => added.(items := [])
  }

  /** A tick that delivers `names` for category `c` and nothing else. */
  function Only(c: Category, names: seq<string>): Added {
    match c
    case Character => Added(names, [])
    case Item => Added([], names)
  }

  /** A queued command: spawn a label with `text` as the last child of `parent`. */
  datatype AppendLabel = AppendLabel(parent: Entity, text: string)

  function Entities(ui: Ui): seq<Entity> {
    seq(|ui|, j requires 0 <= j < |ui| => ui[j].entity)
  }

  /** No node carries both list tags, as in the overlay's layout. */
  predicate NoDoublyTagged(ui: Ui) {
    forall j :: 0 <= j < |ui| ==> !(CharacterList in ui[j].tags && ItemList in ui[j].tags)
  }

  /** Node `i` is the one and only node tagged `tag`. */
  predicate IsSole(ui: Ui, tag: ListTag, i: int) {
    && 0 <= i < |ui|
    && tag in ui[i].tags
    && forall j :: 0 <= j < |ui| && j != i ==> tag !in ui[j].tags
  }

  /** Positions of the nodes tagged `tag`, from `from` on, in order. */
  function TaggedFrom(ui: Ui, tag: ListTag, from: nat): (r: seq<nat>)
    requires from <= |ui|
    ensures forall k :: 0 <= k < |r| ==> from <= r[k] < |ui| && tag in ui[r[k]].tags
    ensures forall i :: from <= i < |ui| && tag in ui[i].tags ==> i in r
    ensures forall k, l :: 0 <= k < l < |r| ==> r[k] < r[l]
    decreases |ui| - from
  {
    if from == |ui| then []
    else if tag in ui[from].tags then [from] + TaggedFrom(ui, tag, from + 1)
    else TaggedFrom(ui, tag, from + 1)
  }

  /** The single-result lookup of a query: succeeds exactly when one node
      carries the tag, and fails when none or several do. */
  function SingleList(ui: Ui, tag: ListTag): (r: Ecs.Option<nat>)
    ensures r.Some? ==> IsSole(ui, tag, r.value)
    ensures r.None? ==> forall i :: 0 <= i < |ui| ==> !IsSole(ui, tag, i)
  {
    var found := TaggedFrom(ui, tag, 0);
    if |found| == 1 then
      Ecs.Some(found[0])
    else
      SoleIsOnlyFound(ui, tag);
      Ecs.None
  }

  lemma SoleIsOnlyFound(ui: Ui, tag: ListTag)
    ensures forall i :: IsSole(ui, tag, i) ==> TaggedFrom(ui, tag, 0) == [i]
  {
    forall i | IsSole(ui, tag, i)
      ensures TaggedFrom(ui, tag, 0) == [i]
    {
      SoleFoundFrom(ui, tag, i, 0);
    }
  }

  lemma {:induction false} SoleFoundFrom(ui: Ui, tag: ListTag, i: int, from: nat)
    requires IsSole(ui, tag, i)
    requires from <= |ui|
    ensures TaggedFrom(ui, tag, from) == if from <= i then [i] else []
    decreases |ui| - from
  {
    if from < |ui| {
      SoleFoundFrom(ui, tag, i, from + 1);
    }
  }

  /** One append command per name, in delivery order. */
  function LabelCommands(parent: Entity, names: seq<string>): seq<AppendLabel> {
    seq(|names|, k requires 0 <= k < |names| => AppendLabel(parent, names[k]))
  }

  /** The commands queued for one list: one per name under the sole node
      tagged `tag`, or none when the lookup fails. */
  function ListCommands(ui: Ui, tag: ListTag, names: seq<string>): (r: seq<AppendLabel>)
    ensures forall i :: IsSole(ui, tag, i) ==>
              |r| == |names| && forall k :: 0 <= k < |r| ==> r[k] == AppendLabel(ui[i].entity, names[k])
    ensures (forall i :: 0 <= i < |ui| ==> !IsSole(ui, tag, i)) ==> r == []
  {
    match SingleList(ui, tag)
    case Some(i) => LabelCommands(ui[i].entity, names)
    case None => []
  }

  /** Every command the system queues in one tick: characters first, then
      items. Both lookups read the tree as it was before the tick. */
  function UpdateCommands(ui: Ui, added: Added): seq<AppendLabel> {
    ListCommands(ui, CharacterList, added.characters) + ListCommands(ui, ItemList, added.items)
  }

  /** The tree after `labels` are spawned, in order, as last children of `parent`. */
  function Extend(ui: Ui, parent: Entity, labels: seq<string>): Ui {
    seq(|ui|, j requires 0 <= j < |ui| =>
      if ui[j].entity == parent then ui[j].(children := ui[j].children + labels) else ui[j])
  }

  /** Applying queued commands in order. */
  function Apply(ui: Ui, cmds: seq<AppendLabel>): (r: Ui)
    ensures |r| == |ui|
    ensures forall j :: 0 <= j < |r| ==>
              && r[j].entity == ui[j].entity
              && r[j].tags == ui[j].tags
              && ui[j].children <= r[j].children
    decreases |cmds|
  {
    if cmds == [] then ui else Apply(Extend(ui, cmds[0].parent, [cmds[0].text]), cmds[1..])
  }

  /** The system for one tick: queue the commands, then apply them. */
  function UpdateDebugUi(ui: Ui, added: Added): (r: Ui)
    ensures |r| == |ui|
    ensures forall j :: 0 <= j < |r| ==>
              && r[j].entity == ui[j].entity
              && r[j].tags == ui[j].tags
              && ui[j].children <= r[j].children
  {
    Apply(ui, UpdateCommands(ui, added))
  }

  /** Reference definition: the sole character list gains the character
      names, the sole item list the item names, nothing else changes. */
  function Expected(ui: Ui, added: Added): Ui {
    seq(|ui|, j requires 0 <= j < |ui| =>
      ui[j].(children := ui[j].children
                         + (if IsSole(ui, CharacterList, j) then added.characters else [])
                         + (if IsSole(ui, ItemList, j) then added.items else [])))
  }

  /** Several ticks in a row. */
  function Run(ui: Ui, ticks: seq<Added>): Ui
    decreases |ticks|
  {
    if ticks == [] then ui else Run(UpdateDebugUi(ui, ticks[0]), ticks[1..])
  }

  /** All names of a run of ticks, as if delivered in one tick. */
  function Flatten(ticks: seq<Added>): Added
    decreases |ticks|
  {
    if ticks == [] then Added([], [])
    else
      var rest := Flatten(ticks[1..]);
      Added(ticks[0].characters + rest.characters, ticks[0].items + rest.items)
  }

  // ---------------------------------------------------------------------
  // Command application

  lemma {:induction false} ApplyConcat(ui: Ui, a: seq<AppendLabel>, b: seq<AppendLabel>)
    ensures Apply(ui, a + b) == Apply(Apply(ui, a), b)
    decreases |a|
  {
    if a == [] {
      assert a + b == b;
    } else {
      assert (a + b)[1..] == a[1..] + b;
      ApplyConcat(Extend(ui, a[0].parent, [a[0].text]), a[1..], b);
    }
  }

  lemma ExtendTwice(ui: Ui, p: Entity, a: seq<string>, b: seq<string>)
    ensures Extend(Extend(ui, p, a), p, b) == Extend(ui, p, a + b)
  {
    var l, r := Extend(Extend(ui, p, a), p, b), Extend(ui, p, a + b);
    forall j | 0 <= j < |ui|
      ensures l[j] == r[j]
    {
      assert ui[j].children + a + b == ui[j].children + (a + b);
    }
  }

  /** Applying the commands for one list is one extension of its parent. */
  lemma {:induction false} ApplyLabels(ui: Ui, p: Entity, names: seq<string>)
    ensures Apply(ui, LabelCommands(p, names)) == Extend(ui, p, names)
    decreases |names|
  {
    var cmds := LabelCommands(p, names);
    if names == [] {
      assert forall j :: 0 <= j < |ui| ==> ui[j].children + names == ui[j].children;
      assert Extend(ui, p, names) == ui;
    } else {
      assert cmds[0] == AppendLabel(p, names[0]);
      assert cmds[1..] == LabelCommands(p, names[1..]);
      ApplyLabels(Extend(ui, p, [names[0]]), p, names[1..]);
      ExtendTwice(ui, p, [names[0]], names[1..]);
      assert [names[0]] + names[1..] == names;
    }
  }

  /** The effect of one list's commands on a tree with the same entities as
      the tree the lookup read. */
  lemma ApplyListCommands(base: Ui, ui: Ui, tag: ListTag, names: seq<string>)
    requires Ecs.Distinct(Entities(base))
    requires Entities(ui) == Entities(base)
    ensures var r := Apply(ui, ListCommands(base, tag, names));
            && |r| == |ui|
            && forall j :: 0 <= j < |ui| ==>
                 r[j] == ui[j].(children := ui[j].children + (if IsSole(base, tag, j) then names else []))
  {
    assert |ui| == |Entities(ui)| == |base|;
    var r := Apply(ui, ListCommands(base, tag, names));
    match SingleList(base, tag)
    case None =>
      forall j | 0 <= j < |ui|
        ensures r[j] == ui[j].(children := ui[j].children + (if IsSole(base, tag, j) then names else []))
      {
        assert ui[j].children + [] == ui[j].children;
      }
    case Some(i) =>
      ApplyLabels(ui, base[i].entity, names);
      forall j | 0 <= j < |ui|
        ensures r[j] == ui[j].(children := ui[j].children + (if IsSole(base, tag, j) then names else []))
      {
        assert Entities(ui)[j] == Entities(base)[j];
        if j != i {
          assert Entities(base)[j] != Entities(base)[i];
          assert ui[j].children + [] == ui[j].children;
        }
      }
  }

  // ---------------------------------------------------------------------
  // Properties of one tick

  /** Appending no labels leaves a child list as it was. */
  lemma AppendEmpty(s: seq<string>)
    ensures s + [] == s && [] + s == s
  {
  }

  /** The command-level system agrees with the reference definition. */
  lemma UpdateMatchesExpected(ui: Ui, added: Added)
    requires Ecs.Distinct(Entities(ui))
    ensures UpdateDebugUi(ui, added) == Expected(ui, added)
  {
    var cs := ListCommands(ui, CharacterList, added.characters);
    var its := ListCommands(ui, ItemList, added.items);
    ApplyConcat(ui, cs, its);
    var mid := Apply(ui, cs);
    ApplyListCommands(ui, ui, CharacterList, added.characters);
    assert Entities(mid) == Entities(ui) by {
      assert forall j :: 0 <= j < |ui| ==> Entities(mid)[j] == Entities(ui)[j];
    }
    ApplyListCommands(ui, mid, ItemList, added.items);
  }

  /** Each newly added name of category `c` yields one label, verbatim, under
      the sole list of `c`, in delivery order after the existing children.
      A node that is the sole list of both categories gets the characters
      first and the items after them. */
  lemma NamesAppendedInOrder(ui: Ui, added: Added, c: Category, i: int)
    requires Ecs.Distinct(Entities(ui))
    requires IsSole(ui, ListOf(c), i)
    ensures var after := UpdateDebugUi(ui, added)[i].children;
            match c
            case Character =>
              after == ui[i].children + added.characters
                       + (if IsSole(ui, ItemList, i) then added.items else [])
            case Item =>
              after == ui[i].children
                       + (if IsSole(ui, CharacterList, i) then added.characters else [])
                       + added.items
  {
    UpdateMatchesExpected(ui, added);
  }

  /** Category isolation: a node without the list tag of `c` receives no
      label for a name of `c`; at most the other category's names. */
  lemma CategoryIsolation(ui: Ui, added: Added, c: Category, j: int)
    requires Ecs.Distinct(Entities(ui))
    requires 0 <= j < |ui| && ListOf(c) !in ui[j].tags
    ensures UpdateDebugUi(ui, added)[j].children
            == ui[j].children + (if IsSole(ui, ListOf(Other(c)), j) then NamesOf(added, Other(c)) else [])
  {
    UpdateMatchesExpected(ui, added);
    var o := if IsSole(ui, ListOf(Other(c)), j) then NamesOf(added, Other(c)) else [];
    AppendEmpty(ui[j].children);
    AppendEmpty(ui[j].children + o);
  }

  /** Without exactly one list for `c`, the names of `c` are dropped, and the
      other category is processed as if `c` had no names at all. */
  lemma MissingListSkipsCategory(ui: Ui, added: Added, c: Category)
    requires forall i :: 0 <= i < |ui| ==> !IsSole(ui, ListOf(c), i)
    ensures UpdateDebugUi(ui, added) == UpdateDebugUi(ui, Without(added, c))
  {
    assert SingleList(ui, ListOf(c)).None?;
  }

  // ---------------------------------------------------------------------
  // Properties across ticks

  /** Two ticks leave the same lists as one tick with both batches, unless
      some node is the sole list of both categories, the first batch has
      items and the second has characters: there one tick puts every
      character before every item. */
  lemma ExpectedTwice(ui: Ui, a: Added, b: Added)
    requires NoDoublyTagged(ui) || a.items == [] || b.characters == []
    ensures Expected(Expected(ui, a), b)
            == Expected(ui, Added(a.characters + b.characters, a.items + b.items))
  {
    var mid := Expected(ui, a);
    assert forall j :: 0 <= j < |ui| ==> mid[j].tags == ui[j].tags;
    assert forall tag, j :: 0 <= j < |ui| ==> (IsSole(mid, tag, j) <==> IsSole(ui, tag, j));
    var l, r := Expected(mid, b), Expected(ui, Added(a.characters + b.characters, a.items + b.items));
    forall j | 0 <= j < |ui|
      ensures l[j] == r[j]
    {
      var ch := ui[j].children;
      var ac := if IsSole(ui, CharacterList, j) then a.characters else [];
      var bc := if IsSole(ui, CharacterList, j) then b.characters else [];
      var ai := if IsSole(ui, ItemList, j) then a.items else [];
      var bi := if IsSole(ui, ItemList, j) then b.items else [];
      assert l[j].children == ch + ac + ai + bc + bi;
      assert r[j].children == ch + (ac + bc) + (ai + bi);
      assert ai + bc == bc + ai by {
        if ai == [] {
          AppendEmpty(bc);
        } else {
          assert bc == [];
          AppendEmpty(ai);
        }
      }
    }
  }

  /** Every tick of the run delivers characters only. */
  predicate CharactersOnly(ticks: seq<Added>) {
    forall k :: 0 <= k < |ticks| ==> ticks[k].items == []
  }

  /** Every tick of the run delivers items only. */
  predicate ItemsOnly(ticks: seq<Added>) {
    forall k :: 0 <= k < |ticks| ==> ticks[k].characters == []
  }

  lemma {:induction false} FlattenItemsOnly(ticks: seq<Added>)
    requires ItemsOnly(ticks)
    ensures Flatten(ticks).characters == []
    decreases |ticks|
  {
    if ticks != [] {
      FlattenItemsOnly(ticks[1..]);
    }
  }

  /** Batching does not matter: a run of ticks leaves the same lists as one
      tick that delivers all their names at once. */
  lemma {:induction false} RunEqualsOneTick(ui: Ui, ticks: seq<Added>)
    requires Ecs.Distinct(Entities(ui))
    requires NoDoublyTagged(ui) || CharactersOnly(ticks) || ItemsOnly(ticks)
    ensures Run(ui, ticks) == UpdateDebugUi(ui, Flatten(ticks))
    decreases |ticks|
  {
    if ticks == [] {
      UpdateMatchesExpected(ui, Added([], []));
      var e := Expected(ui, Added([], []));
      forall j | 0 <= j < |ui|
        ensures e[j] == ui[j]
      {
        AppendEmpty(ui[j].children);
      }
    } else {
      var next := UpdateDebugUi(ui, ticks[0]);
      assert Entities(next) == Entities(ui) by {
        assert forall j :: 0 <= j < |ui| ==> Entities(next)[j] == Entities(ui)[j];
      }
      assert NoDoublyTagged(next) <==> NoDoublyTagged(ui);
      assert CharactersOnly(ticks) ==> CharactersOnly(ticks[1..]) && ticks[0].items == [];
      assert ItemsOnly(ticks) ==> ItemsOnly(ticks[1..]);
      if ItemsOnly(ticks) {
        FlattenItemsOnly(ticks[1..]);
      }
      RunEqualsOneTick(next, ticks[1..]);
      UpdateMatchesExpected(ui, ticks[0]);
      UpdateMatchesExpected(next, Flatten(ticks[1..]));
      UpdateMatchesExpected(ui, Flatten(ticks));
      ExpectedTwice(ui, ticks[0], Flatten(ticks[1..]));
    }
  }

  /** One-name ticks of one category deliver the same names as a single
      tick with every name. */
  lemma {:induction false} FlattenSingles(c: Category, names: seq<string>)
    ensures Flatten(seq(|names|, k requires 0 <= k < |names| => Only(c, [names[k]]))) == Only(c, names)
    decreases |names|
  {
    var ticks := seq(|names|, k requires 0 <= k < |names| => Only(c, [names[k]]));
    if names != [] {
      assert ticks[1..] == seq(|names[1..]|, k requires 0 <= k < |names[1..]| => Only(c, [names[1..][k]]));
      FlattenSingles(c, names[1..]);
      assert [names[0]] + names[1..] == names;
      AppendEmpty([]);
    }
  }

  /** N one-name ticks of one category give the same lists as one N-name
      tick, whatever the tree. */
  lemma OneAtATime(ui: Ui, c: Category, names: seq<string>)
    requires Ecs.Distinct(Entities(ui))
    ensures Run(ui, seq(|names|, k requires 0 <= k < |names| => Only(c, [names[k]])))
            == UpdateDebugUi(ui, Only(c, names))
  {
    var ticks := seq(|names|, k requires 0 <= k < |names| => Only(c, [names[k]]));
    assert c.Character? ==> CharactersOnly(ticks);
    assert c.Item? ==> ItemsOnly(ticks);
    RunEqualsOneTick(ui, ticks);
    FlattenSingles(c, names);
  }
}
