/** `populate` of `TreeNodeProvider` (tree.js): mark every node, place each
    data item's values along the flat level list, reusing a sibling with the
    same type and value and creating (and sorting in) the rest, then sweep.
    Label formatting, icons and tooltips are not part of this model. */
module Populate {
  import opened Common
  import opened JsValue
  import opened ObjectUtils
  import opened Forest
  import opened TreeStore
  import opened Sorting
  import opened TreeHash
  import opened Pruning
  import opened WellFormed

  /** One entry of a level's `children`: the property path whose values
      become nodes, and the flags copied onto them. */
  datatype SchemaChild = SchemaChild(property: string, showChanged: bool, hasContextMenu: bool)

  /** `_structure[level]`: the property path naming the parent node (read
      for levels above 0) and the children placed at this level. */
  datatype Level = Level(parent: string, children: seq<SchemaChild>)

  /** The per-item loop state: the tree and id set being updated, the
      schema properties seen, the current `parent` node and the list
      `parents` in which the next level's parent is looked up (`None` for the
      root list). */
  datatype Cursor = Cursor(
    nodes: seq<Node>,
    changedNodes: set<string>,
    keys: set<string>,
    parent: Option<Path>,
    parents: Option<Path>)

  // ---------------------------------------------------------------------------
  // Lookup and marking

  /** `locateNode`: same type and (structurally) the same value. */
  predicate Locates(n: Node, typ: string, value: Value) {
    n.info.typ == typ && value == Some(n.info.value)
  }

  /** The sibling lookup by type and value: the first node located. */
  function Locate(list: seq<Node>, typ: string, value: Value): (r: Option<nat>)
    ensures r.Some? ==> r.value < |list| && Locates(list[r.value], typ, value)
    ensures r.Some? ==> forall j :: 0 <= j < r.value ==> !Locates(list[j], typ, value)
    ensures r.None? ==> forall j :: 0 <= j < |list| ==> !Locates(list[j], typ, value)
    decreases |list|
  {
    if |list| == 0 then None
    else if Locates(list[0], typ, value) then Some(0)
    else match Locate(list[1..], typ, value)
      case None => None
      case Some(i) => Some(i + 1)
  }

  /** A matched node: its flag refreshed and its mark cleared. */
  function Refresh(changed: bool): Info -> Info {
    (i: Info) => i.(changed := changed, delete := false)
  }

  function Mark(): Info -> Info {
    (i: Info) => i.(delete := true)
  }

  // ---------------------------------------------------------------------------
  // The placement loops

  /** The `parent` lookup of a level above 0: the node in `parents` whose type
      is the level's parent path and whose value is that path's value in the
      entry (read without indexes, so it throws when the path crosses an array). */
  function FindParent(c: Cursor, entry: Json, levels: seq<Level>, level: nat): Result<Option<Path>>
    requires level < |levels|
  {
    if level == 0 then Ok(c.parent)
    else
      match GetUniqueProperty(Some(entry), levels[level].parent, None)
      case Thrown(e) => Thrown(e)
      case Ok(pv) =>
        match Locate(ListAt(c.nodes, c.parents), levels[level].parent, pv)
        case None => Ok(None)
        case Some(i) => Ok(Some(ChildPath(c.parents, i)))
  }

  /** Above level 0 the lookup throws exactly when reading the parent path
      throws; otherwise it finds the first node of the parent list whose type is
      the parent path and whose value is the one read, and `None` when no node of
      that list has them (in particular when the read gives nothing). */
  lemma FindParentSpec(c: Cursor, entry: Json, levels: seq<Level>, level: nat)
    requires 0 < level < |levels|
    ensures var u := GetUniqueProperty(Some(entry), levels[level].parent, None);
      var list := ListAt(c.nodes, c.parents);
      var r := FindParent(c, entry, levels, level);
      (r.Thrown? <==> u.Thrown?) &&
      (r.Ok? && r.value.Some? ==>
        exists i: nat :: i < |list| && r.value.value == ChildPath(c.parents, i) &&
          Locates(list[i], levels[level].parent, u.value) &&
          forall j :: 0 <= j < i ==> !Locates(list[j], levels[level].parent, u.value)) &&
      (r == Ok(None) ==> forall n :: n in list ==> !Locates(n, levels[level].parent, u.value))
  {
  }

  /** The node a value creates. */
  function NewNode(c: Cursor, child: SchemaChild, parent: Option<Path>, v: PropertyValue,
                   hasChanged: bool): Node
  {
    var parentId := if parent.Some? then Some(IdAt(c.nodes, parent.value)) else None;
    var id := NewId(child.property, parentId, v.value);
    Node(Info(id, child.property, v.value, Display(v.value), true, child.showChanged,
              child.hasContextMenu, id in c.changedNodes || hasChanged, false), [])
  }

  /** One `values.map` step. */
  function PlaceValue(c: Cursor, entry: Json, levels: seq<Level>, level: nat, child: SchemaChild,
                      v: PropertyValue, hasChanged: bool): Result<Cursor>
    requires level < |levels|
  {
    match FindParent(c, entry, levels, level)
    case Thrown(e) => Thrown(e)
    case Ok(parent) =>
      var list := ListAt(c.nodes, parent);
      match Locate(list, child.property, Some(v.value))
      case Some(i) =>
        var id := list[i].info.id;
        Ok(c.(nodes := MapAlong(c.nodes, ChildPath(parent, i), Keep(),
                                Refresh(id in c.changedNodes || hasChanged), Keep()),
              changedNodes := if hasChanged then c.changedNodes + {id} else c.changedNodes,
              parent := parent))
      case None =>
        if level > 0 && parent.None? then Thrown("TypeError: Cannot read property 'nodes' of undefined")
        else
          var node := NewNode(c, child, parent, v, hasChanged);
          var nodes :=
            if level == 0 then SortDesc(c.nodes + [node])
            else SetChildren(c.nodes, parent.value, SortDesc(list + [node]));
          Ok(c.(nodes := nodes,
                changedNodes := if hasChanged then c.changedNodes + {node.info.id} else c.changedNodes,
                parent := parent))
  }

  function PlaceValues(c: Cursor, entry: Json, levels: seq<Level>, level: nat, child: SchemaChild,
                       vs: seq<PropertyValue>, hasChanged: bool): Result<Cursor>
    requires level < |levels|
    decreases |vs|
  {
    if |vs| == 0 then Ok(c)
    else
      match PlaceValue(c, entry, levels, level, child, vs[0], hasChanged)
      case Thrown(e) => Thrown(e)
      case Ok(c1) => PlaceValues(c1, entry, levels, level, child, vs[1..], hasChanged)
  }

  /** `children.map` of one level, from child `j` on. */
  function PlaceChildren(c: Cursor, entry: Json, levels: seq<Level>, level: nat, j: nat,
                         hasChanged: bool): Result<Cursor>
    requires level < |levels|
    decreases |levels[level].children| - j
  {
    if j >= |levels[level].children| then Ok(c)
    else
      var child := levels[level].children[j];
      var c1 := c.(keys := c.keys + {child.property});
      var vs := GetProperties(Some(entry), child.property, []);
      match PlaceValues(c1, entry, levels, level, child, vs, hasChanged)
      case Thrown(e) => Thrown(e)
      case Ok(c2) => PlaceChildren(c2, entry, levels, level, j + 1, hasChanged)
  }

  /** The level loop of one item, from `level` on. */
  function PlaceLevels(c: Cursor, entry: Json, levels: seq<Level>, level: nat, hasChanged: bool): Result<Cursor>
    decreases |levels| - level
  {
    if level >= |levels| then Ok(c)
    else
      match PlaceChildren(c, entry, levels, level, 0, hasChanged)
      case Thrown(e) => Thrown(e)
      case Ok(c1) =>
        var c2 := if level > 0 && c1.parent.Some? then c1.(parents := c1.parent) else c1;
        PlaceLevels(c2, entry, levels, level + 1, hasChanged)
  }

  // ---------------------------------------------------------------------------
  // Change detection by hash

  /** The hash bookkeeping after one item, and whether the item counts as changed. */
  datatype Detected = Detected(hashes: map<string, int>, updated: seq<Json>, changed: bool)

  /** `getUniqueProperty(entry, keyField)` when a key field is configured.
      It is read without indexes, so a key path crossing an array throws. */
  function ItemKey(entry: Json, keyField: Option<string>): Result<Value> {
    if keyField.None? then Ok(None) else GetUniqueProperty(Some(entry), keyField.value, None)
  }

  /** The key lookup and hash comparison at the head of each item. */
  function CheckKey(entry: Json, keyField: Option<string>, stringify: Json -> string,
                    hashes: map<string, int>, updated: seq<Json>): Result<Detected>
  {
    match ItemKey(entry, keyField)
    case Thrown(e) => Thrown(e)
    case Ok(key) =>
      if key.None? then Ok(Detected(hashes, updated, false))
      else
        var h := HashOf(stringify(entry));
        var k := KeyText(key);
        var differs := k !in hashes || hashes[k] != h;
        Ok(Detected(hashes[k := h], if differs then updated + [key.value] else updated, differs))
  }

  /** The items from `i` on. */
  function PopulateItems(st: Store, items: seq<Json>, i: nat, levels: seq<Level>,
                         keyField: Option<string>, stringify: Json -> string,
                         updated: seq<Json>): Result<(Store, seq<Json>)>
    decreases |items| - i
  {
    if i >= |items| then Ok((st, updated))
    else
      match CheckKey(items[i], keyField, stringify, st.hashes, updated)
      case Thrown(e) => Thrown(e)
      case Ok(d) =>
        var c := Cursor(st.nodes, st.changedNodes, st.keys, None, None);
        match PlaceLevels(c, items[i], levels, 0, d.changed)
        case Thrown(e) => Thrown(e)
        case Ok(c1) =>
          var st1 := st.(nodes := c1.nodes, changedNodes := c1.changedNodes, keys := c1.keys,
                          hashes := d.hashes);
          PopulateItems(st1, items, i + 1, levels, keyField, stringify, d.updated)
  }

  /** `populate(data, ..., keyField)` with each item given by its `details`;
      the result is the new state and the keys whose hash changed. */
  function Populate(st: Store, items: seq<Json>, levels: seq<Level>, keyField: Option<string>,
                    stringify: Json -> string): Result<(Store, seq<Json>)>
  {
    var marked := st.(nodes := MapAll(st.nodes, Mark()));
    match PopulateItems(marked, items, 0, levels, keyField, stringify, [])
    case Thrown(e) => Thrown(e)
    case Ok((st1, updated)) => Ok((Prune(st1), updated))
  }

  // ---------------------------------------------------------------------------
  // The store stays well formed

  /** A new node is childless, dot-free, and has a key no listed node has
      when the lookup for its type and value found nothing. */
  lemma NewNodeFits(c: Cursor, child: SchemaChild, parent: Option<Path>, v: PropertyValue,
                    hasChanged: bool, list: seq<Node>)
    requires Locate(list, child.property, Some(v.value)).None?
    ensures var node := NewNode(c, child, parent, v, hasChanged);
            node.children == [] && '.' !in node.info.id &&
            forall j :: 0 <= j < |list| ==> !SameKey(list[j], node)
  {
    var node := NewNode(c, child, parent, v, hasChanged);
    forall j | 0 <= j < |list|
      ensures !SameKey(list[j], node)
    {
      assert !Locates(list[j], child.property, Some(v.value));
    }
  }

  /** Adding a new node to the list at `parent` keeps the store well formed. */
  lemma AddNodeWF(nodes: seq<Node>, parent: Option<Path>, node: Node, top: bool)
    requires WF(nodes) && top == parent.None?
    requires node.children == [] && '.' !in node.info.id
    requires forall j :: 0 <= j < |ListAt(nodes, parent)| ==> !SameKey(ListAt(nodes, parent)[j], node)
    ensures top ==> WF(SortDesc(nodes + [node]))
    ensures !top ==> WF(SetChildren(nodes, parent.value, SortDesc(ListAt(nodes, parent) + [node])))
  {
    var list := ListAt(nodes, parent);
    ListAtWF(nodes, parent);
    InsertWF(list, node);
    if !top {
      SetChildrenWF(nodes, parent.value, SortDesc(list + [node]));
    }
  }

  lemma PlaceValueWF(c: Cursor, entry: Json, levels: seq<Level>, level: nat, child: SchemaChild,
                     v: PropertyValue, hasChanged: bool)
    requires level < |levels| && WF(c.nodes) && (level == 0 ==> c.parent.None?)
    ensures PlaceValue(c, entry, levels, level, child, v, hasChanged).Ok? ==>
      WF(PlaceValue(c, entry, levels, level, child, v, hasChanged).value.nodes) &&
      (level == 0 ==> PlaceValue(c, entry, levels, level, child, v, hasChanged).value.parent.None?)
  {
    var r := FindParent(c, entry, levels, level);
    if r.Ok? {
      var parent := r.value;
      var list := ListAt(c.nodes, parent);
      match Locate(list, child.property, Some(v.value))
      case Some(i) =>
        var id := list[i].info.id;
        MapAlongWF(c.nodes, ChildPath(parent, i), Keep(), Refresh(id in c.changedNodes || hasChanged), Keep());
      case None =>
        if level == 0 || parent.Some? {
          NewNodeFits(c, child, parent, v, hasChanged, list);
          AddNodeWF(c.nodes, parent, NewNode(c, child, parent, v, hasChanged), level == 0);
        }
    }
  }

  lemma {:induction false} PlaceValuesWF(c: Cursor, entry: Json, levels: seq<Level>, level: nat,
                                         child: SchemaChild, vs: seq<PropertyValue>, hasChanged: bool)
    requires level < |levels| && WF(c.nodes) && (level == 0 ==> c.parent.None?)
    ensures PlaceValues(c, entry, levels, level, child, vs, hasChanged).Ok? ==>
      WF(PlaceValues(c, entry, levels, level, child, vs, hasChanged).value.nodes) &&
      (level == 0 ==> PlaceValues(c, entry, levels, level, child, vs, hasChanged).value.parent.None?)
    decreases |vs|
  {
    if |vs| > 0 {
      PlaceValueWF(c, entry, levels, level, child, vs[0], hasChanged);
      var r := PlaceValue(c, entry, levels, level, child, vs[0], hasChanged);
      if r.Ok? {
        PlaceValuesWF(r.value, entry, levels, level, child, vs[1..], hasChanged);
      }
    }
  }

  lemma {:induction false} PlaceChildrenWF(c: Cursor, entry: Json, levels: seq<Level>, level: nat,
                                           j: nat, hasChanged: bool)
    requires level < |levels| && WF(c.nodes) && (level == 0 ==> c.parent.None?)
    ensures PlaceChildren(c, entry, levels, level, j, hasChanged).Ok? ==>
      WF(PlaceChildren(c, entry, levels, level, j, hasChanged).value.nodes) &&
      (level == 0 ==> PlaceChildren(c, entry, levels, level, j, hasChanged).value.parent.None?)
    decreases |levels[level].children| - j
  {
    if j < |levels[level].children| {
      var child := levels[level].children[j];
      var c1 := c.(keys := c.keys + {child.property});
      var vs := GetProperties(Some(entry), child.property, []);
      PlaceValuesWF(c1, entry, levels, level, child, vs, hasChanged);
      var r := PlaceValues(c1, entry, levels, level, child, vs, hasChanged);
      if r.Ok? {
        PlaceChildrenWF(r.value, entry, levels, level, j + 1, hasChanged);
      }
    }
  }

  /** One level of the level loop, when placing its children succeeds. */
  lemma PlaceLevelsStep(c: Cursor, entry: Json, levels: seq<Level>, level: nat, hasChanged: bool)
    requires level < |levels| && PlaceChildren(c, entry, levels, level, 0, hasChanged).Ok?
    ensures var c1 := PlaceChildren(c, entry, levels, level, 0, hasChanged).value;
            PlaceLevels(c, entry, levels, level, hasChanged) ==
            PlaceLevels(if level > 0 && c1.parent.Some? then c1.(parents := c1.parent) else c1,
                        entry, levels, level + 1, hasChanged)
  {
  }

  /** The level loop stops at the first level whose children throw. */
  lemma PlaceLevelsThrown(c: Cursor, entry: Json, levels: seq<Level>, level: nat, hasChanged: bool)
    requires level < |levels| && PlaceChildren(c, entry, levels, level, 0, hasChanged).Thrown?
    ensures PlaceLevels(c, entry, levels, level, hasChanged).Thrown?
  {
  }

  lemma PlaceLevelsWF(c: Cursor, entry: Json, levels: seq<Level>, level: nat, hasChanged: bool)
    requires WF(c.nodes) && (level == 0 ==> c.parent.None?)
    ensures PlaceLevels(c, entry, levels, level, hasChanged).Ok? ==>
      WF(PlaceLevels(c, entry, levels, level, hasChanged).value.nodes)
  {
    var r := PlaceLevels(c, entry, levels, level, hasChanged);
    if r.Ok? {
      if level > 0 {
        PlaceLevelsResultWF(c, entry, levels, level, hasChanged, r.value);
      } else if level < |levels| {
        var c2 := PlaceLevelsAdvanceWF(c, entry, levels, level, hasChanged, r.value);
        PlaceLevelsResultWF(c2, entry, levels, level + 1, hasChanged, r.value);
      } else {
        PlaceLevelsDone(c, entry, levels, level, hasChanged);
      }
    }
  }

  /** The cursor a level loop ends with, when it does not throw, holds a
      well-formed tree. Past level 0 the parent cursor is unconstrained. */
  lemma {:induction false} PlaceLevelsResultWF(c: Cursor, entry: Json, levels: seq<Level>, level: nat,
                                               hasChanged: bool, r: Cursor)
    requires WF(c.nodes) && level > 0
    requires PlaceLevels(c, entry, levels, level, hasChanged) == Ok(r)
    ensures WF(r.nodes)
    decreases |levels| - level
  {
    if level < |levels| {
      var c2 := PlaceLevelsAdvanceWF(c, entry, levels, level, hasChanged, r);
      PlaceLevelsResultWF(c2, entry, levels, level + 1, hasChanged, r);
    } else {
      PlaceLevelsDone(c, entry, levels, level, hasChanged);
    }
  }

  /** One level of a loop that ends in `r` keeps the tree well formed, and
      the rest of the loop still ends in `r`. */
  lemma PlaceLevelsAdvanceWF(c: Cursor, entry: Json, levels: seq<Level>, level: nat, hasChanged: bool,
                             r: Cursor)
    returns (c2: Cursor)
    requires WF(c.nodes) && (level == 0 ==> c.parent.None?)
    requires level < |levels| && PlaceLevels(c, entry, levels, level, hasChanged) == Ok(r)
    ensures WF(c2.nodes)
    ensures PlaceLevels(c2, entry, levels, level + 1, hasChanged) == Ok(r)
  {
    c2 := PlaceLevelsNextWF(c, entry, levels, level, hasChanged);
  }

  /** Past the last level the loop returns the cursor it was given. */
  lemma PlaceLevelsDone(c: Cursor, entry: Json, levels: seq<Level>, level: nat, hasChanged: bool)
    requires level >= |levels|
    ensures PlaceLevels(c, entry, levels, level, hasChanged) == Ok(c)
  {
  }

  /** A level loop that does not throw placed its first level's children without a throw. */
  lemma PlaceLevelsOkChildren(c: Cursor, entry: Json, levels: seq<Level>, level: nat, hasChanged: bool)
    requires level < |levels| && PlaceLevels(c, entry, levels, level, hasChanged).Ok?
    ensures PlaceChildren(c, entry, levels, level, 0, hasChanged).Ok?
  {
  }

  /** One level placed keeps the tree well formed, and the loop goes on from
      the cursor it leaves. */
  lemma PlaceLevelsNextWF(c: Cursor, entry: Json, levels: seq<Level>, level: nat, hasChanged: bool)
    returns (c2: Cursor)
    requires WF(c.nodes) && (level == 0 ==> c.parent.None?)
    requires level < |levels| && PlaceLevels(c, entry, levels, level, hasChanged).Ok?
    ensures WF(c2.nodes)
    ensures PlaceLevels(c, entry, levels, level, hasChanged) == PlaceLevels(c2, entry, levels, level + 1, hasChanged)
  {
    PlaceLevelsOkChildren(c, entry, levels, level, hasChanged);
    var c1 := PlaceChildren(c, entry, levels, level, 0, hasChanged).value;
    c2 := if level > 0 && c1.parent.Some? then c1.(parents := c1.parent) else c1;
    PlaceChildrenWF(c, entry, levels, level, 0, hasChanged);
    PlaceLevelsStep(c, entry, levels, level, hasChanged);
  }

  lemma {:induction false} PopulateItemsWF(st: Store, items: seq<Json>, i: nat, levels: seq<Level>,
                                           keyField: Option<string>, stringify: Json -> string,
                                           updated: seq<Json>)
    requires WF(st.nodes)
    ensures PopulateItems(st, items, i, levels, keyField, stringify, updated).Ok? ==>
      WF(PopulateItems(st, items, i, levels, keyField, stringify, updated).value.0.nodes)
    decreases |items| - i
  {
    if i < |items| {
      var d := CheckKey(items[i], keyField, stringify, st.hashes, updated);
      if d.Ok? {
        var c := Cursor(st.nodes, st.changedNodes, st.keys, None, None);
        PlaceLevelsWF(c, items[i], levels, 0, d.value.changed);
        var r := PlaceLevels(c, items[i], levels, 0, d.value.changed);
        if r.Ok? {
          var c1 := r.value;
          var st1 := st.(nodes := c1.nodes, changedNodes := c1.changedNodes, keys := c1.keys,
                          hashes := d.value.hashes);
          PopulateItemsWF(st1, items, i + 1, levels, keyField, stringify, d.value.updated);
        }
      }
    }
  }

  /** `populate` keeps the store well formed: sibling labels sorted
      descending, no two siblings with the same type and value (a value is
      reused, never duplicated), and dot-free ids. */
  lemma PopulateWF(st: Store, items: seq<Json>, levels: seq<Level>, keyField: Option<string>,
                   stringify: Json -> string)
    requires WF(st.nodes)
    ensures Populate(st, items, levels, keyField, stringify).Ok? ==>
      WF(Populate(st, items, levels, keyField, stringify).value.0.nodes)
  {
    var marked := st.(nodes := MapAll(st.nodes, Mark()));
    MapAllWF(st.nodes, Mark());
    PopulateItemsWF(marked, items, 0, levels, keyField, stringify, []);
    var r := PopulateItems(marked, items, 0, levels, keyField, stringify, []);
    if r.Ok? {
      PruneWF(r.value.0.nodes, r.value.0.expanded);
    }
  }

  // ---------------------------------------------------------------------------
  // Change detection, apart from the tree

  /** The hash bookkeeping alone: the items from `i` on, with no tree. */
  function DetectChanges(items: seq<Json>, i: nat, keyField: Option<string>, stringify: Json -> string,
                         hashes: map<string, int>, updated: seq<Json>): Result<(map<string, int>, seq<Json>)>
    decreases |items| - i
  {
    if i >= |items| then Ok((hashes, updated))
    else
      match CheckKey(items[i], keyField, stringify, hashes, updated)
      case Thrown(e) => Thrown(e)
      case Ok(d) => DetectChanges(items, i + 1, keyField, stringify, d.hashes, d.updated)
  }

  lemma {:induction false} PopulateItemsDetects(st: Store, items: seq<Json>, i: nat, levels: seq<Level>,
                                                keyField: Option<string>, stringify: Json -> string,
                                                updated: seq<Json>)
    ensures PopulateItems(st, items, i, levels, keyField, stringify, updated).Ok? ==>
      DetectChanges(items, i, keyField, stringify, st.hashes, updated) ==
        Ok((PopulateItems(st, items, i, levels, keyField, stringify, updated).value.0.hashes,
            PopulateItems(st, items, i, levels, keyField, stringify, updated).value.1))
    decreases |items| - i
  {
    if i < |items| {
      var d := CheckKey(items[i], keyField, stringify, st.hashes, updated);
      if d.Ok? {
        var c := Cursor(st.nodes, st.changedNodes, st.keys, None, None);
        var r := PlaceLevels(c, items[i], levels, 0, d.value.changed);
        if r.Ok? {
          var c1 := r.value;
          var st1 := st.(nodes := c1.nodes, changedNodes := c1.changedNodes, keys := c1.keys,
                          hashes := d.value.hashes);
          PopulateItemsDetects(st1, items, i + 1, levels, keyField, stringify, d.value.updated);
        }
      }
    }
  }

  /** The keys `populate` reports and the hashes it stores depend on the
      data alone, not on the tree: they are those of the hash pass. */
  lemma PopulateDetects(st: Store, items: seq<Json>, levels: seq<Level>, keyField: Option<string>,
                        stringify: Json -> string)
    ensures Populate(st, items, levels, keyField, stringify).Ok? ==>
      DetectChanges(items, 0, keyField, stringify, st.hashes, []) ==
        Ok((Populate(st, items, levels, keyField, stringify).value.0.hashes,
            Populate(st, items, levels, keyField, stringify).value.1))
  {
    var marked := st.(nodes := MapAll(st.nodes, Mark()));
    PopulateItemsDetects(marked, items, 0, levels, keyField, stringify, []);
  }

  /** The text under which an item's hash is stored, if it has a key. */
  function StoredKey(entry: Json, keyField: Option<string>): Option<string> {
    match ItemKey(entry, keyField)
    case Ok(Some(k)) => Some(KeyText(Some(k)))
    case _ => None
  }

  /** No two items are stored under the same key. */
  predicate DistinctStoredKeys(items: seq<Json>, keyField: Option<string>) {
    forall j1, j2 :: 0 <= j1 < j2 < |items| && StoredKey(items[j1], keyField).Some? ==>
      StoredKey(items[j1], keyField) != StoredKey(items[j2], keyField)
  }

  /** Every keyed item from `i` on has its current hash stored. */
  predicate HashesAgree(hashes: map<string, int>, items: seq<Json>, i: nat, keyField: Option<string>,
                        stringify: Json -> string)
  {
    forall j :: i <= j < |items| && StoredKey(items[j], keyField).Some? ==>
      StoredKey(items[j], keyField).value in hashes &&
      hashes[StoredKey(items[j], keyField).value] == HashOf(stringify(items[j]))
  }

  /** A key no later item has keeps its stored hash. */
  lemma {:induction false} DetectFrame(items: seq<Json>, i: nat, keyField: Option<string>,
                                       stringify: Json -> string, hashes: map<string, int>,
                                       updated: seq<Json>, k: string)
    requires DetectChanges(items, i, keyField, stringify, hashes, updated).Ok?
    requires forall j :: i <= j < |items| ==> StoredKey(items[j], keyField) != Some(k)
    ensures var h := DetectChanges(items, i, keyField, stringify, hashes, updated).value.0;
      (k in h <==> k in hashes) && (k in hashes ==> h[k] == hashes[k])
    decreases |items| - i
  {
    if i < |items| {
      var d := CheckKey(items[i], keyField, stringify, hashes, updated).value;
      DetectFrame(items, i + 1, keyField, stringify, d.hashes, d.updated, k);
    }
  }

  /** After the pass over distinctly keyed items, every item's hash is stored. */
  lemma {:induction false} DetectStores(items: seq<Json>, i: nat, keyField: Option<string>,
                                        stringify: Json -> string, hashes: map<string, int>,
                                        updated: seq<Json>)
    requires DistinctStoredKeys(items, keyField)
    requires DetectChanges(items, i, keyField, stringify, hashes, updated).Ok?
    ensures HashesAgree(DetectChanges(items, i, keyField, stringify, hashes, updated).value.0,
                        items, i, keyField, stringify)
    decreases |items| - i
  {
    if i < |items| {
      var d := CheckKey(items[i], keyField, stringify, hashes, updated).value;
      DetectStores(items, i + 1, keyField, stringify, d.hashes, d.updated);
      var k := StoredKey(items[i], keyField);
      if k.Some? {
        DetectFrame(items, i + 1, keyField, stringify, d.hashes, d.updated, k.value);
      }
    }
  }

  /** With every hash already stored, the pass reports nothing and stores nothing new. */
  lemma {:induction false} DetectSettled(items: seq<Json>, i: nat, keyField: Option<string>,
                                         stringify: Json -> string, hashes: map<string, int>,
                                         updated: seq<Json>)
    requires forall j :: i <= j < |items| ==> ItemKey(items[j], keyField).Ok?
    requires HashesAgree(hashes, items, i, keyField, stringify)
    ensures DetectChanges(items, i, keyField, stringify, hashes, updated) == Ok((hashes, updated))
    decreases |items| - i
  {
    if i < |items| {
      var key := ItemKey(items[i], keyField).value;
      if key.Some? {
        assert StoredKey(items[i], keyField) == Some(KeyText(key));
        assert hashes[KeyText(key) := HashOf(stringify(items[i]))] == hashes;
      }
      DetectSettled(items, i + 1, keyField, stringify, hashes, updated);
    }
  }

  lemma {:induction false} DetectNoThrow(items: seq<Json>, i: nat, keyField: Option<string>,
                                         stringify: Json -> string, hashes: map<string, int>,
                                         updated: seq<Json>)
    requires DetectChanges(items, i, keyField, stringify, hashes, updated).Ok?
    ensures forall j :: i <= j < |items| ==> ItemKey(items[j], keyField).Ok?
    decreases |items| - i
  {
    if i < |items| {
      var d := CheckKey(items[i], keyField, stringify, hashes, updated).value;
      DetectNoThrow(items, i + 1, keyField, stringify, d.hashes, d.updated);
    }
  }

  /** Feeding the same distinctly keyed data twice reports no change the
      second time and leaves the stored hashes as they were. */
  lemma DetectIdempotent(items: seq<Json>, keyField: Option<string>, stringify: Json -> string,
                         hashes: map<string, int>)
    requires DistinctStoredKeys(items, keyField)
    requires DetectChanges(items, 0, keyField, stringify, hashes, []).Ok?
    ensures var h1 := DetectChanges(items, 0, keyField, stringify, hashes, []).value.0;
      DetectChanges(items, 0, keyField, stringify, h1, []) == Ok((h1, []))
  {
    var h1 := DetectChanges(items, 0, keyField, stringify, hashes, []).value.0;
    DetectStores(items, 0, keyField, stringify, hashes, []);
    DetectNoThrow(items, 0, keyField, stringify, hashes, []);
    DetectSettled(items, 0, keyField, stringify, h1, []);
  }

  // ---------------------------------------------------------------------------
  // The sweep

  /** After `populate` no node is left marked: every survivor was matched or
      created by this pass. */
  lemma PopulateLeavesNoMarked(st: Store, items: seq<Json>, levels: seq<Level>,
                               keyField: Option<string>, stringify: Json -> string, x: Info)
    requires Populate(st, items, levels, keyField, stringify).Ok?
    requires x in Flatten(Populate(st, items, levels, keyField, stringify).value.0.nodes)
    ensures !x.delete
  {
    var marked := st.(nodes := MapAll(st.nodes, Mark()));
    var r := PopulateItems(marked, items, 0, levels, keyField, stringify, []);
    PruneLeavesNoMarked(r.value.0, x);
  }

  /** The ids of every node in the forest. */
  function AllIds(f: seq<Node>): set<string> {
    set x | x in Flatten(f) :: x.id
  }

  lemma {:induction false} AllMarkedPruned(f: seq<Node>, e: map<string, bool>)
    requires forall x :: x in Flatten(f) ==> x.delete
    ensures PruneList(f, e).0 == []
    decreases f, 1
  {
    if |f| > 0 {
      assert f == [f[0]] + f[1..];
      FlattenConcat([f[0]], f[1..]);
      assert Flatten([f[0]]) == Flatten(f[0].children) + [f[0].info] + Flatten([]);
      AllMarkedPruned(f[1..], PruneNode(f[0], e).1);
    }
  }

  lemma MarkAllIds(f: seq<Node>)
    ensures forall x :: x in Flatten(MapAll(f, Mark())) ==> x.delete
    ensures MarkedIds(MapAll(f, Mark())) == AllIds(f)
  {
    var g := MapAll(f, Mark());
    forall x | x in Flatten(g)
      ensures x.delete && x.id in AllIds(f)
    {
      FlattenMembers(g, x);
      var p :| ValidPath(g, p) && InfoAt(g, p) == x;
      MapAllAt(f, Mark(), p);
      FlattenMembers(f, InfoAt(f, p));
    }
    forall x | x in Flatten(f)
      ensures x.id in MarkedIds(g)
    {
      FlattenMembers(f, x);
      var p :| ValidPath(f, p) && InfoAt(f, p) == x;
      MapAllAt(f, Mark(), p);
      FlattenMembers(g, InfoAt(g, p));
    }
  }

  /** Populating with no data empties the tree and forgets the expansion
      state of every node it held; nothing is reported changed. */
  lemma PopulateNothing(st: Store, levels: seq<Level>, keyField: Option<string>, stringify: Json -> string)
    ensures Populate(st, [], levels, keyField, stringify).Ok?
    ensures Populate(st, [], levels, keyField, stringify).value.1 == []
    ensures Populate(st, [], levels, keyField, stringify).value.0.nodes == []
    ensures Populate(st, [], levels, keyField, stringify).value.0.expanded == st.expanded - AllIds(st.nodes)
    ensures Populate(st, [], levels, keyField, stringify).value.0.hashes == st.hashes
  {
    var marked := st.(nodes := MapAll(st.nodes, Mark()));
    MarkAllIds(st.nodes);
    AllMarkedPruned(marked.nodes, marked.expanded);
    PruneForgetsMarked(marked);
  }

  // ---------------------------------------------------------------------------
  // What populate builds at the root

  /** `n` has type `typ` and value `value` and is not marked for deletion. */
  predicate IsRoot(n: Node, typ: string, value: Json) {
    n.info.typ == typ && n.info.value == value && !n.info.delete
  }

  /** Some node of the list `f` is an unmarked node of type `typ` and value `value`. */
  predicate HasRoot(f: seq<Node>, typ: string, value: Json)
    decreases |f|
  {
    |f| > 0 && (IsRoot(f[0], typ, value) || HasRoot(f[1..], typ, value))
  }

  lemma {:induction false} HasRootIff(f: seq<Node>, typ: string, value: Json)
    ensures HasRoot(f, typ, value) <==> exists n :: n in f && IsRoot(n, typ, value)
    decreases |f|
  {
    if |f| > 0 {
      HasRootIff(f[1..], typ, value);
      if exists n :: n in f && IsRoot(n, typ, value) {
        var n :| n in f && IsRoot(n, typ, value);
        if n != f[0] {
          assert n in f[1..];
        }
      }
      if HasRoot(f[1..], typ, value) {
        var n :| n in f[1..] && IsRoot(n, typ, value);
        assert n in f;
      }
    }
  }

  /** `typ` is a property of a level-0 child and `value` one of its values in `entry`. */
  predicate RootValueOf(entry: Json, levels: seq<Level>, typ: string, value: Json) {
    0 < |levels| &&
    exists child, v :: child in levels[0].children &&
      v in GetProperties(Some(entry), child.property, []) &&
      typ == child.property && value == v.value
  }

  /** Refreshing a node along a path changes no root's type or value and marks none. */
  lemma RefreshRoots(f: seq<Node>, p: Path, b: bool, typ: string, value: Json)
    requires HasRoot(f, typ, value)
    ensures HasRoot(MapAlong(f, p, Keep(), Refresh(b), Keep()), typ, value)
  {
    var g := MapAlong(f, p, Keep(), Refresh(b), Keep());
    HasRootIff(f, typ, value);
    var n :| n in f && IsRoot(n, typ, value);
    var j :| 0 <= j < |f| && f[j] == n;
    if |p| > 0 && p[0] == j {
      assert g[j] == MapAlongNode(f[j], p[1..], Keep(), Refresh(b), Keep());
    } else {
      assert g[j] == n;
    }
    assert g[j] in g && IsRoot(g[j], typ, value);
    HasRootIff(g, typ, value);
  }

  /** Replacing a child list changes no root's fields. */
  lemma SetChildrenRoots(f: seq<Node>, p: Path, kids: seq<Node>, typ: string, value: Json)
    requires HasRoot(f, typ, value)
    ensures HasRoot(SetChildren(f, p, kids), typ, value)
  {
    var g := SetChildren(f, p, kids);
    HasRootIff(f, typ, value);
    var n :| n in f && IsRoot(n, typ, value);
    var j :| 0 <= j < |f| && f[j] == n;
    if |p| > 0 && p[0] == j {
      assert g[j] == SetChildrenIn(f[j], p[1..], kids);
    } else {
      assert g[j] == n;
    }
    assert g[j] in g && IsRoot(g[j], typ, value);
    HasRootIff(g, typ, value);
  }

  lemma SortKeeps(s: seq<Node>, n: Node, typ: string, value: Json)
    requires n in s && IsRoot(n, typ, value)
    ensures HasRoot(SortDesc(s), typ, value)
  {
    SortDescCorrect(s);
    assert n in multiset(s);
    HasRootIff(SortDesc(s), typ, value);
  }

  /** One placement keeps every unmarked root, and keeps the root list as the
      current list at level 0. */
  lemma PlaceValueRoots(c: Cursor, entry: Json, levels: seq<Level>, level: nat, child: SchemaChild,
                        v: PropertyValue, hasChanged: bool, typ: string, value: Json)
    requires level < |levels|
    ensures var r := PlaceValue(c, entry, levels, level, child, v, hasChanged);
      r.Ok? ==> (HasRoot(c.nodes, typ, value) ==> HasRoot(r.value.nodes, typ, value)) &&
                (level == 0 && c.parent.None? ==> r.value.parent.None?)
  {
    var r := PlaceValue(c, entry, levels, level, child, v, hasChanged);
    if r.Ok? && HasRoot(c.nodes, typ, value) {
      var parent := FindParent(c, entry, levels, level).value;
      var list := ListAt(c.nodes, parent);
      match Locate(list, child.property, Some(v.value))
      case Some(i) =>
        RefreshRoots(c.nodes, ChildPath(parent, i), list[i].info.id in c.changedNodes || hasChanged,
                     typ, value);
      case None =>
        var node := NewNode(c, child, parent, v, hasChanged);
        if level == 0 {
          HasRootIff(c.nodes, typ, value);
          var n :| n in c.nodes && IsRoot(n, typ, value);
          SortKeeps(c.nodes + [node], n, typ, value);
        } else {
          SetChildrenRoots(c.nodes, parent.value, SortDesc(list + [node]), typ, value);
        }
    }
  }

  /** A placement at level 0 looks in the root list and never throws. */
  lemma PlaceValueAtRoot(c: Cursor, entry: Json, levels: seq<Level>, child: SchemaChild,
                         v: PropertyValue, hasChanged: bool)
    requires 0 < |levels| && c.parent.None?
    ensures var r := PlaceValue(c, entry, levels, 0, child, v, hasChanged);
      r.Ok? && r.value.parent.None? &&
      r.value.nodes == match Locate(c.nodes, child.property, Some(v.value))
        case Some(i) => MapAlong(c.nodes, [i], Keep(), Refresh(c.nodes[i].info.id in c.changedNodes || hasChanged), Keep())
        case None => SortDesc(c.nodes + [NewNode(c, child, None, v, hasChanged)])
  {
    assert FindParent(c, entry, levels, 0) == Ok(None);
    assert ListAt(c.nodes, None) == c.nodes;
  }

  lemma PlaceValuesStep(c: Cursor, entry: Json, levels: seq<Level>, level: nat, child: SchemaChild,
                        vs: seq<PropertyValue>, hasChanged: bool)
    requires level < |levels| && |vs| > 0
    requires PlaceValue(c, entry, levels, level, child, vs[0], hasChanged).Ok?
    ensures PlaceValues(c, entry, levels, level, child, vs, hasChanged) ==
      PlaceValues(PlaceValue(c, entry, levels, level, child, vs[0], hasChanged).value,
                  entry, levels, level, child, vs[1..], hasChanged)
  {
  }

  lemma PlaceChildrenStep(c: Cursor, entry: Json, levels: seq<Level>, level: nat, j: nat, hasChanged: bool)
    requires level < |levels| && j < |levels[level].children|
    requires var child := levels[level].children[j];
      PlaceValues(c.(keys := c.keys + {child.property}), entry, levels, level, child,
                  GetProperties(Some(entry), child.property, []), hasChanged).Ok?
    ensures var child := levels[level].children[j];
      PlaceChildren(c, entry, levels, level, j, hasChanged) ==
      PlaceChildren(PlaceValues(c.(keys := c.keys + {child.property}), entry, levels, level, child,
                                GetProperties(Some(entry), child.property, []), hasChanged).value,
                    entry, levels, level, j + 1, hasChanged)
  {
  }

  /** A value placed at level 0 is afterwards an unmarked root of its type and value. */
  lemma PlaceValueRoot(c: Cursor, entry: Json, levels: seq<Level>, child: SchemaChild,
                       v: PropertyValue, hasChanged: bool)
    requires 0 < |levels| && c.parent.None?
    ensures PlaceValue(c, entry, levels, 0, child, v, hasChanged).Ok?
    ensures HasRoot(PlaceValue(c, entry, levels, 0, child, v, hasChanged).value.nodes, child.property, v.value)
  {
    PlaceValueAtRoot(c, entry, levels, child, v, hasChanged);
    var g := PlaceValue(c, entry, levels, 0, child, v, hasChanged).value.nodes;
    match Locate(c.nodes, child.property, Some(v.value))
    case Some(i) =>
      assert g[i] == MapAlongNode(c.nodes[i], [], Keep(), Refresh(c.nodes[i].info.id in c.changedNodes || hasChanged), Keep());
      assert g[i] in g && IsRoot(g[i], child.property, v.value);
      HasRootIff(g, child.property, v.value);
    case None =>
      var node := NewNode(c, child, None, v, hasChanged);
      SortKeeps(c.nodes + [node], node, child.property, v.value);
  }

  lemma {:induction false} PlaceValuesRoots(c: Cursor, entry: Json, levels: seq<Level>, level: nat,
                                            child: SchemaChild, vs: seq<PropertyValue>, hasChanged: bool,
                                            typ: string, value: Json)
    requires level < |levels|
    ensures var r := PlaceValues(c, entry, levels, level, child, vs, hasChanged);
      r.Ok? ==> (HasRoot(c.nodes, typ, value) ==> HasRoot(r.value.nodes, typ, value)) &&
                (level == 0 && c.parent.None? ==> r.value.parent.None?)
    decreases |vs|
  {
    if |vs| > 0 {
      PlaceValueRoots(c, entry, levels, level, child, vs[0], hasChanged, typ, value);
      var r := PlaceValue(c, entry, levels, level, child, vs[0], hasChanged);
      if r.Ok? {
        PlaceValuesRoots(r.value, entry, levels, level, child, vs[1..], hasChanged, typ, value);
      }
    }
  }

  lemma PlaceValuesRoot(c: Cursor, entry: Json, levels: seq<Level>, level: nat,
                        child: SchemaChild, vs: seq<PropertyValue>, hasChanged: bool, k: nat)
    requires level == 0 && 0 < |levels| && c.parent.None? && k < |vs|
    ensures var r := PlaceValues(c, entry, levels, level, child, vs, hasChanged);
      r.Ok? ==> HasRoot(r.value.nodes, child.property, vs[k].value)
  {
    var r := PlaceValues(c, entry, levels, level, child, vs, hasChanged);
    if r.Ok? {
      PlaceValuesResultRoot(c, entry, levels, level, child, vs, hasChanged, k, r.value);
    }
  }

  /** The cursor a top-level run of values ends with holds a root for each of them. */
  lemma {:induction false} PlaceValuesResultRoot(c: Cursor, entry: Json, levels: seq<Level>, level: nat,
                                                 child: SchemaChild, vs: seq<PropertyValue>, hasChanged: bool,
                                                 k: nat, rv: Cursor)
    requires level == 0 && 0 < |levels| && c.parent.None? && k < |vs|
    requires PlaceValues(c, entry, levels, level, child, vs, hasChanged) == Ok(rv)
    ensures HasRoot(rv.nodes, child.property, vs[k].value)
    decreases |vs|, 1
  {
    if k == 0 {
      PlaceValuesRootFirst(c, entry, levels, level, child, vs, hasChanged, rv);
    } else {
      PlaceValuesRootLater(c, entry, levels, level, child, vs, hasChanged, k, rv);
    }
  }

  /** The first value's root survives the rest of the run. */
  lemma PlaceValuesRootFirst(c: Cursor, entry: Json, levels: seq<Level>, level: nat,
                             child: SchemaChild, vs: seq<PropertyValue>, hasChanged: bool, rv: Cursor)
    requires level == 0 && 0 < |levels| && c.parent.None? && 0 < |vs|
    requires PlaceValues(c, entry, levels, level, child, vs, hasChanged) == Ok(rv)
    ensures HasRoot(rv.nodes, child.property, vs[0].value)
  {
    var c1 := PlaceValuesHead(c, entry, levels, level, child, vs, hasChanged, rv);
    PlaceValuesKeepRoot(c1, entry, levels, level, child, vs[1..], hasChanged, child.property, vs[0].value, rv);
  }

  /** A later value's root comes from the rest of the run. */
  lemma {:induction false} PlaceValuesRootLater(c: Cursor, entry: Json, levels: seq<Level>, level: nat,
                                                child: SchemaChild, vs: seq<PropertyValue>, hasChanged: bool,
                                                k: nat, rv: Cursor)
    requires level == 0 && 0 < |levels| && c.parent.None? && 0 < k < |vs|
    requires PlaceValues(c, entry, levels, level, child, vs, hasChanged) == Ok(rv)
    ensures HasRoot(rv.nodes, child.property, vs[k].value)
    decreases |vs|, 0
  {
    var c1 := PlaceValuesHead(c, entry, levels, level, child, vs, hasChanged, rv);
    PlaceValuesResultRoot(c1, entry, levels, level, child, vs[1..], hasChanged, k - 1, rv);
    DropFirstAt(vs, k);
  }

  /** A run of values that ends in `rv` keeps every root it started with. */
  lemma PlaceValuesKeepRoot(c: Cursor, entry: Json, levels: seq<Level>, level: nat, child: SchemaChild,
                            vs: seq<PropertyValue>, hasChanged: bool, typ: string, value: Json, rv: Cursor)
    requires level < |levels| && HasRoot(c.nodes, typ, value)
    requires PlaceValues(c, entry, levels, level, child, vs, hasChanged) == Ok(rv)
    ensures HasRoot(rv.nodes, typ, value)
  {
    PlaceValuesRoots(c, entry, levels, level, child, vs, hasChanged, typ, value);
  }

  lemma DropFirstAt<T>(s: seq<T>, k: nat)
    requires 0 < k < |s|
    ensures s[1..][k - 1] == s[k]
  {
  }

  /** The first value placed at the top level leaves a root for it, and the
      rest of the values, placed from there, end in the same cursor. */
  lemma PlaceValuesHead(c: Cursor, entry: Json, levels: seq<Level>, level: nat, child: SchemaChild,
                        vs: seq<PropertyValue>, hasChanged: bool, rv: Cursor) returns (c1: Cursor)
    requires level == 0 && 0 < |levels| && c.parent.None? && 0 < |vs|
    requires PlaceValues(c, entry, levels, level, child, vs, hasChanged) == Ok(rv)
    ensures c1.parent.None? && HasRoot(c1.nodes, child.property, vs[0].value)
    ensures PlaceValues(c1, entry, levels, level, child, vs[1..], hasChanged) == Ok(rv)
  {
    PlaceValueRoot(c, entry, levels, child, vs[0], hasChanged);
    PlaceValueRoots(c, entry, levels, level, child, vs[0], hasChanged, child.property, vs[0].value);
    c1 := PlaceValue(c, entry, levels, level, child, vs[0], hasChanged).value;
    PlaceValuesStep(c, entry, levels, level, child, vs, hasChanged);
  }

  lemma {:induction false} PlaceChildrenRoots(c: Cursor, entry: Json, levels: seq<Level>, level: nat,
                                              j: nat, hasChanged: bool, typ: string, value: Json)
    requires level < |levels|
    ensures var r := PlaceChildren(c, entry, levels, level, j, hasChanged);
      r.Ok? ==> (HasRoot(c.nodes, typ, value) ==> HasRoot(r.value.nodes, typ, value)) &&
                (level == 0 && c.parent.None? ==> r.value.parent.None?)
    decreases |levels[level].children| - j
  {
    if j < |levels[level].children| {
      var child := levels[level].children[j];
      var c1 := c.(keys := c.keys + {child.property});
      var vs := GetProperties(Some(entry), child.property, []);
      PlaceValuesRoots(c1, entry, levels, level, child, vs, hasChanged, typ, value);
      var r := PlaceValues(c1, entry, levels, level, child, vs, hasChanged);
      if r.Ok? {
        PlaceChildrenRoots(r.value, entry, levels, level, j + 1, hasChanged, typ, value);
      }
    }
  }

  /** `children.map` stops at the first child whose values throw. */
  lemma PlaceChildrenThrown(c: Cursor, entry: Json, levels: seq<Level>, level: nat, j: nat, hasChanged: bool)
    requires level < |levels| && j < |levels[level].children|
    requires var child := levels[level].children[j];
      PlaceValues(c.(keys := c.keys + {child.property}), entry, levels, level, child,
                  GetProperties(Some(entry), child.property, []), hasChanged).Thrown?
    ensures PlaceChildren(c, entry, levels, level, j, hasChanged).Thrown?
  {
  }

  /** The child that holds the value places it at the root, and the
      children after it keep it there. */
  lemma PlaceChildrenHere(c: Cursor, entry: Json, levels: seq<Level>, j: nat, hasChanged: bool, k: nat)
    requires 0 < |levels| && c.parent.None? && j < |levels[0].children|
    requires k < |GetProperties(Some(entry), levels[0].children[j].property, [])|
    ensures var r := PlaceChildren(c, entry, levels, 0, j, hasChanged);
      r.Ok? ==> HasRoot(r.value.nodes, levels[0].children[j].property,
                        GetProperties(Some(entry), levels[0].children[j].property, [])[k].value)
  {
    var child := levels[0].children[j];
    var c1 := c.(keys := c.keys + {child.property});
    var vs := GetProperties(Some(entry), child.property, []);
    var r := PlaceValues(c1, entry, levels, 0, child, vs, hasChanged);
    if r.Ok? {
      assert HasRoot(r.value.nodes, child.property, vs[k].value) by {
        PlaceValuesRoot(c1, entry, levels, 0, child, vs, hasChanged, k);
      }
      PlaceChildrenStep(c, entry, levels, 0, j, hasChanged);
      PlaceChildrenRoots(r.value, entry, levels, 0, j + 1, hasChanged, child.property, vs[k].value);
    } else {
      PlaceChildrenThrown(c, entry, levels, 0, j, hasChanged);
    }
  }

  /** Placing the children from `j` on is placing them from `jj` on, after
      some cursor still at the root. */
  lemma {:induction false} PlaceChildrenSkip(c: Cursor, entry: Json, levels: seq<Level>, j: nat, jj: nat,
                                             hasChanged: bool) returns (c': Cursor)
    requires 0 < |levels| && c.parent.None? && j <= jj <= |levels[0].children|
    ensures PlaceChildren(c, entry, levels, 0, j, hasChanged).Ok? ==>
      c'.parent.None? &&
      PlaceChildren(c, entry, levels, 0, j, hasChanged) == PlaceChildren(c', entry, levels, 0, jj, hasChanged)
    decreases jj - j
  {
    c' := c;
    if j < jj {
      var child := levels[0].children[j];
      var c1 := c.(keys := c.keys + {child.property});
      var vs := GetProperties(Some(entry), child.property, []);
      var r := PlaceValues(c1, entry, levels, 0, child, vs, hasChanged);
      if r.Ok? {
        assert r.value.parent.None? by {
          PlaceValuesRoots(c1, entry, levels, 0, child, vs, hasChanged, child.property, Json.JNull);
        }
        assert PlaceChildren(c, entry, levels, 0, j, hasChanged) ==
               PlaceChildren(r.value, entry, levels, 0, j + 1, hasChanged) by {
          PlaceChildrenStep(c, entry, levels, 0, j, hasChanged);
        }
        c' := PlaceChildrenSkip(r.value, entry, levels, j + 1, jj, hasChanged);
      } else {
        PlaceChildrenThrown(c, entry, levels, 0, j, hasChanged);
      }
    }
  }

  lemma PlaceChildrenRoot(c: Cursor, entry: Json, levels: seq<Level>, hasChanged: bool, jj: nat, k: nat)
    requires 0 < |levels| && c.parent.None? && jj < |levels[0].children|
    requires k < |GetProperties(Some(entry), levels[0].children[jj].property, [])|
    ensures var r := PlaceChildren(c, entry, levels, 0, 0, hasChanged);
      r.Ok? ==> HasRoot(r.value.nodes, levels[0].children[jj].property,
                        GetProperties(Some(entry), levels[0].children[jj].property, [])[k].value)
  {
    var c' := PlaceChildrenSkip(c, entry, levels, 0, jj, hasChanged);
    if PlaceChildren(c, entry, levels, 0, 0, hasChanged).Ok? {
      PlaceChildrenHere(c', entry, levels, jj, hasChanged, k);
    }
  }

  lemma PlaceLevelsRoots(c: Cursor, entry: Json, levels: seq<Level>, level: nat,
                         hasChanged: bool, typ: string, value: Json)
    ensures var r := PlaceLevels(c, entry, levels, level, hasChanged);
      r.Ok? && HasRoot(c.nodes, typ, value) ==> HasRoot(r.value.nodes, typ, value)
  {
    var r := PlaceLevels(c, entry, levels, level, hasChanged);
    if r.Ok? && HasRoot(c.nodes, typ, value) {
      PlaceLevelsResultRoots(c, entry, levels, level, hasChanged, typ, value, r.value);
    }
  }

  /** The cursor a level loop ends with keeps every top-level node it started with. */
  lemma {:induction false} PlaceLevelsResultRoots(c: Cursor, entry: Json, levels: seq<Level>, level: nat,
                                                  hasChanged: bool, typ: string, value: Json, r: Cursor)
    requires PlaceLevels(c, entry, levels, level, hasChanged) == Ok(r)
    requires HasRoot(c.nodes, typ, value)
    ensures HasRoot(r.nodes, typ, value)
    decreases |levels| - level
  {
    if level < |levels| {
      var c2 := PlaceLevelsNextRoots(c, entry, levels, level, hasChanged, typ, value);
      PlaceLevelsResultRoots(c2, entry, levels, level + 1, hasChanged, typ, value, r);
    }
  }

  /** One level placed keeps the top-level nodes, and the loop goes on from
      the cursor it leaves. */
  lemma PlaceLevelsNextRoots(c: Cursor, entry: Json, levels: seq<Level>, level: nat, hasChanged: bool,
                             typ: string, value: Json)
    returns (c2: Cursor)
    requires level < |levels| && PlaceLevels(c, entry, levels, level, hasChanged).Ok?
    requires HasRoot(c.nodes, typ, value)
    ensures HasRoot(c2.nodes, typ, value)
    ensures PlaceLevels(c, entry, levels, level, hasChanged) == PlaceLevels(c2, entry, levels, level + 1, hasChanged)
  {
    PlaceLevelsOkChildren(c, entry, levels, level, hasChanged);
    var c1 := PlaceChildren(c, entry, levels, level, 0, hasChanged).value;
    c2 := if level > 0 && c1.parent.Some? then c1.(parents := c1.parent) else c1;
    PlaceChildrenRoots(c, entry, levels, level, 0, hasChanged, typ, value);
    PlaceLevelsStep(c, entry, levels, level, hasChanged);
  }

  lemma PlaceLevelsRoot(c: Cursor, entry: Json, levels: seq<Level>, hasChanged: bool, jj: nat, k: nat)
    requires 0 < |levels| && c.parent.None? && jj < |levels[0].children|
    requires k < |GetProperties(Some(entry), levels[0].children[jj].property, [])|
    ensures var r := PlaceLevels(c, entry, levels, 0, hasChanged);
      r.Ok? ==> HasRoot(r.value.nodes, levels[0].children[jj].property,
                        GetProperties(Some(entry), levels[0].children[jj].property, [])[k].value)
  {
    var typ := levels[0].children[jj].property;
    var value := GetProperties(Some(entry), typ, [])[k].value;
    var r := PlaceChildren(c, entry, levels, 0, 0, hasChanged);
    if r.Ok? {
      PlaceChildrenRoot(c, entry, levels, hasChanged, jj, k);
      PlaceLevelsStep(c, entry, levels, 0, hasChanged);
      PlaceLevelsRoots(r.value, entry, levels, 1, hasChanged, typ, value);
    } else {
      PlaceLevelsThrown(c, entry, levels, 0, hasChanged);
    }
  }

  lemma {:induction false} PopulateItemsRoots(st: Store, items: seq<Json>, i: nat, levels: seq<Level>,
                                              keyField: Option<string>, stringify: Json -> string,
                                              updated: seq<Json>, typ: string, value: Json)
    ensures var r := PopulateItems(st, items, i, levels, keyField, stringify, updated);
      r.Ok? && HasRoot(st.nodes, typ, value) ==> HasRoot(r.value.0.nodes, typ, value)
    decreases |items| - i
  {
    if i < |items| {
      var d := CheckKey(items[i], keyField, stringify, st.hashes, updated);
      if d.Ok? {
        var c := Cursor(st.nodes, st.changedNodes, st.keys, None, None);
        PlaceLevelsRoots(c, items[i], levels, 0, d.value.changed, typ, value);
        var r := PlaceLevels(c, items[i], levels, 0, d.value.changed);
        if r.Ok? {
          var c1 := r.value;
          var st1 := st.(nodes := c1.nodes, changedNodes := c1.changedNodes, keys := c1.keys,
                          hashes := d.value.hashes);
          PopulateItemsRoots(st1, items, i + 1, levels, keyField, stringify, d.value.updated, typ, value);
        }
      }
    }
  }

  /** The run of the items from `i` ends in `out`, behind `n` layers of
      unfolding: lemmas that only pass a run along state it with a layer
      count `n > 0` held in a variable rather than written as a literal, so
      that the solver does not expand the run where it is not needed. */
  predicate RunEnds(st: Store, items: seq<Json>, i: nat, levels: seq<Level>, keyField: Option<string>,
                    stringify: Json -> string, updated: seq<Json>, out: (Store, seq<Json>), n: nat)
    decreases n
  {
    if n == 0 then PopulateItems(st, items, i, levels, keyField, stringify, updated) == Ok(out)
    else RunEnds(st, items, i, levels, keyField, stringify, updated, out, n - 1)
  }

  /** Every layer count states the same run. */
  lemma {:induction false} RunEndsDown(st: Store, items: seq<Json>, i: nat, levels: seq<Level>,
                                       keyField: Option<string>, stringify: Json -> string,
                                       updated: seq<Json>, out: (Store, seq<Json>), n: nat)
    ensures RunEnds(st, items, i, levels, keyField, stringify, updated, out, n) ==
            RunEnds(st, items, i, levels, keyField, stringify, updated, out, 0)
    decreases n
  {
    if n > 0 {
      RunEndsDown(st, items, i, levels, keyField, stringify, updated, out, n - 1);
    }
  }

  lemma RunEndsIff(st: Store, items: seq<Json>, i: nat, levels: seq<Level>, keyField: Option<string>,
                   stringify: Json -> string, updated: seq<Json>, out: (Store, seq<Json>), n: nat)
    ensures RunEnds(st, items, i, levels, keyField, stringify, updated, out, n) <==>
            PopulateItems(st, items, i, levels, keyField, stringify, updated) == Ok(out)
  {
    RunEndsDown(st, items, i, levels, keyField, stringify, updated, out, n);
  }

  /** A run of the items from `i` that ends in `out` is, from item `m` on,
      a run from some store that ends in `out` as well. */
  lemma PopulateItemsSkip(st: Store, items: seq<Json>, i: nat, m: nat, levels: seq<Level>,
                          keyField: Option<string>, stringify: Json -> string,
                          updated: seq<Json>, out: (Store, seq<Json>), n: nat)
    returns (st': Store, updated': seq<Json>)
    requires i <= m <= |items| && 0 < |levels| && 0 < n
    requires RunEnds(st, items, i, levels, keyField, stringify, updated, out, n)
    ensures RunEnds(st', items, m, levels, keyField, stringify, updated', out, n)
  {
    var j := i;
    st', updated' := st, updated;
    while j < m
      invariant i <= j <= m
      invariant RunEnds(st', items, j, levels, keyField, stringify, updated', out, n)
    {
      st', updated' := PopulateItemsNext(st', items, j, levels, keyField, stringify, updated', out, n);
      j := j + 1;
    }
  }

  /** One item of a run that ends in `out`: the rest of the run ends there too. */
  lemma PopulateItemsNext(st: Store, items: seq<Json>, i: nat, levels: seq<Level>,
                          keyField: Option<string>, stringify: Json -> string,
                          updated: seq<Json>, out: (Store, seq<Json>), n: nat)
    returns (st1: Store, updated1: seq<Json>)
    requires i < |items| && 0 < |levels| && 0 < n
    requires RunEnds(st, items, i, levels, keyField, stringify, updated, out, n)
    ensures RunEnds(st1, items, i + 1, levels, keyField, stringify, updated1, out, n)
  {
    RunEndsIff(st, items, i, levels, keyField, stringify, updated, out, n);
    PopulateItemsOkParts(st, items, i, levels, keyField, stringify, updated);
    var d := CheckKey(items[i], keyField, stringify, st.hashes, updated).value;
    var c1 := PlaceLevels(Cursor(st.nodes, st.changedNodes, st.keys, None, None), items[i], levels, 0,
                          d.changed).value;
    st1 := st.(nodes := c1.nodes, changedNodes := c1.changedNodes, keys := c1.keys, hashes := d.hashes);
    updated1 := d.updated;
    PopulateItemsStep(st, items, i, levels, keyField, stringify, updated);
    RunEndsIff(st1, items, i + 1, levels, keyField, stringify, updated1, out, n);
  }

  /** An item of a run that does not throw has a key check and a placement
      that do not throw. */
  lemma PopulateItemsOkParts(st: Store, items: seq<Json>, i: nat, levels: seq<Level>,
                             keyField: Option<string>, stringify: Json -> string, updated: seq<Json>)
    requires i < |items| && PopulateItems(st, items, i, levels, keyField, stringify, updated).Ok?
    ensures CheckKey(items[i], keyField, stringify, st.hashes, updated).Ok?
    ensures PlaceLevels(Cursor(st.nodes, st.changedNodes, st.keys, None, None), items[i], levels, 0,
                        CheckKey(items[i], keyField, stringify, st.hashes, updated).value.changed).Ok?
  {
  }

  /** The item at `m` leaves a root for each level-0 value, and the later
      items keep it. */
  lemma PopulateItemsAt(st: Store, items: seq<Json>, m: nat, levels: seq<Level>,
                        keyField: Option<string>, stringify: Json -> string,
                        updated: seq<Json>, jj: nat, k: nat)
    requires m < |items| && 0 < |levels| && jj < |levels[0].children|
    requires k < |GetProperties(Some(items[m]), levels[0].children[jj].property, [])|
    ensures var r := PopulateItems(st, items, m, levels, keyField, stringify, updated);
      r.Ok? ==> HasRoot(r.value.0.nodes, levels[0].children[jj].property,
                        GetProperties(Some(items[m]), levels[0].children[jj].property, [])[k].value)
  {
    var typ := levels[0].children[jj].property;
    var value := GetProperties(Some(items[m]), typ, [])[k].value;
    var d := CheckKey(items[m], keyField, stringify, st.hashes, updated);
    if d.Ok? {
      var c := Cursor(st.nodes, st.changedNodes, st.keys, None, None);
      var r := PlaceLevels(c, items[m], levels, 0, d.value.changed);
      if r.Ok? {
        var c1 := r.value;
        var st1 := st.(nodes := c1.nodes, changedNodes := c1.changedNodes, keys := c1.keys,
                        hashes := d.value.hashes);
        assert HasRoot(st1.nodes, typ, value) by {
          PlaceLevelsRoot(c, items[m], levels, d.value.changed, jj, k);
        }
        PopulateItemsStep(st, items, m, levels, keyField, stringify, updated);
        PopulateItemsRoots(st1, items, m + 1, levels, keyField, stringify, d.value.updated, typ, value);
      }
    }
  }

  lemma PopulateItemsStep(st: Store, items: seq<Json>, i: nat, levels: seq<Level>,
                          keyField: Option<string>, stringify: Json -> string, updated: seq<Json>)
    requires i < |items| && 0 < |levels|
    requires CheckKey(items[i], keyField, stringify, st.hashes, updated).Ok?
    requires PlaceLevels(Cursor(st.nodes, st.changedNodes, st.keys, None, None), items[i], levels, 0,
                         CheckKey(items[i], keyField, stringify, st.hashes, updated).value.changed).Ok?
    ensures var d := CheckKey(items[i], keyField, stringify, st.hashes, updated).value;
      var c1 := PlaceLevels(Cursor(st.nodes, st.changedNodes, st.keys, None, None), items[i], levels, 0,
                            d.changed).value;
      PopulateItems(st, items, i, levels, keyField, stringify, updated) ==
      PopulateItems(st.(nodes := c1.nodes, changedNodes := c1.changedNodes, keys := c1.keys, hashes := d.hashes),
                    items, i + 1, levels, keyField, stringify, d.updated)
  {
  }

  /** Every value of a level-0 child property of every item is afterwards a
      root node of that type and value: a matching root is reused, a missing
      one is created, and neither is swept. */
  lemma PopulateBuildsRoots(st: Store, items: seq<Json>, levels: seq<Level>, keyField: Option<string>,
                            stringify: Json -> string, m: nat, typ: string, value: Json)
    requires Populate(st, items, levels, keyField, stringify).Ok?
    requires m < |items| && RootValueOf(items[m], levels, typ, value)
    ensures exists n :: n in Populate(st, items, levels, keyField, stringify).value.0.nodes &&
                        n.info.typ == typ && n.info.value == value
  {
    var child, v :| child in levels[0].children && v in GetProperties(Some(items[m]), child.property, []) &&
                    typ == child.property && value == v.value;
    var jj :| 0 <= jj < |levels[0].children| && levels[0].children[jj] == child;
    var vs := GetProperties(Some(items[m]), child.property, []);
    var k :| 0 <= k < |vs| && vs[k] == v;
    var marked := st.(nodes := MapAll(st.nodes, Mark()));
    var out := PopulateItems(marked, items, 0, levels, keyField, stringify, []).value;
    RunEndsIff(marked, items, 0, levels, keyField, stringify, [], out, 1);
    var st', updated' := PopulateItemsSkip(marked, items, 0, m, levels, keyField, stringify, [], out, 1);
    RunEndsIff(st', items, m, levels, keyField, stringify, updated', out, 1);
    PopulateItemsAt(st', items, m, levels, keyField, stringify, updated', jj, k);
    var r := out.0;
    HasRootIff(r.nodes, typ, value);
    var n :| n in r.nodes && IsRoot(n, typ, value);
    PruneKeepsUnmarked(r.nodes, r.expanded, n);
  }
}
