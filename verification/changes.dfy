/** The changed-flag operations of `TreeNodeProvider`: `setChanged`,
    `clearAll` and `hasChanged` (tree.js). */
module Changes {
  import opened Common
  import opened Forest
  import opened TreeStore

  /** The flag written where the schema entry allows it (`showChanged`). */
  function SetIfShown(changed: bool): Info -> Info {
    (i: Info) => if i.showChanged then i.(changed := changed) else i
  }

  /** `setChanged(node, changed)` for the node at `p`. */
  function SetChanged(st: Store, p: Path, changed: bool): (r: Store)
    requires ValidPath(st.nodes, p)
    ensures r.expanded == st.expanded && r.hashes == st.hashes && r.keys == st.keys
    ensures r.selected == st.selected && r.showChangedOnly == st.showChangedOnly
    ensures changed ==> r.changedNodes == st.changedNodes + {InfoAt(st.nodes, p).id}
    ensures !changed ==> r.changedNodes == st.changedNodes - {InfoAt(st.nodes, p).id}
  {
    var id := InfoAt(st.nodes, p).id;
    if changed then
      st.(nodes := MapAlong(st.nodes, p, SetIfShown(true), SetIfShown(true), SetIfShown(true)),
          changedNodes := st.changedNodes + {id})
    else
      st.(nodes := MapAlong(st.nodes, p, Keep(), SetIfShown(false), Keep()),
          changedNodes := st.changedNodes - {id})
  }

  /** Marking a node changed marks every `showChanged` node on its root path
      and in its subtree; unmarking touches only the node itself. No other
      field of any node changes, and the tree keeps its shape. */
  lemma SetChangedEffect(st: Store, p: Path, changed: bool, q: Path)
    requires ValidPath(st.nodes, p)
    ensures ValidPath(SetChanged(st, p, changed).nodes, q) <==> ValidPath(st.nodes, q)
    ensures ValidPath(st.nodes, q) ==>
      var before := InfoAt(st.nodes, q);
      InfoAt(SetChanged(st, p, changed).nodes, q) ==
        if before.showChanged && (if changed then IsPrefix(q, p) || IsPrefix(p, q) else q == p)
        then before.(changed := changed)
        else before
  {
    if changed {
      MapAlongAt(st.nodes, p, SetIfShown(true), SetIfShown(true), SetIfShown(true), q);
    } else {
      MapAlongAt(st.nodes, p, Keep(), SetIfShown(false), Keep(), q);
    }
  }

  /** `clearAll`: every node's flag off, and the id map emptied. */
  function ClearAll(st: Store): (r: Store)
    ensures r.changedNodes == {}
    ensures r.expanded == st.expanded && r.hashes == st.hashes && r.keys == st.keys
    ensures r.selected == st.selected && r.showChangedOnly == st.showChangedOnly
  {
    st.(nodes := MapAll(st.nodes, (i: Info) => i.(changed := false)), changedNodes := {})
  }

  /** After `clearAll` the tree has the same nodes, none of them changed. */
  lemma ClearAllEffect(st: Store, q: Path)
    ensures ValidPath(ClearAll(st).nodes, q) <==> ValidPath(st.nodes, q)
    ensures ValidPath(st.nodes, q) ==> InfoAt(ClearAll(st).nodes, q) == InfoAt(st.nodes, q).(changed := false)
  {
    MapAllAt(st.nodes, (i: Info) => i.(changed := false), q);
  }

  /** The flag `hasChanged` accumulates over `forEachNode`. */
  function AnyShownVisible(s: seq<Info>): bool
    decreases |s|
  {
    |s| > 0 && ((s[0].showChanged && s[0].changed && s[0].visible) || AnyShownVisible(s[1..]))
  }

  function HasChanged(st: Store): bool {
    AnyShownVisible(Flatten(st.nodes))
  }

  lemma {:induction false} AnyShownVisibleSpec(s: seq<Info>)
    ensures AnyShownVisible(s) <==> exists x :: x in s && ShowsChange(x) && x.visible
    decreases |s|
  {
    if |s| > 0 {
      AnyShownVisibleSpec(s[1..]);
      assert s == [s[0]] + s[1..];
    }
  }

  /** `hasChanged` holds exactly when some visible node shows a change. */
  lemma HasChangedSpec(st: Store)
    ensures HasChanged(st) <==>
      exists p :: ValidPath(st.nodes, p) && ShowsChange(InfoAt(st.nodes, p)) && InfoAt(st.nodes, p).visible
  {
    AnyShownVisibleSpec(Flatten(st.nodes));
    if HasChanged(st) {
      var x :| x in Flatten(st.nodes) && ShowsChange(x) && x.visible;
      FlattenMembers(st.nodes, x);
    }
    if exists p :: ValidPath(st.nodes, p) && ShowsChange(InfoAt(st.nodes, p)) && InfoAt(st.nodes, p).visible {
      var p :| ValidPath(st.nodes, p) && ShowsChange(InfoAt(st.nodes, p)) && InfoAt(st.nodes, p).visible;
      FlattenMembers(st.nodes, InfoAt(st.nodes, p));
    }
  }

  /** Nothing shows a change after `clearAll`. */
  lemma ClearAllNothingChanged(st: Store)
    ensures !HasChanged(ClearAll(st))
  {
    var r := ClearAll(st);
    HasChangedSpec(r);
    forall p | ValidPath(r.nodes, p)
      ensures !ShowsChange(InfoAt(r.nodes, p))
    {
      ClearAllEffect(st, p);
    }
  }

  /** Marking a visible `showChanged` node changed makes `hasChanged` true. */
  lemma SetChangedShows(st: Store, p: Path)
    requires ValidPath(st.nodes, p)
    requires InfoAt(st.nodes, p).showChanged && InfoAt(st.nodes, p).visible
    ensures HasChanged(SetChanged(st, p, true))
  {
    SetChangedEffect(st, p, true, p);
    HasChangedSpec(SetChanged(st, p, true));
  }
}
