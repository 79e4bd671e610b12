/** The module-level state of tree.js (`nodes`, `expandedNodes`,
    `changedNodes`, `hashes`, `keys`, `selectedNode`, `showChangedOnly`) as one
    value, with the node-id rule and the `forEachNode` traversal. */
module TreeStore {
  import opened Common
  import opened JsValue
  import opened Forest

  datatype Store = Store(
    nodes: seq<Node>,
    expanded: map<string, bool>,
    changedNodes: set<string>,
    hashes: map<string, int>,
    keys: set<string>,
    selected: Option<string>,
    showChangedOnly: bool)

  /** A node shows a change only where its schema entry asked for it. */
  predicate ShowsChange(i: Info) {
    i.showChanged && i.changed
  }

  // ---------------------------------------------------------------------------
  // Node ids

  /** `sanitizePath`: every '.' becomes '_'. */
  function Sanitize(path: string): (r: string)
    ensures |r| == |path|
    ensures forall i :: 0 <= i < |path| && path[i] != '.' ==> r[i] == path[i]
    ensures forall i :: 0 <= i < |path| && path[i] == '.' ==> r[i] == '_'
    ensures '.' !in r
    decreases |path|
  {
    if |path| == 0 then []
    else [if path[0] == '.' then '_' else path[0]] + Sanitize(path[1..])
  }

  /** Sanitizing a sanitized path changes nothing. */
  lemma SanitizeIdempotent(path: string)
    ensures Sanitize(Sanitize(path)) == Sanitize(path)
  {
    var s := Sanitize(path);
    assert Sanitize(s) == s;
  }

  /** Sanitizing works character by character, so it distributes over concatenation. */
  lemma SanitizeConcat(a: string, b: string)
    ensures Sanitize(a + b) == Sanitize(a) + Sanitize(b)
  {
    var l := Sanitize(a + b);
    var r := Sanitize(a) + Sanitize(b);
    assert |l| == |r|;
    forall i | 0 <= i < |l|
      ensures l[i] == r[i]
    {
      if i < |a| {
        assert (a + b)[i] == a[i];
      } else {
        assert (a + b)[i] == b[i - |a|];
      }
    }
  }

  /** The id a created node gets: its property, ':', then the parent's id and
      '.' (when there is a parent) and the value's text, sanitized. */
  function NewId(property: string, parentId: Option<string>, value: Json): (id: string)
    ensures '.' !in id
    ensures |id| == |property| + 1 + |Display(value)| + (if parentId.Some? then |parentId.value| + 1 else 0)
    ensures id[..|property|] == Sanitize(property) && id[|property|] == ':'
    ensures id == Sanitize(property) + ":" +
                  (if parentId.Some? then Sanitize(parentId.value) + "_" else "") +
                  Sanitize(Display(value))
  {
    var tail := if parentId.Some? then parentId.value + "." + Display(value) else Display(value);
    var raw := property + ":" + tail;
    assert raw[..|property|] == property && raw[|property|] == ':';
    SanitizeRaw(property, parentId, Display(value));
    Sanitize(raw)
  }

  lemma SanitizeRaw(property: string, parentId: Option<string>, text: string)
    ensures Sanitize(property + ":" + (if parentId.Some? then parentId.value + "." + text else text)) ==
            Sanitize(property) + ":" + (if parentId.Some? then Sanitize(parentId.value) + "_" else "") +
            Sanitize(text)
  {
    if parentId.Some? {
      SanitizeRawUnder(property, parentId.value, text);
    } else {
      SanitizeRawRoot(property, text);
    }
  }

  lemma SanitizeRawRoot(property: string, text: string)
    ensures Sanitize(property + ":" + text) == Sanitize(property) + ":" + "" + Sanitize(text)
  {
    SanitizeConcat(property + ":", text);
    SanitizeAfter(property, ':');
    assert Sanitize(property) + ":" + "" == Sanitize(property) + ":";
  }

  lemma SanitizeRawUnder(property: string, p: string, text: string)
    ensures Sanitize(property + ":" + (p + "." + text)) ==
            Sanitize(property) + ":" + (Sanitize(p) + "_") + Sanitize(text)
  {
    SanitizeConcat(property + ":", p + "." + text);
    SanitizeAfter(property, ':');
    SanitizeConcat(p + ".", text);
    SanitizeAfter(p, '.');
    Associative(Sanitize(property) + ":", Sanitize(p) + "_", Sanitize(text));
  }

  lemma Associative(x: string, y: string, z: string)
    ensures x + (y + z) == x + y + z
  {
  }

  /** One character appended: sanitized on its own. */
  lemma SanitizeAfter(s: string, c: char)
    ensures Sanitize(s + [c]) == Sanitize(s) + [if c == '.' then '_' else c]
  {
    SanitizeConcat(s, [c]);
    assert Sanitize([c]) == [if c == '.' then '_' else c];
  }

  /** A child's id holds its parent's (already sanitized) id verbatim,
      between the sanitized property with ':' and '_' with the sanitized value. */
  lemma NewIdUnderParent(property: string, parentId: string, value: Json)
    requires '.' !in parentId
    ensures NewId(property, Some(parentId), value) ==
            Sanitize(property) + ":" + parentId + "_" + Sanitize(Display(value))
  {
    SanitizeIdentity(parentId);
  }

  lemma SanitizeIdentity(s: string)
    requires '.' !in s
    ensures Sanitize(s) == s
  {
  }

  // ---------------------------------------------------------------------------
  // forEachNode

  /** The order `forEachNode` visits nodes in: each node after its subtree. */
  function Flatten(f: seq<Node>): seq<Info>
    decreases f, 1
  {
    if |f| == 0 then [] else FlattenNode(f[0]) + Flatten(f[1..])
  }

  function FlattenNode(n: Node): seq<Info>
    decreases n, 0
  {
    Flatten(n.children) + [n.info]
  }

  lemma {:induction false} FlattenNodeHas(n: Node, q: Path)
    requires ValidIn(n, q)
    ensures Sub(n, q).info in FlattenNode(n)
    decreases q
  {
    if |q| > 0 {
      FlattenNodeHas(n.children[q[0]], q[1..]);
      FlattenChild(n.children, q[0]);
    }
  }

  lemma {:induction false} FlattenChild(f: seq<Node>, i: nat)
    requires i < |f|
    ensures forall x :: x in FlattenNode(f[i]) ==> x in Flatten(f)
    decreases i
  {
    if i > 0 {
      FlattenChild(f[1..], i - 1);
    }
  }

  lemma {:induction false} FlattenSource(f: seq<Node>, x: Info) returns (p: Path)
    requires x in Flatten(f)
    ensures ValidPath(f, p) && InfoAt(f, p) == x
    decreases f, 1
  {
    if x in FlattenNode(f[0]) {
      var q := FlattenNodeSource(f[0], x);
      p := [0] + q;
      assert p[1..] == q;
    } else {
      var p' := FlattenSource(f[1..], x);
      p := [p'[0] + 1] + p'[1..];
      assert p[1..] == p'[1..];
    }
  }

  lemma {:induction false} FlattenNodeSource(n: Node, x: Info) returns (q: Path)
    requires x in FlattenNode(n)
    ensures ValidIn(n, q) && Sub(n, q).info == x
    decreases n, 0
  {
    if x == n.info {
      q := [];
    } else {
      var p := FlattenSource(n.children, x);
      q := p;
    }
  }

  /** `forEachNode` visits exactly the nodes of the forest. */
  lemma FlattenMembers(f: seq<Node>, x: Info)
    ensures x in Flatten(f) <==> exists p :: ValidPath(f, p) && InfoAt(f, p) == x
  {
    if x in Flatten(f) {
      var p := FlattenSource(f, x);
    }
    if exists p :: ValidPath(f, p) && InfoAt(f, p) == x {
      var p :| ValidPath(f, p) && InfoAt(f, p) == x;
      FlattenNodeHas(f[p[0]], p[1..]);
      FlattenChild(f, p[0]);
    }
  }
}
