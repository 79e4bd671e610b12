/** The property-path resolver (objectUtils.js): walking a dotted path through
    a JSON-like record, fanning out over every array met on the way, and
    replaying a recorded index list to pick out one value again. */
module ObjectUtils {
  import opened Common
  import opened JsValue

  /** One resolved value. `indexes` starts with -1 and gets one entry per path
      segment crossed: the element position for an array, -1 otherwise. `path`
      is the path suffix still to resolve in the frame that produced it, and
      `parent` the object the last segment was read from. */
  datatype PropertyValue = PropertyValue(
    value: Json,
    indexes: seq<int>,
    path: string,
    expandedPath: string,
    parent: Json)

  /** `append(target, source)`: joins two path fragments with a '.',
      unless the first is empty. */
  function Append(target: string, source: string): string {
    if |target| > 0 then target + "." + source else source
  }

  /** The position of the first '.' in a path, -1 when there is none. */
  function DotIndex(p: string): (r: int)
    ensures -1 <= r < |p|
    ensures r >= 0 ==> p[r] == '.' && '.' !in p[..r]
    ensures r == -1 <==> '.' !in p
  {
    if |p| == 0 then -1
    else if p[0] == '.' then 0
    else
      var k := DotIndex(p[1..]);
      if k < 0 then -1
      else
        assert p[..k + 1] == [p[0]] + p[1..][..k];
        k + 1
  }

  /** The first segment of a dotted path: everything before its first '.'. */
  function Seg(p: string): (r: string)
    requires DotIndex(p) >= 0
    ensures '.' !in r
  {
    p[..DotIndex(p)]
  }

  /** The path after the first '.'. */
  function RestOf(p: string): (r: string)
    requires DotIndex(p) >= 0
    ensures |r| < |p|
  {
    p[DotIndex(p) + 1..]
  }

  /** Number of '.' characters in a path. */
  function DotCount(p: string): nat {
    if |p| == 0 then 0 else (if p[0] == '.' then 1 else 0) + DotCount(p[1..])
  }

  /** The expanded-path fragment for array element `i`: `ep + "[" + i + "]"`. */
  function Indexed(ep: string, i: nat): string {
    ep + "[" + NatToString(i) + "]"
  }

  /** Whether the head of `parentIndexes` (or -1 when it is empty) admits element `i`. */
  predicate Allowed(parentIndexes: seq<int>, i: int) {
    |parentIndexes| == 0 || parentIndexes[0] == -1 || parentIndexes[0] == i
  }

  /** The index list without its first entry (empty stays empty). */
  function Tail(parentIndexes: seq<int>): seq<int> {
    if |parentIndexes| == 0 then [] else parentIndexes[1..]
  }

  function ArrayRank(o: Value): nat {
    if IsArray(o) then 0 else 1
  }

  /** One frame of `getProperties`, from the loop state (`o`, `p`,
      `expandedPath`, `indexes`) onwards. `framePath` is the frame's own path
      argument. When a segment yields an array, the frame recurses into the
      admitted elements and then keeps looping on the array itself; reading the
      same segment from the array yields `undefined`, so that continuation
      contributes nothing (see `WalkEmpty`). */
  function Walk(o: Value, p: string, framePath: string, parentIndexes: seq<int>,
                expandedPath: string, indexes: seq<int>): seq<PropertyValue>
    decreases |p|, ArrayRank(o), 1
  {
    var dot := DotIndex(p);
    if Truthy(o) && dot >= 0 then
      var sub := Seg(p);
      var expanded := Append(expandedPath, sub);
      var next := Get(o, sub);
      if IsArray(next) then
        assert !IsArray(o);
        FanOut(next.value.elems, 0, RestOf(p), parentIndexes, expanded, indexes)
          + Walk(next, p, framePath, parentIndexes, expanded, indexes)
      else
        Walk(next, RestOf(p), framePath, parentIndexes, expanded, indexes + [-1])
    else
      var leaf := Get(o, p);
      if Truthy(o) && Truthy(leaf) then
        [PropertyValue(leaf.value, indexes, framePath, Append(expandedPath, p), o.value)]
      else []
  }

  /** The `o.map(...)` over the elements `k..` of an array met by a frame. */
  function FanOut(elems: seq<Json>, k: nat, rest: string, parentIndexes: seq<int>,
                  expandedPath: string, indexes: seq<int>): seq<PropertyValue>
    requires k <= |elems|
    decreases |rest|, 2, |elems| - k
  {
    if k == |elems| then []
    else
      var here :=
        if Allowed(parentIndexes, k) then
          Walk(Some(elems[k]), rest, rest, Tail(parentIndexes), Indexed(expandedPath, k), indexes + [k])
        else [];
      here + FanOut(elems, k + 1, rest, parentIndexes, expandedPath, indexes)
  }

  /** `getProperties(object, path, parentIndexes)` with an index list that is
      present (possibly empty). */
  function GetProperties(o: Value, path: string, parentIndexes: seq<int>): seq<PropertyValue> {
    Walk(o, path, path, parentIndexes, "", [-1])
  }

  /** Whether the top frame of `getProperties` reaches an array before its
      loop ends: the point where it reads `parentIndexes.length`. */
  predicate CrossesArray(o: Value, p: string)
    decreases |p|
  {
    var dot := DotIndex(p);
    Truthy(o) && dot >= 0 &&
      (IsArray(Get(o, Seg(p))) || CrossesArray(Get(o, Seg(p)), RestOf(p)))
  }

  /** `getProperties` exactly as written: an undefined `parentIndexes` (the
      two-argument call of tree.js) throws once the walk meets an array. */
  function GetPropertiesAsWritten(o: Value, path: string, parentIndexes: Option<seq<int>>): (r: Result<seq<PropertyValue>>)
    ensures parentIndexes.Some? ==> r == Ok(GetProperties(o, path, parentIndexes.value))
    ensures parentIndexes.None? ==> (r.Thrown? <==> CrossesArray(o, path))
  {
    match parentIndexes
    case Some(pi) => Ok(GetProperties(o, path, pi))
    case None =>
      if CrossesArray(o, path) then Thrown("TypeError: Cannot read property 'length' of undefined")
      else Ok(GetProperties(o, path, []))
  }

  /** The index list with every -1 entry removed. */
  function DropUnset(s: seq<int>): (r: seq<int>)
    ensures |r| <= |s|
    ensures -1 !in r
    ensures forall x :: x in r ==> x in s
  {
    if |s| == 0 then []
    else if s[0] == -1 then DropUnset(s[1..])
    else [s[0]] + DropUnset(s[1..])
  }

  /** The loop of `getUniqueProperty` over the remaining path `p`, with the
      remaining index list (`None` when `indexes` was undefined). Every array
      met consumes one index (`shift()`); an empty list yields `undefined`. */
  function Unique(o: Value, p: string, list: Option<seq<int>>): Result<Value>
    decreases |p|
  {
    var dot := DotIndex(p);
    if Truthy(o) && dot >= 0 then
      var next := Get(o, Seg(p));
      if IsArray(next) then
        match list
        case None => Thrown("TypeError: Cannot read property 'shift' of undefined")
        case Some(l) =>
          if |l| == 0 then Unique(At(next, None), RestOf(p), Some([]))
          else Unique(At(next, Some(l[0])), RestOf(p), Some(l[1..]))
      else Unique(next, RestOf(p), list)
    else
      Ok(if Truthy(o) then Get(o, p) else o)
  }

  /** `getUniqueProperty(object, path, indexes)`. The last step yields the
      value itself when it is falsy and its field otherwise, so a falsy
      intermediate value is returned as it is. */
  function GetUniqueProperty(o: Value, path: string, indexes: Option<seq<int>>): Result<Value> {
    Unique(o, path, if indexes.Some? then Some(DropUnset(indexes.value)) else None)
  }

  // ---------------------------------------------------------------------------
  // Lemmas

  /** A frame standing on `undefined`, a falsy value or an array produces nothing. */
  lemma WalkEmpty(o: Value, p: string, fp: string, pi: seq<int>, ep: string, idx: seq<int>)
    requires !Truthy(o) || IsArray(o)
    ensures Walk(o, p, fp, pi, ep, idx) == []
    decreases |p|
  {
    var dot := DotIndex(p);
    if Truthy(o) && dot >= 0 {
      assert Get(o, Seg(p)) == None;
      WalkEmpty(None, RestOf(p), fp, pi, ep, idx + [-1]);
    }
  }

  /** Membership in a fan-out: a result comes from exactly one admitted element. */
  lemma FanOutMember(elems: seq<Json>, k: nat, rest: string, pi: seq<int>, ep: string,
                     idx: seq<int>, r: PropertyValue)
    requires k <= |elems|
    ensures r in FanOut(elems, k, rest, pi, ep, idx) <==>
      exists i :: k <= i < |elems| && Allowed(pi, i) &&
        r in Walk(Some(elems[i]), rest, rest, Tail(pi), Indexed(ep, i), idx + [i])
    decreases |elems| - k
  {
    if k < |elems| {
      FanOutStep(elems, k, rest, pi, ep, idx);
      FanOutMember(elems, k + 1, rest, pi, ep, idx, r);
    }
  }

  /** One element of the fan-out: its own results, then the later ones'. */
  lemma FanOutStep(elems: seq<Json>, k: nat, rest: string, pi: seq<int>, ep: string, idx: seq<int>)
    requires k < |elems|
    ensures FanOut(elems, k, rest, pi, ep, idx) ==
      (if Allowed(pi, k) then Walk(Some(elems[k]), rest, rest, Tail(pi), Indexed(ep, k), idx + [k]) else []) +
      FanOut(elems, k + 1, rest, pi, ep, idx)
  {
  }

  lemma {:induction false} DotCountSplit(p: string)
    requires DotIndex(p) >= 0
    ensures DotCount(p) == 1 + DotCount(RestOf(p))
  {
    if p[0] != '.' {
      DotCountSplit(p[1..]);
      assert RestOf(p[1..]) == RestOf(p);
    }
  }

  /** One loop step of a frame that meets an array: the results are the fan-out's. */
  lemma WalkArrayStep(o: Value, p: string, fp: string, pi: seq<int>, ep: string, idx: seq<int>)
    requires Truthy(o) && DotIndex(p) >= 0 && IsArray(Get(o, Seg(p)))
    ensures Walk(o, p, fp, pi, ep, idx) ==
      FanOut(Get(o, Seg(p)).value.elems, 0, RestOf(p), pi, Append(ep, Seg(p)), idx)
  {
    var dot := DotIndex(p);
    WalkEmpty(Get(o, Seg(p)), p, fp, pi, Append(ep, Seg(p)), idx);
  }

  /** One loop step of a frame over a field that is not an array. */
  lemma WalkPlainStep(o: Value, p: string, fp: string, pi: seq<int>, ep: string, idx: seq<int>)
    requires Truthy(o) && DotIndex(p) >= 0 && !IsArray(Get(o, Seg(p)))
    ensures Walk(o, p, fp, pi, ep, idx) ==
      Walk(Get(o, Seg(p)), RestOf(p), fp, pi, Append(ep, Seg(p)), idx + [-1])
  {
  }

  /** A frame whose loop is over reads its last field, whatever `parentIndexes` holds. */
  lemma WalkLeafStep(o: Value, p: string, fp: string, pi: seq<int>, ep: string, idx: seq<int>)
    requires !(Truthy(o) && DotIndex(p) >= 0)
    ensures Walk(o, p, fp, pi, ep, idx) == Walk(o, p, fp, [], ep, idx)
  {
  }

  /** The element a fan-out result came from. */
  lemma {:induction false} FanOutSource(elems: seq<Json>, k: nat, rest: string, pi: seq<int>, ep: string,
                                        idx: seq<int>, r: PropertyValue) returns (i: nat)
    requires k <= |elems|
    requires r in FanOut(elems, k, rest, pi, ep, idx)
    ensures k <= i < |elems| && Allowed(pi, i)
    ensures r in Walk(Some(elems[i]), rest, rest, Tail(pi), Indexed(ep, i), idx + [i])
    decreases |elems| - k
  {
    if Allowed(pi, k) && r in Walk(Some(elems[k]), rest, rest, Tail(pi), Indexed(ep, k), idx + [k]) {
      i := k;
    } else {
      i := FanOutSource(elems, k + 1, rest, pi, ep, idx, r);
    }
  }

  lemma DropUnsetCons(i: int, s: seq<int>)
    requires i != -1
    ensures DropUnset([i] + s) == [i] + DropUnset(s)
  {
    assert ([i] + s)[1..] == s;
  }

  /** Shape of every result of a frame: its index list extends the frame's
      by one entry per remaining '.', each entry -1 or an element position. */
  lemma {:induction false} WalkShape(o: Value, p: string, fp: string, pi: seq<int>, ep: string,
                                     idx: seq<int>, r: PropertyValue)
    requires r in Walk(o, p, fp, pi, ep, idx)
    ensures |r.indexes| == |idx| + DotCount(p)
    ensures r.indexes[..|idx|] == idx
    ensures forall k :: |idx| <= k < |r.indexes| ==> r.indexes[k] >= -1
    decreases |p|, ArrayRank(o), 1
  {
    var dot := DotIndex(p);
    if Truthy(o) && dot >= 0 {
      if IsArray(Get(o, Seg(p))) {
        WalkShapeArray(o, p, fp, pi, ep, idx, r);
      } else {
        WalkShapePlain(o, p, fp, pi, ep, idx, r);
      }
    } else if dot < 0 {
      DotFreeCount(p);
    }
  }

  /** Extending an index list by one entry and then by a well-shaped tail. */
  lemma ShapeStep(idx: seq<int>, j: int, r: PropertyValue, n: nat)
    requires j >= -1
    requires |r.indexes| == |idx| + 1 + n && r.indexes[..|idx| + 1] == idx + [j]
    requires forall k :: |idx| + 1 <= k < |r.indexes| ==> r.indexes[k] >= -1
    ensures |r.indexes| == |idx| + 1 + n
    ensures r.indexes[..|idx|] == idx
    ensures forall k :: |idx| <= k < |r.indexes| ==> r.indexes[k] >= -1
  {
    assert r.indexes[..|idx|] == (idx + [j])[..|idx|];
    assert r.indexes[|idx|] == (idx + [j])[|idx|];
  }

  lemma {:induction false} WalkShapeArray(o: Value, p: string, fp: string, pi: seq<int>, ep: string,
                                          idx: seq<int>, r: PropertyValue)
    requires Truthy(o) && DotIndex(p) >= 0 && IsArray(Get(o, Seg(p)))
    requires r in Walk(o, p, fp, pi, ep, idx)
    ensures |r.indexes| == |idx| + DotCount(p)
    ensures r.indexes[..|idx|] == idx
    ensures forall k :: |idx| <= k < |r.indexes| ==> r.indexes[k] >= -1
    decreases |p|, ArrayRank(o), 0
  {
    var elems := Get(o, Seg(p)).value.elems;
    var ep' := Append(ep, Seg(p));
    var rest := RestOf(p);
    DotCountSplit(p);
    WalkArrayStep(o, p, fp, pi, ep, idx);
    var i := FanOutSource(elems, 0, rest, pi, ep', idx, r);
    WalkShape(Some(elems[i]), rest, rest, Tail(pi), Indexed(ep', i), idx + [i], r);
    ShapeStep(idx, i, r, DotCount(rest));
  }

  lemma {:induction false} WalkShapePlain(o: Value, p: string, fp: string, pi: seq<int>, ep: string,
                                          idx: seq<int>, r: PropertyValue)
    requires Truthy(o) && DotIndex(p) >= 0 && !IsArray(Get(o, Seg(p)))
    requires r in Walk(o, p, fp, pi, ep, idx)
    ensures |r.indexes| == |idx| + DotCount(p)
    ensures r.indexes[..|idx|] == idx
    ensures forall k :: |idx| <= k < |r.indexes| ==> r.indexes[k] >= -1
    decreases |p|, ArrayRank(o), 0
  {
    var rest := RestOf(p);
    DotCountSplit(p);
    WalkPlainStep(o, p, fp, pi, ep, idx);
    WalkShape(Get(o, Seg(p)), rest, fp, pi, Append(ep, Seg(p)), idx + [-1], r);
    ShapeStep(idx, -1, r, DotCount(rest));
  }

  /** Falsy or missing terminal values never become results. */
  lemma {:induction false} WalkTruthy(o: Value, p: string, fp: string, pi: seq<int>, ep: string,
                                      idx: seq<int>, r: PropertyValue)
    requires r in Walk(o, p, fp, pi, ep, idx)
    ensures Truthy(Some(r.value))
    decreases |p|, ArrayRank(o)
  {
    var dot := DotIndex(p);
    if Truthy(o) && dot >= 0 {
      var sub := Seg(p);
      var next := Get(o, sub);
      var ep' := Append(ep, sub);
      var rest := RestOf(p);
      if IsArray(next) {
        WalkArrayStep(o, p, fp, pi, ep, idx);
        var elems := next.value.elems;
        var i := FanOutSource(elems, 0, rest, pi, ep', idx, r);
        WalkTruthy(Some(elems[i]), rest, rest, Tail(pi), Indexed(ep', i), idx + [i], r);
      } else {
        WalkPlainStep(o, p, fp, pi, ep, idx);
        WalkTruthy(next, rest, fp, pi, ep', idx + [-1], r);
      }
    } else {
      assert Some(r.value) == Get(o, p);
    }
  }

  lemma {:induction false} DotFreeCount(p: string)
    requires '.' !in p
    ensures DotCount(p) == 0
  {
    if |p| > 0 {
      assert '.' !in p[1..] by { assert forall c :: c in p[1..] ==> c in p; }
      DotFreeCount(p[1..]);
    }
  }

  /** Replaying a result's own index list picks out the same value again. */
  lemma {:induction false} WalkReplay(o: Value, p: string, fp: string, pi: seq<int>, ep: string,
                                      idx: seq<int>, r: PropertyValue)
    requires r in Walk(o, p, fp, pi, ep, idx)
    ensures |idx| <= |r.indexes| && r.indexes[..|idx|] == idx
    ensures Unique(o, p, Some(DropUnset(r.indexes[|idx|..]))) == Ok(Some(r.value))
    decreases |p|, ArrayRank(o), 1
  {
    WalkShape(o, p, fp, pi, ep, idx, r);
    var dot := DotIndex(p);
    if Truthy(o) && dot >= 0 {
      if IsArray(Get(o, Seg(p))) {
        WalkReplayArray(o, p, fp, pi, ep, idx, r);
      } else {
        WalkReplayPlain(o, p, fp, pi, ep, idx, r);
      }
    } else {
      assert r.indexes == idx;
    }
  }

  lemma {:induction false} WalkReplayArray(o: Value, p: string, fp: string, pi: seq<int>, ep: string,
                                           idx: seq<int>, r: PropertyValue)
    requires Truthy(o) && DotIndex(p) >= 0 && IsArray(Get(o, Seg(p)))
    requires r in Walk(o, p, fp, pi, ep, idx)
    ensures |idx| <= |r.indexes| && r.indexes[..|idx|] == idx
    ensures Unique(o, p, Some(DropUnset(r.indexes[|idx|..]))) == Ok(Some(r.value))
    decreases |p|, ArrayRank(o), 0
  {
    var next := Get(o, Seg(p));
    var elems := next.value.elems;
    var ep' := Append(ep, Seg(p));
    var rest := RestOf(p);
    WalkArrayStep(o, p, fp, pi, ep, idx);
    var i := FanOutSource(elems, 0, rest, pi, ep', idx, r);
    WalkReplay(Some(elems[i]), rest, rest, Tail(pi), Indexed(ep', i), idx + [i], r);
    ArrayStepIndexes(idx, i, r);
    assert At(next, Some(i)) == Some(elems[i]);
    UniqueArrayStep(o, p, i, DropUnset(r.indexes[|idx| + 1..]));
  }

  lemma {:induction false} WalkReplayPlain(o: Value, p: string, fp: string, pi: seq<int>, ep: string,
                                           idx: seq<int>, r: PropertyValue)
    requires Truthy(o) && DotIndex(p) >= 0 && !IsArray(Get(o, Seg(p)))
    requires r in Walk(o, p, fp, pi, ep, idx)
    ensures |idx| <= |r.indexes| && r.indexes[..|idx|] == idx
    ensures Unique(o, p, Some(DropUnset(r.indexes[|idx|..]))) == Ok(Some(r.value))
    decreases |p|, ArrayRank(o), 0
  {
    var next := Get(o, Seg(p));
    var rest := RestOf(p);
    WalkPlainStep(o, p, fp, pi, ep, idx);
    WalkReplay(next, rest, fp, pi, Append(ep, Seg(p)), idx + [-1], r);
    PlainStepIndexes(idx, r);
    assert r.indexes[..|idx|] == (idx + [-1])[..|idx|];
  }

  /** The index list of a result recorded after an array step at element `i`. */
  lemma ArrayStepIndexes(idx: seq<int>, i: nat, r: PropertyValue)
    requires |idx| + 1 <= |r.indexes| && r.indexes[..|idx| + 1] == idx + [i]
    ensures r.indexes[..|idx|] == idx
    ensures DropUnset(r.indexes[|idx|..]) == [i] + DropUnset(r.indexes[|idx| + 1..])
  {
    var ext := r.indexes[|idx| + 1..];
    assert r.indexes[..|idx|] == (idx + [i])[..|idx|];
    assert r.indexes[|idx|] == (idx + [i])[|idx|] == i;
    assert r.indexes[|idx|..] == [i] + ext;
    DropUnsetCons(i, ext);
  }

  /** The step of `getUniqueProperty` over an array field with an index left. */
  lemma UniqueArrayStep(o: Value, p: string, i: int, l: seq<int>)
    requires Truthy(o) && DotIndex(p) >= 0 && IsArray(Get(o, Seg(p)))
    ensures Unique(o, p, Some([i] + l)) == Unique(At(Get(o, Seg(p)), Some(i)), RestOf(p), Some(l))
  {
    assert ([i] + l)[1..] == l;
  }

  /** Round trip: every value `getProperties` reports is what `getUniqueProperty`
      returns when given the same path and the result's index list (the way
      tree.js renders labels and tooltips). */
  lemma RoundTrip(o: Value, path: string, parentIndexes: seq<int>, r: PropertyValue)
    requires r in GetProperties(o, path, parentIndexes)
    ensures GetUniqueProperty(o, path, Some(r.indexes)) == Ok(Some(r.value))
  {
    WalkReplay(o, path, path, parentIndexes, "", [-1], r);
    var ext := r.indexes[1..];
    assert r.indexes == [-1] + ext;
    assert ([-1] + ext)[1..] == ext;
  }

  /** An element admitted by the fan-out contributes its results. */
  lemma {:induction false} FanOutInclude(elems: seq<Json>, k: nat, rest: string, pi: seq<int>, ep: string,
                                         idx: seq<int>, i: nat, r: PropertyValue)
    requires k <= i < |elems| && Allowed(pi, i)
    requires r in Walk(Some(elems[i]), rest, rest, Tail(pi), Indexed(ep, i), idx + [i])
    ensures r in FanOut(elems, k, rest, pi, ep, idx)
    decreases i - k
  {
    FanOutStep(elems, k, rest, pi, ep, idx);
    if k < i {
      FanOutInclude(elems, k + 1, rest, pi, ep, idx, i, r);
    }
  }

  /** Every entry of the replay list agrees with `parentIndexes` wherever the
      latter holds something other than -1. */
  predicate Consistent(chosen: seq<int>, parentIndexes: seq<int>) {
    forall k :: 0 <= k < |chosen| && k < |parentIndexes| ==>
      parentIndexes[k] == -1 || chosen[k] == parentIndexes[k]
  }

  lemma ConsistentCons(i: int, chosen: seq<int>, pi: seq<int>)
    ensures Consistent([i] + chosen, pi) <==> Allowed(pi, i) && Consistent(chosen, Tail(pi))
  {
    if |pi| > 0 {
      if Allowed(pi, i) && Consistent(chosen, Tail(pi)) {
        forall k | 0 <= k < |[i] + chosen| && k < |pi|
          ensures pi[k] == -1 || ([i] + chosen)[k] == pi[k]
        {
          if k > 0 { assert ([i] + chosen)[k] == chosen[k - 1] && pi[k] == Tail(pi)[k - 1]; }
        }
      }
      if Consistent([i] + chosen, pi) {
        assert pi[0] == -1 || ([i] + chosen)[0] == pi[0];
        forall k | 0 <= k < |chosen| && k < |Tail(pi)|
          ensures Tail(pi)[k] == -1 || chosen[k] == Tail(pi)[k]
        {
          assert ([i] + chosen)[k + 1] == chosen[k];
        }
      }
    }
  }

  /** The array step of `WalkRestricted`, given the facts about the element's walk. */
  lemma RestrictedElement(elems: seq<Json>, rest: string, pi: seq<int>, ep: string, idx: seq<int>,
                          i: nat, r: PropertyValue)
    requires i < |elems| && Allowed(pi, i)
    requires r in Walk(Some(elems[i]), rest, rest, [], Indexed(ep, i), idx + [i])
    requires |idx| + 1 <= |r.indexes| && r.indexes[..|idx| + 1] == idx + [i]
    requires Consistent(DropUnset(r.indexes[|idx| + 1..]), Tail(pi))
    ensures r in FanOut(elems, 0, rest, [], ep, idx)
    ensures Consistent(DropUnset(r.indexes[|idx|..]), pi)
  {
    FanOutInclude(elems, 0, rest, [], ep, idx, i, r);
    ArrayStepIndexes(idx, i, r);
    ConsistentCons(i, DropUnset(r.indexes[|idx| + 1..]), pi);
  }

  /** The index list of a result recorded after a non-array step. */
  lemma PlainStepIndexes(idx: seq<int>, r: PropertyValue)
    requires |idx| + 1 <= |r.indexes| && r.indexes[..|idx| + 1] == idx + [-1]
    ensures DropUnset(r.indexes[|idx|..]) == DropUnset(r.indexes[|idx| + 1..])
  {
    var ext := r.indexes[|idx| + 1..];
    assert r.indexes[|idx|] == (idx + [-1])[|idx|] == -1;
    assert r.indexes[|idx|..] == [-1] + ext;
    assert ([-1] + ext)[1..] == ext;
  }

  /** A restricted walk finds only what the unrestricted walk finds, along
      branches consistent with `parentIndexes`. */
  lemma {:induction false} WalkRestricted(o: Value, p: string, fp: string, pi: seq<int>, ep: string,
                                          idx: seq<int>, r: PropertyValue)
    requires r in Walk(o, p, fp, pi, ep, idx)
    ensures |idx| <= |r.indexes|
    ensures r in Walk(o, p, fp, [], ep, idx)
    ensures Consistent(DropUnset(r.indexes[|idx|..]), pi)
    decreases |p|, ArrayRank(o), 1
  {
    var dot := DotIndex(p);
    if Truthy(o) && dot >= 0 {
      if IsArray(Get(o, Seg(p))) {
        WalkRestrictedArray(o, p, fp, pi, ep, idx, r);
      } else {
        WalkRestrictedPlain(o, p, fp, pi, ep, idx, r);
      }
    } else {
      WalkLeafStep(o, p, fp, pi, ep, idx);
      WalkShape(o, p, fp, pi, ep, idx, r);
      assert r.indexes[|idx|..] == [];
    }
  }

  lemma {:induction false} WalkRestrictedArray(o: Value, p: string, fp: string, pi: seq<int>, ep: string,
                                               idx: seq<int>, r: PropertyValue)
    requires Truthy(o) && DotIndex(p) >= 0 && IsArray(Get(o, Seg(p)))
    requires r in Walk(o, p, fp, pi, ep, idx)
    ensures |idx| <= |r.indexes|
    ensures r in Walk(o, p, fp, [], ep, idx)
    ensures Consistent(DropUnset(r.indexes[|idx|..]), pi)
    decreases |p|, ArrayRank(o), 0
  {
    var dot := DotIndex(p);
    var next := Get(o, Seg(p));
    var ep' := Append(ep, Seg(p));
    var rest := RestOf(p);
    WalkArrayStep(o, p, fp, pi, ep, idx);
    WalkArrayStep(o, p, fp, [], ep, idx);
    var elems := next.value.elems;
    var i := FanOutSource(elems, 0, rest, pi, ep', idx, r);
    WalkRestricted(Some(elems[i]), rest, rest, Tail(pi), Indexed(ep', i), idx + [i], r);
    WalkShape(Some(elems[i]), rest, rest, Tail(pi), Indexed(ep', i), idx + [i], r);
    RestrictedElement(elems, rest, pi, ep', idx, i, r);
  }

  lemma {:induction false} WalkRestrictedPlain(o: Value, p: string, fp: string, pi: seq<int>, ep: string,
                                               idx: seq<int>, r: PropertyValue)
    requires Truthy(o) && DotIndex(p) >= 0 && !IsArray(Get(o, Seg(p)))
    requires r in Walk(o, p, fp, pi, ep, idx)
    ensures |idx| <= |r.indexes|
    ensures r in Walk(o, p, fp, [], ep, idx)
    ensures Consistent(DropUnset(r.indexes[|idx|..]), pi)
    decreases |p|, ArrayRank(o), 0
  {
    var dot := DotIndex(p);
    var next := Get(o, Seg(p));
    var ep' := Append(ep, Seg(p));
    var rest := RestOf(p);
    WalkPlainStep(o, p, fp, pi, ep, idx);
    WalkPlainStep(o, p, fp, [], ep, idx);
    WalkRestricted(next, rest, fp, pi, ep', idx + [-1], r);
    WalkShape(next, rest, fp, pi, ep', idx + [-1], r);
    PlainStepIndexes(idx, r);
  }

  /** The array step of `WalkAdmitted`. */
  lemma AdmittedElement(elems: seq<Json>, rest: string, pi: seq<int>, ep: string, idx: seq<int>,
                        i: nat, r: PropertyValue)
    requires i < |elems|
    requires |idx| + 1 <= |r.indexes| && r.indexes[..|idx| + 1] == idx + [i]
    requires Consistent(DropUnset(r.indexes[|idx|..]), pi)
    ensures Allowed(pi, i)
    ensures Consistent(DropUnset(r.indexes[|idx| + 1..]), Tail(pi))
  {
    var ext := r.indexes[|idx| + 1..];
    assert r.indexes[|idx|] == (idx + [i])[|idx|] == i;
    assert r.indexes[|idx|..] == [i] + ext;
    DropUnsetCons(i, ext);
    ConsistentCons(i, DropUnset(ext), pi);
  }

  /** Conversely, every unrestricted result consistent with `parentIndexes`
      is found by the restricted walk. */
  lemma {:induction false} WalkAdmitted(o: Value, p: string, fp: string, pi: seq<int>, ep: string,
                                        idx: seq<int>, r: PropertyValue)
    requires r in Walk(o, p, fp, [], ep, idx)
    requires |idx| <= |r.indexes| && Consistent(DropUnset(r.indexes[|idx|..]), pi)
    ensures r in Walk(o, p, fp, pi, ep, idx)
    decreases |p|, ArrayRank(o)
  {
    var dot := DotIndex(p);
    if Truthy(o) && dot >= 0 {
      var next := Get(o, Seg(p));
      var ep' := Append(ep, Seg(p));
      var rest := RestOf(p);
      if IsArray(next) {
        WalkArrayStep(o, p, fp, pi, ep, idx);
        WalkArrayStep(o, p, fp, [], ep, idx);
        var elems := next.value.elems;
        var i := FanOutSource(elems, 0, rest, [], ep', idx, r);
        WalkShape(Some(elems[i]), rest, rest, [], Indexed(ep', i), idx + [i], r);
        AdmittedElement(elems, rest, pi, ep', idx, i, r);
        WalkAdmitted(Some(elems[i]), rest, rest, Tail(pi), Indexed(ep', i), idx + [i], r);
        FanOutInclude(elems, 0, rest, pi, ep', idx, i, r);
      } else {
        WalkPlainStep(o, p, fp, pi, ep, idx);
        WalkPlainStep(o, p, fp, [], ep, idx);
        WalkShape(next, rest, fp, [], ep', idx + [-1], r);
        PlainStepIndexes(idx, r);
        WalkAdmitted(next, rest, fp, pi, ep', idx + [-1], r);
      }
    }
  }

  /** `parentIndexes` restricts the fan-out: a result is found with it exactly
      when it is found without it and its array positions agree with every
      entry of `parentIndexes` that is not -1. */
  lemma RestrictedResults(o: Value, path: string, parentIndexes: seq<int>, r: PropertyValue)
    ensures r in GetProperties(o, path, parentIndexes) <==>
      r in GetProperties(o, path, []) && Consistent(DropUnset(r.indexes), parentIndexes)
  {
    if r in GetProperties(o, path, parentIndexes) {
      WalkRestricted(o, path, path, parentIndexes, "", [-1], r);
      WalkShape(o, path, path, parentIndexes, "", [-1], r);
      assert r.indexes[..1] == [-1];
      assert r.indexes[0] == r.indexes[..1][0] == -1;
      assert r.indexes == [r.indexes[0]] + r.indexes[1..];
      assert r.indexes == [-1] + r.indexes[1..];
      assert ([-1] + r.indexes[1..])[1..] == r.indexes[1..];
    }
    if r in GetProperties(o, path, []) && Consistent(DropUnset(r.indexes), parentIndexes) {
      WalkShape(o, path, path, [], "", [-1], r);
      assert r.indexes[..1] == [-1];
      assert r.indexes[0] == r.indexes[..1][0] == -1;
      assert r.indexes == [r.indexes[0]] + r.indexes[1..];
      assert r.indexes == [-1] + r.indexes[1..];
      assert ([-1] + r.indexes[1..])[1..] == r.indexes[1..];
      WalkAdmitted(o, path, path, parentIndexes, "", [-1], r);
    }
  }

  /** A dot-free path reads one field: at most one result, with indexes [-1]. */
  lemma DotFreePath(o: Value, path: string, parentIndexes: seq<int>)
    requires '.' !in path
    ensures GetProperties(o, path, parentIndexes) ==
      (if Truthy(o) && Truthy(Get(o, path))
       then [PropertyValue(Get(o, path).value, [-1], path, path, o.value)]
       else [])
  {
  }

  /** A missing (or falsy) first field of a dotted path yields no results
      rather than an error; `MissingAnywhere` extends this to any depth. */
  lemma MissingIntermediate(o: Value, path: string, parentIndexes: seq<int>)
    requires DotIndex(path) >= 0
    requires !Truthy(Get(o, Seg(path)))
    ensures GetProperties(o, path, parentIndexes) == []
  {
    var dot := DotIndex(path);
    if Truthy(o) {
      WalkPlainStep(o, path, path, parentIndexes, "", [-1]);
      WalkEmpty(Get(o, Seg(path)), RestOf(path), path, parentIndexes, Seg(path), [-1] + [-1]);
    }
  }

  /** A '.' with none before it is the first '.'. */
  lemma FirstDot(p: string, e: nat)
    requires e < |p| && p[e] == '.' && '.' !in p[..e]
    ensures DotIndex(p) == e
  {
    assert p[e] in p;
  }

  /** Splitting a path at a '.' after `pre`: the first segment and the rest
      are those of `pre` when `pre` has a dot, and `pre` and `rest` otherwise. */
  lemma DotSplit(pre: string, rest: string)
    ensures var p := pre + "." + rest;
      DotIndex(p) >= 0 &&
      (DotIndex(pre) >= 0 ==> Seg(p) == Seg(pre) && RestOf(p) == RestOf(pre) + "." + rest) &&
      (DotIndex(pre) < 0 ==> Seg(p) == pre && RestOf(p) == rest)
  {
    var p := pre + "." + rest;
    var d := DotIndex(pre);
    if d >= 0 {
      assert p[..d] == pre[..d];
      FirstDot(p, d);
      assert p[d + 1..] == pre[d + 1..] + "." + rest;
    } else {
      assert p[..|pre|] == pre;
      FirstDot(p, |pre|);
      assert p[|pre| + 1..] == rest;
    }
  }

  /** Within a frame: if the longer path yields a result, the prefix yields
      one too, under the same index list. */
  lemma {:induction false} WalkPrefix(o: Value, pre: string, rest: string, fp: string, fp': string,
                                      pi: seq<int>, ep: string, idx: seq<int>, r: PropertyValue)
    requires r in Walk(o, pre + "." + rest, fp, pi, ep, idx)
    ensures Walk(o, pre, fp', pi, ep, idx) != []
    decreases |pre|
  {
    var p := pre + "." + rest;
    DotSplit(pre, rest);
    if !Truthy(o) {
      WalkEmpty(o, p, fp, pi, ep, idx);
    } else {
      var next := Get(o, Seg(p));
      var ep' := Append(ep, Seg(p));
      if DotIndex(pre) < 0 {
        if !IsArray(next) {
          WalkPlainStep(o, p, fp, pi, ep, idx);
          if !Truthy(next) {
            WalkEmpty(next, rest, fp, pi, ep', idx + [-1]);
          }
        }
        assert Truthy(Get(o, pre));
      } else if IsArray(next) {
        var elems := next.value.elems;
        WalkArrayStep(o, p, fp, pi, ep, idx);
        WalkArrayStep(o, pre, fp', pi, ep, idx);
        var i := FanOutSource(elems, 0, RestOf(p), pi, ep', idx, r);
        WalkPrefix(Some(elems[i]), RestOf(pre), rest, RestOf(p), RestOf(pre), Tail(pi), Indexed(ep', i), idx + [i], r);
        var w := Walk(Some(elems[i]), RestOf(pre), RestOf(pre), Tail(pi), Indexed(ep', i), idx + [i]);
        FanOutInclude(elems, 0, RestOf(pre), pi, ep', idx, i, w[0]);
      } else {
        WalkPlainStep(o, p, fp, pi, ep, idx);
        WalkPlainStep(o, pre, fp', pi, ep, idx);
        WalkPrefix(next, RestOf(pre), rest, fp, fp', pi, ep', idx + [-1], r);
      }
    }
  }

  /** A missing or falsy field anywhere along the path, not only in the first
      segment: when the path up to some '.' yields no value in any element of
      any array crossed, the whole path yields an empty result list. */
  lemma MissingAnywhere(o: Value, pre: string, rest: string, parentIndexes: seq<int>)
    requires GetProperties(o, pre, []) == []
    ensures GetProperties(o, pre + "." + rest, parentIndexes) == []
  {
    var path := pre + "." + rest;
    if GetProperties(o, path, parentIndexes) != [] {
      WalkPrefix(o, pre, rest, path, pre, parentIndexes, "", [-1], GetProperties(o, path, parentIndexes)[0]);
      var s := GetProperties(o, pre, parentIndexes)[0];
      RestrictedResults(o, pre, parentIndexes, s);
      assert false;
    }
  }

  /** `x` comes strictly before `y`: they agree up to some position where `x` is smaller. */
  predicate Before(x: seq<int>, y: seq<int>) {
    exists k :: 0 <= k < |x| && k < |y| && x[..k] == y[..k] && x[k] < y[k]
  }

  /** Results in strictly increasing order of their index lists. */
  predicate InIndexOrder(rs: seq<PropertyValue>) {
    forall a, b :: 0 <= a < b < |rs| ==> Before(rs[a].indexes, rs[b].indexes)
  }

  lemma BeforeAt(x: seq<int>, y: seq<int>, k: nat)
    requires k < |x| && k < |y| && x[..k] == y[..k] && x[k] < y[k]
    ensures Before(x, y)
  {
  }

  /** The results of a frame come in strictly increasing order of their index lists. */
  lemma {:induction false} WalkOrdered(o: Value, p: string, fp: string, pi: seq<int>, ep: string, idx: seq<int>)
    ensures InIndexOrder(Walk(o, p, fp, pi, ep, idx))
    decreases |p|, ArrayRank(o), 0
  {
    var dot := DotIndex(p);
    if Truthy(o) && dot >= 0 {
      var next := Get(o, Seg(p));
      if IsArray(next) {
        WalkArrayStep(o, p, fp, pi, ep, idx);
        FanOutOrdered(next.value.elems, 0, RestOf(p), pi, Append(ep, Seg(p)), idx);
      } else {
        WalkPlainStep(o, p, fp, pi, ep, idx);
        WalkOrdered(next, RestOf(p), fp, pi, Append(ep, Seg(p)), idx + [-1]);
      }
    }
  }

  /** Every result of a fan-out from element `k` on records an element position at least `k`. */
  lemma FanOutPositions(elems: seq<Json>, k: nat, rest: string, pi: seq<int>, ep: string,
                        idx: seq<int>, r: PropertyValue)
    requires k <= |elems|
    requires r in FanOut(elems, k, rest, pi, ep, idx)
    ensures |idx| < |r.indexes| && r.indexes[..|idx|] == idx && r.indexes[|idx|] >= k
  {
    var i := FanOutSource(elems, k, rest, pi, ep, idx, r);
    WalkShape(Some(elems[i]), rest, rest, Tail(pi), Indexed(ep, i), idx + [i], r);
    assert r.indexes[..|idx|] == (idx + [i])[..|idx|];
    assert r.indexes[|idx|] == (idx + [i])[|idx|];
  }

  /** A result of element `k` comes before every result of the later elements. */
  lemma HereBeforeTail(elems: seq<Json>, k: nat, rest: string, pi: seq<int>, ep: string,
                       idx: seq<int>, x: PropertyValue, y: PropertyValue)
    requires k < |elems|
    requires x in Walk(Some(elems[k]), rest, rest, Tail(pi), Indexed(ep, k), idx + [k])
    requires y in FanOut(elems, k + 1, rest, pi, ep, idx)
    ensures Before(x.indexes, y.indexes)
  {
    WalkShape(Some(elems[k]), rest, rest, Tail(pi), Indexed(ep, k), idx + [k], x);
    FanOutPositions(elems, k + 1, rest, pi, ep, idx, y);
    EarlierPosition(x.indexes, y.indexes, idx, k);
  }

  /** An index list extending `idx + [k]` comes before one extending `idx`
      with a later position. */
  lemma EarlierPosition(a: seq<int>, b: seq<int>, idx: seq<int>, k: int)
    requires |idx| + 1 <= |a| && a[..|idx| + 1] == idx + [k]
    requires |idx| < |b| && b[..|idx|] == idx && b[|idx|] >= k + 1
    ensures Before(a, b)
  {
    assert a[..|idx|] == (idx + [k])[..|idx|];
    assert a[|idx|] == (idx + [k])[|idx|];
    BeforeAt(a, b, |idx|);
  }

  /** Two ordered runs, every element of the first before every element of
      the second, make an ordered run. */
  lemma ConcatOrdered(xs: seq<PropertyValue>, ys: seq<PropertyValue>)
    requires InIndexOrder(xs) && InIndexOrder(ys)
    requires forall x, y :: x in xs && y in ys ==> Before(x.indexes, y.indexes)
    ensures InIndexOrder(xs + ys)
  {
    var f := xs + ys;
    forall a, b | 0 <= a < b < |f|
      ensures Before(f[a].indexes, f[b].indexes)
    {
      if b < |xs| {
        assert f[a] == xs[a] && f[b] == xs[b];
      } else if a >= |xs| {
        assert f[a] == ys[a - |xs|] && f[b] == ys[b - |xs|];
      } else {
        assert f[a] == xs[a] && f[b] == ys[b - |xs|];
      }
    }
  }

  /** Everything one allowed element yields comes before everything the later
      elements yield. */
  lemma HereBeforeRest(elems: seq<Json>, k: nat, rest: string, pi: seq<int>, ep: string,
                       idx: seq<int>)
    requires k < |elems|
    ensures forall x, y | x in Walk(Some(elems[k]), rest, rest, Tail(pi), Indexed(ep, k), idx + [k]) &&
                          y in FanOut(elems, k + 1, rest, pi, ep, idx) :: Before(x.indexes, y.indexes)
  {
    forall x, y | x in Walk(Some(elems[k]), rest, rest, Tail(pi), Indexed(ep, k), idx + [k]) &&
                  y in FanOut(elems, k + 1, rest, pi, ep, idx)
      ensures Before(x.indexes, y.indexes)
    {
      HereBeforeTail(elems, k, rest, pi, ep, idx, x, y);
    }
  }

  /** One element of the fan-out keeps it ordered, given that its own walk
      and the later elements' fan-out are. */
  lemma FanOutOrderedStep(elems: seq<Json>, k: nat, rest: string, pi: seq<int>, ep: string,
                          idx: seq<int>)
    requires k < |elems|
    requires Allowed(pi, k) ==>
               InIndexOrder(Walk(Some(elems[k]), rest, rest, Tail(pi), Indexed(ep, k), idx + [k]))
    requires InIndexOrder(FanOut(elems, k + 1, rest, pi, ep, idx))
    ensures InIndexOrder(FanOut(elems, k, rest, pi, ep, idx))
  {
    var tail := FanOut(elems, k + 1, rest, pi, ep, idx);
    FanOutStep(elems, k, rest, pi, ep, idx);
    if Allowed(pi, k) {
      HereBeforeRest(elems, k, rest, pi, ep, idx);
      ConcatOrdered(Walk(Some(elems[k]), rest, rest, Tail(pi), Indexed(ep, k), idx + [k]), tail);
    } else {
      assert [] + tail == tail;
    }
  }

  lemma {:induction false} FanOutOrdered(elems: seq<Json>, k: nat, rest: string, pi: seq<int>,
                                         ep: string, idx: seq<int>)
    requires k <= |elems|
    ensures InIndexOrder(FanOut(elems, k, rest, pi, ep, idx))
    decreases |rest|, 2, |elems| - k
  {
    if k < |elems| {
      FanOutOrdered(elems, k + 1, rest, pi, ep, idx);
      if Allowed(pi, k) {
        WalkOrdered(Some(elems[k]), rest, rest, Tail(pi), Indexed(ep, k), idx + [k]);
      }
      FanOutOrderedStep(elems, k, rest, pi, ep, idx);
    }
  }

  /** Every result of `getProperties` carries one index per path segment,
      starting with -1, and a truthy value. */
  lemma ResultShape(o: Value, path: string, parentIndexes: seq<int>, r: PropertyValue)
    requires r in GetProperties(o, path, parentIndexes)
    ensures |r.indexes| == 1 + DotCount(path)
    ensures r.indexes[0] == -1
    ensures forall k :: 0 <= k < |r.indexes| ==> r.indexes[k] >= -1
    ensures Truthy(Some(r.value))
  {
    WalkShape(o, path, path, parentIndexes, "", [-1], r);
    WalkTruthy(o, path, path, parentIndexes, "", [-1], r);
    assert r.indexes[0] == r.indexes[..1][0];
  }

  /** Results come in strictly increasing (lexicographic) order of their index
      lists: array elements are visited in element order. */
  lemma ResultsInElementOrder(o: Value, path: string, parentIndexes: seq<int>)
    ensures InIndexOrder(GetProperties(o, path, parentIndexes))
  {
    var rs := GetProperties(o, path, parentIndexes);
    assert rs == Walk(o, path, path, parentIndexes, "", [-1]);
    WalkOrdered(o, path, path, parentIndexes, "", [-1]);
  }

  /** Fan-out over one array: for a path `seg.leaf` whose `seg` is an array,
      the results are exactly the truthy `leaf` fields of the admitted elements,
      each tagged with [-1, position]. */
  lemma ArrayFanOut(o: Value, seg: string, leaf: string, parentIndexes: seq<int>, r: PropertyValue)
    requires '.' !in seg && '.' !in leaf
    requires Truthy(o) && IsArray(Get(o, seg))
    ensures var elems := Get(o, seg).value.elems;
      r in GetProperties(o, seg + "." + leaf, parentIndexes) <==>
        exists i :: 0 <= i < |elems| && Allowed(parentIndexes, i) &&
          Truthy(Some(elems[i])) && Truthy(Get(Some(elems[i]), leaf)) &&
          r == PropertyValue(Get(Some(elems[i]), leaf).value, [-1, i], leaf,
                             Indexed(seg, i) + "." + leaf, elems[i])
  {
    var path := seg + "." + leaf;
    var elems := Get(o, seg).value.elems;
    assert path[..|seg|] == seg && path[|seg| + 1..] == leaf;
    FirstDot(path, |seg|);
    WalkArrayStep(o, path, path, parentIndexes, "", [-1]);
    FanOutMember(elems, 0, leaf, parentIndexes, seg, [-1], r);
    forall i | 0 <= i < |elems|
      ensures Walk(Some(elems[i]), leaf, leaf, Tail(parentIndexes), Indexed(seg, i), [-1] + [i]) ==
        (if Truthy(Some(elems[i])) && Truthy(Get(Some(elems[i]), leaf))
         then [PropertyValue(Get(Some(elems[i]), leaf).value, [-1, i], leaf, Indexed(seg, i) + "." + leaf, elems[i])]
         else [])
    {
      LeafWalk(elems[i], i, seg, leaf, parentIndexes);
    }
  }

  /** The walk of a dot-free leaf below element `i` of an array. */
  lemma LeafWalk(e: Json, i: int, seg: string, leaf: string, parentIndexes: seq<int>)
    requires '.' !in leaf && 0 <= i
    ensures Walk(Some(e), leaf, leaf, Tail(parentIndexes), Indexed(seg, i), [-1] + [i]) ==
      (if Truthy(Some(e)) && Truthy(Get(Some(e), leaf))
       then [PropertyValue(Get(Some(e), leaf).value, [-1, i], leaf, Indexed(seg, i) + "." + leaf, e)]
       else [])
  {
    assert [-1] + [i] == [-1, i];
  }

  /** tree.js:317 calls `getProperties(entry, child.property)` without
      `parentIndexes`. As written, any record whose path crosses an array
      (`{patchSets: [{number: 1}]}` with `patchSets.number`) makes that call
      throw, where an empty index list fans out over the elements. */
  lemma TwoArgumentCallThrows(seg: string, leaf: string, element: Json)
    requires '.' !in seg && '.' !in leaf
    requires Truthy(Get(Some(element), leaf))
    ensures var rec := Some(JObj(map[seg := JArr([element])]));
      && GetPropertiesAsWritten(rec, seg + "." + leaf, None).Thrown?
      && GetProperties(rec, seg + "." + leaf, []) ==
           [PropertyValue(Get(Some(element), leaf).value, [-1, 0], leaf, Indexed(seg, 0) + "." + leaf, element)]
  {
    var rec := Some(JObj(map[seg := JArr([element])]));
    var path := seg + "." + leaf;
    assert DotIndex(path) == |seg| by {
      assert path[|seg|] == '.' && path[..|seg|] == seg;
    }
    assert path[..|seg|] == seg && path[|seg| + 1..] == leaf;
    assert CrossesArray(rec, path);
    WalkArrayStep(rec, path, path, [], "", [-1]);
    assert [-1] + [0] == [-1, 0];
  }
}