/** The rewriting of the change query: before the query is sent, a
    `parameter:value` restriction (the branch or the project read from a
    `.gitreview` file) is substituted for the first one already present, or
    appended when none is.  The pattern `parameter:\S+` is written out as a
    predicate; `parameter` is taken literally. */
module Query {
  import opened Common

  /** The text that introduces a parameter in a query, `parameter:`. */
  function Key(parameter: string): string {
    parameter + ":"
  }

  /** A match of the pattern `key\S+` starts at position `i` of `q`: the key,
      then at least one non-space character. */
  predicate MatchAt(q: string, key: string, i: nat) {
    StartsWithAt(q, i, key) && i + |key| < |q| && !IsSpace(q[i + |key|])
  }

  /** The end of the run of non-space characters that starts at `j` (the
      greedy `\S+`). */
  function RunEnd(q: string, j: nat): (e: nat)
    requires j <= |q|
    ensures j <= e <= |q|
    ensures forall k :: j <= k < e ==> !IsSpace(q[k])
    ensures e < |q| ==> IsSpace(q[e])
    decreases |q| - j
  {
    if j == |q| || IsSpace(q[j]) then j else RunEnd(q, j + 1)
  }

  /** The leftmost match at or after `i`, the one a non-global `replace`
      rewrites. */
  function FirstMatch(q: string, key: string, i: nat): (r: Option<nat>)
    requires i <= |q|
    ensures r.Some? ==> i <= r.value < |q| && MatchAt(q, key, r.value)
    ensures r.Some? ==> forall j :: i <= j < r.value ==> !MatchAt(q, key, j)
    ensures r.None? ==> forall j :: i <= j <= |q| ==> !MatchAt(q, key, j)
    decreases |q| - i
  {
    if i == |q| then None
    else if MatchAt(q, key, i) then Some(i)
    else FirstMatch(q, key, i + 1)
  }

  /** The value the query currently gives `parameter`: the non-space run
      after the first `parameter:` that has one. */
  function ParamValue(q: string, parameter: string): Option<string> {
    var key := Key(parameter);
    match FirstMatch(q, key, 0)
    case None => None
    case Some(i) => Some(q[i + |key|..RunEnd(q, i + |key|)])
  }

  predicate NoSpace(s: string) {
    forall k :: 0 <= k < |s| ==> !IsSpace(s[k])
  }

  /** The query with the run after the key at `i` replaced by `value`. */
  function Rewrite(q: string, key: string, value: string, i: nat): (r: string)
    requires i + |key| <= |q|
    ensures |r| == |q| - (RunEnd(q, i + |key|) - (i + |key|)) + |value|
  {
    q[..i] + key + value + q[RunEnd(q, i + |key|)..]
  }

  /** `replaceOrAdd`: when `parameter:` occurs anywhere, the first
      `parameter:\S+` becomes `parameter:value`; when it does not occur,
      ` parameter:value` is appended.  A query where `parameter:` occurs but
      is never followed by a non-space character comes back unchanged. */
  function ReplaceOrAdd(q: string, parameter: string, value: string): (r: string)
    ensures IndexOf(q, Key(parameter), 0).None? ==> q <= r && r[|q|..] == " " + Key(parameter) + value
    ensures IndexOf(q, Key(parameter), 0).Some? && ParamValue(q, parameter).None? ==> r == q
    ensures ParamValue(q, parameter).Some? ==> |r| == |q| - |ParamValue(q, parameter).value| + |value|
  {
    var key := Key(parameter);
    if IndexOf(q, key, 0).Some? then
      match FirstMatch(q, key, 0)
      case None => q
      case Some(i) => Rewrite(q, key, value, i)
    else
      q + " " + key + value
  }

  /** When `parameter:\S+` occurs, only its first run changes: the query is
      kept up to the end of that `parameter:`, then holds `value`, then
      continues as it did after the old run. */
  lemma ReplaceOrAddSplices(q: string, parameter: string, value: string, i: nat)
    requires FirstMatch(q, Key(parameter), 0) == Some(i)
    ensures Spliced(q, ReplaceOrAdd(q, parameter, value), i + |Key(parameter)|,
                    RunEnd(q, i + |Key(parameter)|), value)
  {
    ReplacedIs(q, parameter, value, i);
    RewriteParts(q, Key(parameter), value, i);
  }


  /** `r` is `q` with the text between `n` and `e` replaced by `value`. */
  predicate Spliced(q: string, r: string, n: nat, e: nat, value: string) {
    n <= e <= |q| && n + |value| <= |r| &&
    r[..n] == q[..n] && r[n..n + |value|] == value && r[n + |value|..] == q[e..]
  }

  /** A rewrite keeps the query up to the end of the key, then holds `value`,
      then the query from the end of the old run on. */
  lemma RewriteParts(q: string, key: string, value: string, i: nat)
    requires StartsWithAt(q, i, key)
    ensures Spliced(q, Rewrite(q, key, value, i), i + |key|, RunEnd(q, i + |key|), value)
  {
    var n := i + |key|;
    var r := Rewrite(q, key, value, i);
    assert q[..n] == q[..i] + key;
    assert r == (q[..i] + key) + value + q[RunEnd(q, n)..];
  }

  /** Whether a match starts at `j` depends only on the characters up to the
      one after the key. */
  lemma MatchAtSamePrefix(q: string, r: string, key: string, j: nat, n: nat)
    requires j + |key| < n <= |q| && n <= |r| && q[..n] == r[..n]
    ensures MatchAt(q, key, j) == MatchAt(r, key, j)
  {
    assert q[j..j + |key|] == q[..n][j..j + |key|];
    assert r[j..j + |key|] == r[..n][j..j + |key|];
    assert q[j + |key|] == q[..n][j + |key|];
    assert r[j + |key|] == r[..n][j + |key|];
  }

  /** A match at `i` with none before it is the first match. */
  lemma FirstMatchIs(q: string, key: string, i: nat)
    requires i < |q| && MatchAt(q, key, i)
    requires forall j :: 0 <= j < i ==> !MatchAt(q, key, j)
    ensures FirstMatch(q, key, 0) == Some(i)
  {
  }

  /** The run starting at `n` is exactly `value` when `value` has no space
      and is followed by a space or the end of the text. */
  lemma RunIs(r: string, n: nat, value: string)
    requires n + |value| <= |r| && r[n..n + |value|] == value && NoSpace(value)
    requires n + |value| < |r| ==> IsSpace(r[n + |value|])
    ensures RunEnd(r, n) == n + |value|
  {
    assert forall k | n <= k < n + |value| :: r[k] == value[k - n];
  }

  /** A space-free `value` placed between `a` and a text that is empty or
      starts with a space is a whole run. */
  lemma RunAfter(a: string, value: string, c: string)
    requires NoSpace(value)
    requires c != [] ==> IsSpace(c[0])
    ensures RunEnd(a + value + c, |a|) == |a| + |value|
    ensures (a + value + c)[|a|..|a| + |value|] == value
  {
    MiddleSlice(a, value, c);
    RunIs(a + value + c, |a|, value);
  }

  lemma MiddleSlice(a: string, b: string, c: string)
    ensures (a + b + c)[|a|..|a| + |b|] == b
    ensures |a| + |b| < |a + b + c| ==> (a + b + c)[|a| + |b|] == c[0]
  {
  }

  /** A match cannot start inside the original query: the key would have
      to occur there. */
  lemma NoMatchInside(q: string, r: string, key: string, j: nat)
    requires q <= r && j + |key| <= |q|
    requires !StartsWithAt(q, j, key)
    ensures !StartsWithAt(r, j, key)
  {
    assert q[j..j + |key|] == r[j..j + |key|];
  }

  /** A match cannot cover the added space: the key has no space in it. */
  lemma NoMatchAcross(r: string, key: string, j: nat, p: nat)
    requires j <= p < j + |key| && p < |r| && r[p] == ' '
    requires !IsSpace(key[p - j])
    ensures !StartsWithAt(r, j, key)
  {
    if j + |key| <= |r| {
      assert r[j..j + |key|][p - j] == r[p];
    }
  }

  /** A match cannot start in the original query or on the added space. */
  lemma NoMatchBeforeAppended(q: string, parameter: string, value: string, j: nat)
    requires NoSpace(parameter)
    requires IndexOf(q, Key(parameter), 0).None?
    requires j <= |q|
    ensures !MatchAt(q + " " + Key(parameter) + value, Key(parameter), j)
  {
    var key := Key(parameter);
    var r := q + " " + key + value;
    assert q <= r;
    if j + |key| <= |q| {
      assert !StartsWithAt(q, j, key);
      NoMatchInside(q, r, key, j);
    } else {
      var k := |q| - j;
      assert r[|q|] == ' ';
      assert key[k] == if k < |parameter| then parameter[k] else ':';
      NoMatchAcross(r, key, j, |q|);
    }
  }

  /** No match before the appended ` parameter:value`. */
  lemma AppendedFirst(q: string, parameter: string, value: string)
    requires NoSpace(parameter) && value != [] && NoSpace(value)
    requires IndexOf(q, Key(parameter), 0).None?
    ensures FirstMatch(q + " " + Key(parameter) + value, Key(parameter), 0) == Some(|q| + 1)
  {
    var key := Key(parameter);
    var r := q + " " + key + value;
    var i := |q| + 1;
    assert r[i..i + |key|] == key;
    assert r[i + |key|] == value[0];
    forall j | 0 <= j < i
      ensures !MatchAt(r, key, j)
    {
      NoMatchBeforeAppended(q, parameter, value, j);
    }
    FirstMatchIs(r, key, i);
  }

  /** The appended case: after ` parameter:value` is added to a query that
      never mentions `parameter:`, the new restriction is the first match and
      its run is exactly `value`. */
  lemma AppendedValue(q: string, parameter: string, value: string)
    requires NoSpace(parameter) && value != [] && NoSpace(value)
    requires IndexOf(q, Key(parameter), 0).None?
    ensures var r := q + " " + Key(parameter) + value;
            FirstMatch(r, Key(parameter), 0) == Some(|q| + 1) &&
            RunEnd(r, |q| + 1 + |Key(parameter)|) == |r| &&
            r[|q| + 1 + |Key(parameter)|..] == value
  {
    var a := q + " " + Key(parameter);
    AppendedFirst(q, parameter, value);
    RunAfter(a, value, []);
    assert a + value + [] == a + value;
  }

  /** The pieces of a four-part concatenation. */
  lemma Splice(a: string, b: string, c: string, d: string)
    requires c != []
    ensures (a + b + c + d)[..|a| + |b|] == a + b
    ensures (a + b + c + d)[|a|..|a| + |b|] == b
    ensures (a + b + c + d)[|a| + |b|] == c[0]
  {
    assert a + b + c + d == (a + b) + (c + d);
  }

  /** A key followed by a non-space text is a match. */
  lemma MatchAtSplice(a: string, key: string, c: string, d: string)
    requires c != [] && NoSpace(c)
    ensures MatchAt(a + key + c + d, key, |a|)
  {
    Splice(a, key, c, d);
    assert !IsSpace(c[0]);
  }

  /** A text that agrees with `q` up to the end of the key of `q`'s first
      match, and has a match there too, has its first match there. */
  lemma PrefixKeepsFirst(q: string, r: string, key: string, i: nat)
    requires FirstMatch(q, key, 0) == Some(i)
    requires i + |key| <= |r| && q[..i + |key|] == r[..i + |key|]
    requires MatchAt(r, key, i)
    ensures FirstMatch(r, key, 0) == Some(i)
  {
    forall j | 0 <= j < i
      ensures !MatchAt(r, key, j)
    {
      MatchAtSamePrefix(q, r, key, j, i + |key|);
    }
    FirstMatchIs(r, key, i);
  }

  /** Rewriting the run after a key keeps everything up to the key. */
  lemma SplicePrefix(q: string, key: string, value: string, i: nat, e: nat)
    requires StartsWithAt(q, i, key) && i + |key| <= e <= |q| && value != []
    ensures var r := q[..i] + key + value + q[e..];
            i + |key| <= |r| && q[..i + |key|] == r[..i + |key|]
  {
    Splice(q[..i], key, value, q[e..]);
    assert q[..i + |key|] == q[..i] + q[i..i + |key|];
  }

  /** No match before the rewritten one. */
  lemma ReplacedFirst(q: string, key: string, value: string, i: nat)
    requires value != [] && NoSpace(value)
    requires FirstMatch(q, key, 0) == Some(i)
    ensures FirstMatch(Rewrite(q, key, value, i), key, 0) == Some(i)
  {
    var e := RunEnd(q, i + |key|);
    SplicePrefix(q, key, value, i, e);
    MatchAtSplice(q[..i], key, value, q[e..]);
    assert |q[..i]| == i;
    PrefixKeepsFirst(q, q[..i] + key + value + q[e..], key, i);
  }

  /** The run after the rewritten key is exactly the new value. */
  lemma RewriteRun(q: string, key: string, value: string, i: nat)
    requires NoSpace(value) && i + |key| <= |q|
    ensures var r := Rewrite(q, key, value, i);
            RunEnd(r, i + |key|) == i + |key| + |value| &&
            r[i + |key|..i + |key| + |value|] == value
  {
    var e := RunEnd(q, i + |key|);
    var a := q[..i] + key;
    assert |a| == i + |key|;
    assert q[e..] != [] ==> q[e..][0] == q[e];
    RunAfter(a, value, q[e..]);
  }

  /** The replaced case: the new value becomes the first match, and the run
      it ends at is exactly the new value. */
  lemma ReplacedValue(q: string, parameter: string, value: string, i: nat)
    requires value != [] && NoSpace(value)
    requires FirstMatch(q, Key(parameter), 0) == Some(i)
    ensures var key := Key(parameter);
            var r := Rewrite(q, key, value, i);
            FirstMatch(r, key, 0) == Some(i) &&
            RunEnd(r, i + |key|) == i + |key| + |value| &&
            r[i + |key|..i + |key| + |value|] == value
  {
    ReplacedFirst(q, Key(parameter), value, i);
    RewriteRun(q, Key(parameter), value, i);
  }

  /** Rewriting a match whose run already is `value` gives the same text. */
  lemma RewriteFixed(r: string, key: string, value: string, i: nat, e: nat)
    requires StartsWithAt(r, i, key) && e == i + |key| + |value| <= |r|
    requires r[i + |key|..e] == value
    ensures r[..i] + key + value + r[e..] == r
  {
    assert r == r[..i] + r[i..i + |key|] + r[i + |key|..e] + r[e..];
  }

  lemma AddedIs(q: string, parameter: string, value: string)
    requires IndexOf(q, Key(parameter), 0).None?
    ensures ReplaceOrAdd(q, parameter, value) == q + " " + Key(parameter) + value
  {
  }

  lemma ReplacedIs(q: string, parameter: string, value: string, i: nat)
    requires FirstMatch(q, Key(parameter), 0) == Some(i)
    ensures ReplaceOrAdd(q, parameter, value) == Rewrite(q, Key(parameter), value, i)
  {
    IndexOfFound(q, Key(parameter), i);
  }

  lemma IndexOfFound(s: string, t: string, i: nat)
    requires StartsWithAt(s, i, t)
    ensures IndexOf(s, t, 0).Some?
  {
  }

  /** What `ParamValue` reads off a first match at `m` whose run ends at `e`. */
  lemma ParamValueIs(r: string, parameter: string, value: string, m: nat, e: nat)
    requires FirstMatch(r, Key(parameter), 0) == Some(m)
    requires RunEnd(r, m + |Key(parameter)|) == e
    requires m + |Key(parameter)| <= e <= |r| && r[m + |Key(parameter)|..e] == value
    ensures ParamValue(r, parameter) == Some(value)
  {
  }

  /** `ReplaceOrAdd` when `parameter:` does not occur. */
  lemma AddedSets(q: string, parameter: string, value: string)
    requires NoSpace(parameter) && value != [] && NoSpace(value)
    requires IndexOf(q, Key(parameter), 0).None?
    ensures ParamValue(ReplaceOrAdd(q, parameter, value), parameter) == Some(value)
  {
    var r := q + " " + Key(parameter) + value;
    AddedIs(q, parameter, value);
    AppendedValue(q, parameter, value);
    ParamValueIs(r, parameter, value, |q| + 1, |r|);
  }

  /** `ReplaceOrAdd` when the first match is at `i`: the result's first
      match is at `i` too, and its run is `value`. */
  lemma ReplacedFacts(q: string, parameter: string, value: string, i: nat)
    requires value != [] && NoSpace(value)
    requires FirstMatch(q, Key(parameter), 0) == Some(i)
    ensures var r := ReplaceOrAdd(q, parameter, value);
            var n := i + |Key(parameter)|;
            FirstMatch(r, Key(parameter), 0) == Some(i) &&
            RunEnd(r, n) == n + |value| && r[n..n + |value|] == value
  {
    ReplacedIs(q, parameter, value, i);
    ReplacedValue(q, parameter, value, i);
  }

  lemma ReplacedSets(q: string, parameter: string, value: string, i: nat)
    requires value != [] && NoSpace(value)
    requires FirstMatch(q, Key(parameter), 0) == Some(i)
    ensures ParamValue(ReplaceOrAdd(q, parameter, value), parameter) == Some(value)
  {
    ReplacedFacts(q, parameter, value, i);
  }

  /** The round trip the rewriting exists for: afterwards the query gives
      `parameter` the value `value`, unless `parameter:` occurred with no
      value after it, in which case the query is left as it was. */
  lemma ReplaceOrAddSets(q: string, parameter: string, value: string)
    requires NoSpace(parameter) && value != [] && NoSpace(value)
    ensures IndexOf(q, Key(parameter), 0).Some? && ParamValue(q, parameter).None? ==>
              ReplaceOrAdd(q, parameter, value) == q
    ensures !(IndexOf(q, Key(parameter), 0).Some? && ParamValue(q, parameter).None?) ==>
              ParamValue(ReplaceOrAdd(q, parameter, value), parameter) == Some(value)
  {
    var key := Key(parameter);
    if IndexOf(q, key, 0).None? {
      AddedSets(q, parameter, value);
    } else if FirstMatch(q, key, 0).Some? {
      ReplacedSets(q, parameter, value, FirstMatch(q, key, 0).value);
    }
  }

  /** Rewriting a query whose first match already carries `value`. */
  lemma RewriteAgain(r: string, parameter: string, value: string, i: nat)
    requires FirstMatch(r, Key(parameter), 0) == Some(i)
    requires RunEnd(r, i + |Key(parameter)|) == i + |Key(parameter)| + |value|
    requires r[i + |Key(parameter)|..i + |Key(parameter)| + |value|] == value
    ensures ReplaceOrAdd(r, parameter, value) == r
  {
    var key := Key(parameter);
    assert StartsWithAt(r, i, key);
    assert IndexOf(r, key, 0).Some?;
    RewriteFixed(r, key, value, i, i + |key| + |value|);
  }

  lemma AddedIdempotent(q: string, parameter: string, value: string)
    requires NoSpace(parameter) && value != [] && NoSpace(value)
    requires IndexOf(q, Key(parameter), 0).None?
    ensures var r := ReplaceOrAdd(q, parameter, value); ReplaceOrAdd(r, parameter, value) == r
  {
    var key := Key(parameter);
    var r := q + " " + key + value;
    AddedIs(q, parameter, value);
    AppendedValue(q, parameter, value);
    RewriteAgain(r, parameter, value, |q| + 1);
  }

  lemma ReplacedIdempotent(q: string, parameter: string, value: string, i: nat)
    requires value != [] && NoSpace(value)
    requires FirstMatch(q, Key(parameter), 0) == Some(i)
    ensures var r := ReplaceOrAdd(q, parameter, value); ReplaceOrAdd(r, parameter, value) == r
  {
    ReplacedFacts(q, parameter, value, i);
    RewriteAgain(ReplaceOrAdd(q, parameter, value), parameter, value, i);
  }

  /** Setting the same value twice changes nothing more. */
  lemma ReplaceOrAddIdempotent(q: string, parameter: string, value: string)
    requires NoSpace(parameter) && value != [] && NoSpace(value)
    ensures ReplaceOrAdd(ReplaceOrAdd(q, parameter, value), parameter, value) ==
            ReplaceOrAdd(q, parameter, value)
  {
    var key := Key(parameter);
    if IndexOf(q, key, 0).None? {
      AddedIdempotent(q, parameter, value);
    } else if FirstMatch(q, key, 0).Some? {
      ReplacedIdempotent(q, parameter, value, FirstMatch(q, key, 0).value);
    }
  }
}
