/** The grouping of a file's review comments by line, done before they are
    shown as editor decorations: each line gets the list of its reviewers
    (each named once, in the order they first commented) and the text of its
    comments, `name: message`, separated by blank lines. */
module Comments {
  import opened Common

  /** A review comment on a file; `line` is `None` when the comment has no
      line (a file-level comment). */
  datatype Comment = Comment(line: Option<int>, reviewer: string, message: string)

  /** The line a comment is shown on: its own line when that is positive,
      otherwise line 1. */
  function LineOf(c: Comment): (l: int)
    ensures l >= 1
    ensures c.line.Some? && c.line.value >= 1 ==> l == c.line.value
    ensures c.line.None? || c.line.value <= 0 ==> l == 1
  {
    if c.line.Some? && c.line.value > 0 then c.line.value else 1
  }

  /** The text one comment contributes to its line. */
  function Entry(c: Comment): string {
    c.reviewer + ": " + c.message
  }

  /** The lines that carry at least one comment. */
  function LinesOf(cs: seq<Comment>): set<int> {
    set c | c in cs :: LineOf(c)
  }

  /** The reviewers of the comments shown on line `l`, in input order,
      repeats included. */
  function ReviewersOn(cs: seq<Comment>, l: int): seq<string> {
    if |cs| == 0 then []
    else ReviewersOn(cs[..|cs| - 1], l) +
         (if LineOf(cs[|cs| - 1]) == l then [cs[|cs| - 1].reviewer] else [])
  }

  /** The entries of the comments shown on line `l`, in input order. */
  function EntriesOn(cs: seq<Comment>, l: int): seq<string> {
    if |cs| == 0 then []
    else EntriesOn(cs[..|cs| - 1], l) +
         (if LineOf(cs[|cs| - 1]) == l then [Entry(cs[|cs| - 1])] else [])
  }

  /** `s` with every element after its first occurrence removed, built the
      way the loop builds an author list: push a name unless already there. */
  function Dedupe(s: seq<string>): seq<string> {
    if |s| == 0 then []
    else
      var d := Dedupe(s[..|s| - 1]);
      if s[|s| - 1] in d then d else d + [s[|s| - 1]]
  }

  /** Strings joined with a blank line between consecutive ones. */
  function Join(xs: seq<string>): string {
    if |xs| == 0 then ""
    else if |xs| == 1 then xs[0]
    else xs[0] + "\n\n" + Join(xs[1..])
  }

  predicate NoDuplicates(s: seq<string>) {
    forall i, j :: 0 <= i < j < |s| ==> s[i] != s[j]
  }

  /** The position of the first occurrence of `x` in `s`. */
  function FirstIndex(s: seq<string>, x: string): (k: nat)
    requires x in s
    ensures k < |s| && s[k] == x
    ensures forall j :: 0 <= j < k ==> s[j] != x
  {
    if s[0] == x then 0 else 1 + FirstIndex(s[1..], x)
  }

  /** `authors` holds, for every commented line of `cs`, its de-duplicated
      reviewers. */
  ghost predicate AuthorsFor(authors: map<int, seq<string>>, cs: seq<Comment>) {
    authors.Keys == LinesOf(cs) &&
    forall l :: l in authors ==> authors[l] == Dedupe(ReviewersOn(cs, l))
  }

  /** `messages` holds, for every commented line of `cs`, its joined entries. */
  ghost predicate MessagesFor(messages: map<int, string>, cs: seq<Comment>) {
    messages.Keys == LinesOf(cs) &&
    forall l :: l in messages ==> messages[l] == Join(EntriesOn(cs, l))
  }

  /** One comment's effect on the author lists. */
  function AddAuthor(authors: map<int, seq<string>>, c: Comment): map<int, seq<string>> {
    var line := LineOf(c);
    if line !in authors then authors[line := [c.reviewer]]
    else if c.reviewer !in authors[line] then authors[line := authors[line] + [c.reviewer]]
    else authors
  }

  /** One comment's effect on the messages. */
  function AddMessage(messages: map<int, string>, c: Comment): map<int, string> {
    var line := LineOf(c);
    if line !in messages then messages[line := Entry(c)]
    else messages[line := messages[line] + "\n\n" + Entry(c)]
  }

  /** The grouping loop: `authors[line]` and `messages[line]` are created by
      the first comment on a line and extended by each later one. */
  method GroupComments(cs: seq<Comment>) returns (authors: map<int, seq<string>>, messages: map<int, string>)
    ensures authors.Keys == messages.Keys == LinesOf(cs)
    ensures forall l :: l in authors ==> l >= 1
    ensures forall l :: l in authors ==> authors[l] == Dedupe(ReviewersOn(cs, l))
    ensures forall l :: l in messages ==> messages[l] == Join(EntriesOn(cs, l))
  {
    authors := map[];
    messages := map[];
    var i := 0;
    while i < |cs|
      invariant 0 <= i <= |cs|
      invariant AuthorsFor(authors, cs[..i]) && MessagesFor(messages, cs[..i])
    {
      assert cs[..i + 1] == cs[..i] + [cs[i]];
      AddAuthorStep(authors, cs[..i], cs[i]);
      AddMessageStep(messages, cs[..i], cs[i]);
      authors := AddAuthor(authors, cs[i]);
      messages := AddMessage(messages, cs[i]);
      i := i + 1;
    }
    assert cs[..i] == cs;
  }

  /** One more comment extends the reviewers of its own line only. */
  lemma ReviewersStep(cs: seq<Comment>, c: Comment, l: int)
    ensures ReviewersOn(cs + [c], l) == ReviewersOn(cs, l) + (if LineOf(c) == l then [c.reviewer] else [])
  {
    assert (cs + [c])[..|cs|] == cs;
  }

  /** One more comment extends the entries of its own line only. */
  lemma EntriesStep(cs: seq<Comment>, c: Comment, l: int)
    ensures EntriesOn(cs + [c], l) == EntriesOn(cs, l) + (if LineOf(c) == l then [Entry(c)] else [])
  {
    assert (cs + [c])[..|cs|] == cs;
  }

  lemma DedupeSnoc(s: seq<string>, x: string)
    ensures Dedupe(s + [x]) == if x in Dedupe(s) then Dedupe(s) else Dedupe(s) + [x]
  {
    assert (s + [x])[..|s|] == s;
  }

  /** The author list of the comment's own line after the comment. */
  lemma AddAuthorLine(authors: map<int, seq<string>>, cs: seq<Comment>, c: Comment)
    requires AuthorsFor(authors, cs)
    ensures AddAuthor(authors, c)[LineOf(c)] == Dedupe(ReviewersOn(cs + [c], LineOf(c)))
  {
    var line := LineOf(c);
    ReviewersStep(cs, c, line);
    DedupeSnoc(ReviewersOn(cs, line), c.reviewer);
    if line !in authors {
      assert line !in LinesOf(cs);
      NotOnLine(cs, line);
    }
  }

  /** A comment leaves the author lists of the other lines alone. */
  lemma AddAuthorOther(authors: map<int, seq<string>>, c: Comment, l: int)
    requires l in AddAuthor(authors, c) && l != LineOf(c)
    ensures l in authors && AddAuthor(authors, c)[l] == authors[l]
  {
  }

  lemma AddAuthorKeys(authors: map<int, seq<string>>, c: Comment)
    ensures AddAuthor(authors, c).Keys == authors.Keys + {LineOf(c)}
  {
  }

  /** A comment leaves the reviewers of the other lines alone. */
  lemma ReviewersOther(cs: seq<Comment>, c: Comment, l: int)
    requires l != LineOf(c)
    ensures ReviewersOn(cs + [c], l) == ReviewersOn(cs, l)
  {
    ReviewersStep(cs, c, l);
  }

  lemma AddAuthorStep(authors: map<int, seq<string>>, cs: seq<Comment>, c: Comment)
    requires AuthorsFor(authors, cs)
    ensures AuthorsFor(AddAuthor(authors, c), cs + [c])
  {
    var a := AddAuthor(authors, c);
    var line := LineOf(c);
    LinesStep(cs, c);
    AddAuthorKeys(authors, c);
    AddAuthorLine(authors, cs, c);
    forall l | l in a && l != line
      ensures a[l] == Dedupe(ReviewersOn(cs + [c], l))
    {
      AddAuthorOther(authors, c, l);
      ReviewersOther(cs, c, l);
    }
  }

  /** The message of the comment's own line after the comment. */
  lemma AddMessageLine(messages: map<int, string>, cs: seq<Comment>, c: Comment)
    requires MessagesFor(messages, cs)
    ensures AddMessage(messages, c)[LineOf(c)] == Join(EntriesOn(cs + [c], LineOf(c)))
  {
    var line := LineOf(c);
    EntriesStep(cs, c, line);
    if line !in messages {
      assert line !in LinesOf(cs);
      NotOnLine(cs, line);
      assert EntriesOn(cs + [c], line) == [Entry(c)];
    } else {
      OnLine(cs, line);
      JoinSnoc(EntriesOn(cs, line), Entry(c));
    }
  }

  /** A comment leaves the messages of the other lines alone. */
  lemma AddMessageOther(messages: map<int, string>, c: Comment, l: int)
    requires l in AddMessage(messages, c) && l != LineOf(c)
    ensures l in messages && AddMessage(messages, c)[l] == messages[l]
  {
  }

  lemma AddMessageKeys(messages: map<int, string>, c: Comment)
    ensures AddMessage(messages, c).Keys == messages.Keys + {LineOf(c)}
  {
  }

  /** A comment leaves the entries of the other lines alone. */
  lemma EntriesOther(cs: seq<Comment>, c: Comment, l: int)
    requires l != LineOf(c)
    ensures EntriesOn(cs + [c], l) == EntriesOn(cs, l)
  {
    EntriesStep(cs, c, l);
  }

  lemma AddMessageStep(messages: map<int, string>, cs: seq<Comment>, c: Comment)
    requires MessagesFor(messages, cs)
    ensures MessagesFor(AddMessage(messages, c), cs + [c])
  {
    var m := AddMessage(messages, c);
    var line := LineOf(c);
    LinesStep(cs, c);
    AddMessageKeys(messages, c);
    AddMessageLine(messages, cs, c);
    forall l | l in m && l != line
      ensures m[l] == Join(EntriesOn(cs + [c], l))
    {
      AddMessageOther(messages, c, l);
      EntriesOther(cs, c, l);
    }
  }

  lemma LinesStep(cs: seq<Comment>, c: Comment)
    ensures LinesOf(cs + [c]) == LinesOf(cs) + {LineOf(c)}
  {
    assert forall x :: x in cs + [c] <==> x in cs || x == c;
  }

  /** A line that carries no comment has no reviewers and no entries. */
  lemma {:induction false} NotOnLine(cs: seq<Comment>, l: int)
    requires l !in LinesOf(cs)
    ensures ReviewersOn(cs, l) == [] && EntriesOn(cs, l) == []
  {
    if |cs| > 0 {
      var p := cs[..|cs| - 1];
      assert cs == p + [cs[|cs| - 1]];
      LinesStep(p, cs[|cs| - 1]);
      NotOnLine(p, l);
    }
  }

  /** A line that carries a comment has at least one entry. */
  lemma {:induction false} OnLine(cs: seq<Comment>, l: int)
    requires l in LinesOf(cs)
    ensures EntriesOn(cs, l) != []
  {
    var p := cs[..|cs| - 1];
    assert cs == p + [cs[|cs| - 1]];
    LinesStep(p, cs[|cs| - 1]);
    if LineOf(cs[|cs| - 1]) != l {
      OnLine(p, l);
    }
  }

  /** Appending to a joined text is joining the longer list. */
  lemma {:induction false} JoinSnoc(xs: seq<string>, x: string)
    requires xs != []
    ensures Join(xs + [x]) == Join(xs) + "\n\n" + x
  {
    if |xs| > 1 {
      assert (xs + [x])[1..] == xs[1..] + [x];
      JoinSnoc(xs[1..], x);
    }
  }

  /** A name is among the reviewers on line `l` exactly when some comment
      shown on that line is by that reviewer. */
  lemma {:induction false} ReviewersOnMembers(cs: seq<Comment>, l: int, x: string)
    ensures x in ReviewersOn(cs, l) <==>
            exists k :: 0 <= k < |cs| && LineOf(cs[k]) == l && cs[k].reviewer == x
  {
    if |cs| > 0 {
      var p := cs[..|cs| - 1];
      ReviewersOnMembers(p, l, x);
      if x in ReviewersOn(cs, l) && x !in ReviewersOn(p, l) {
        assert LineOf(cs[|cs| - 1]) == l && cs[|cs| - 1].reviewer == x;
      }
      if exists k :: 0 <= k < |cs| && LineOf(cs[k]) == l && cs[k].reviewer == x {
        var k :| 0 <= k < |cs| && LineOf(cs[k]) == l && cs[k].reviewer == x;
        if k < |cs| - 1 {
          assert p[k] == cs[k];
        }
      }
    }
  }

  /** Dedupe keeps exactly the elements of its input. */
  lemma {:induction false} DedupeMembers(s: seq<string>)
    ensures forall x :: x in Dedupe(s) <==> x in s
  {
    if |s| > 0 {
      DedupeMembers(s[..|s| - 1]);
      assert s == s[..|s| - 1] + [s[|s| - 1]];
    }
  }

  /** Dedupe names each element once. */
  lemma {:induction false} DedupeNoDuplicates(s: seq<string>)
    ensures NoDuplicates(Dedupe(s))
  {
    if |s| > 0 {
      DedupeNoDuplicates(s[..|s| - 1]);
    }
  }

  /** The first occurrence of an element of a prefix is in the prefix. */
  lemma {:induction false} FirstIndexPrefix(s: seq<string>, n: nat, x: string)
    requires n <= |s| && x in s[..n]
    ensures FirstIndex(s, x) == FirstIndex(s[..n], x)
  {
    if s[0] != x {
      assert s[1..][..n - 1] == s[..n][1..];
      FirstIndexPrefix(s[1..], n - 1, x);
    }
  }

  /** Dedupe lists the elements in the order of their first occurrence. */
  lemma {:induction false} DedupeOrder(s: seq<string>)
    ensures forall x :: x in Dedupe(s) ==> x in s
    ensures forall i, j :: 0 <= i < j < |Dedupe(s)| ==>
              FirstIndex(s, Dedupe(s)[i]) < FirstIndex(s, Dedupe(s)[j])
  {
    DedupeMembers(s);
    if |s| > 0 {
      var p := s[..|s| - 1];
      var x := s[|s| - 1];
      var d := Dedupe(p);
      DedupeOrder(p);
      DedupeMembers(p);
      assert p == s[..|s| - 1];
      forall y | y in d
        ensures FirstIndex(s, y) == FirstIndex(p, y) < |p|
      {
        FirstIndexPrefix(s, |p|, y);
      }
      if x !in d {
        assert x !in p;
        assert FirstIndex(s, x) == |p|;
        AppendLatest(s, d, x);
      }
    }
  }

  /** A list kept in order of first occurrence stays so when an element
      first seen after all of its members is appended. */
  lemma AppendLatest(s: seq<string>, d: seq<string>, x: string)
    requires x in s && forall y :: y in d ==> y in s && FirstIndex(s, y) < FirstIndex(s, x)
    requires forall i, j :: 0 <= i < j < |d| ==> FirstIndex(s, d[i]) < FirstIndex(s, d[j])
    ensures forall i, j :: 0 <= i < j < |d + [x]| ==>
              FirstIndex(s, (d + [x])[i]) < FirstIndex(s, (d + [x])[j])
  {
    forall i, j | 0 <= i < j < |d + [x]|
      ensures FirstIndex(s, (d + [x])[i]) < FirstIndex(s, (d + [x])[j])
    {
      assert (d + [x])[i] == d[i];
      if j < |d| {
        assert (d + [x])[j] == d[j];
      }
    }
  }

  /** What a line's author list holds: each reviewer who commented on the
      line, once, in the order they first commented there. */
  lemma AuthorsOnLine(cs: seq<Comment>, l: int)
    ensures forall x :: x in Dedupe(ReviewersOn(cs, l)) ==> x in ReviewersOn(cs, l)
    ensures NoDuplicates(Dedupe(ReviewersOn(cs, l)))
    ensures forall x :: x in Dedupe(ReviewersOn(cs, l)) <==>
              exists k :: 0 <= k < |cs| && LineOf(cs[k]) == l && cs[k].reviewer == x
    ensures forall i, j :: 0 <= i < j < |Dedupe(ReviewersOn(cs, l))| ==>
              FirstIndex(ReviewersOn(cs, l), Dedupe(ReviewersOn(cs, l))[i]) <
              FirstIndex(ReviewersOn(cs, l), Dedupe(ReviewersOn(cs, l))[j])
  {
    var s := ReviewersOn(cs, l);
    DedupeNoDuplicates(s);
    DedupeMembers(s);
    DedupeOrder(s);
    forall x
      ensures x in Dedupe(s) <==>
              exists k :: 0 <= k < |cs| && LineOf(cs[k]) == l && cs[k].reviewer == x
    {
      ReviewersOnMembers(cs, l, x);
    }
  }
}
