/** Edit distance: both references compute the length of a shortest chain of single-character edits. */
module EditDistance {

  // ------------------------------------------------------------ edits

  /** y is x with one character inserted, deleted or replaced. */
  ghost predicate OneEdit(x: string, y: string) {
    || (exists p: nat, c: char :: p <= |x| && y == Inserted(x, p, c))
    || (exists p: nat :: p < |x| && y == Deleted(x, p))
    || (exists p: nat, c: char :: p < |x| && y == Replaced(x, p, c))
  }

  function Inserted(x: string, p: nat, c: char): string
    requires p <= |x|
  {
    x[..p] + [c] + x[p..]
  }

  function Deleted(x: string, p: nat): string
    requires p < |x|
  {
    x[..p] + x[p + 1..]
  }

  function Replaced(x: string, p: nat, c: char): string
    requires p < |x|
  {
    x[..p] + [c] + x[p + 1..]
  }

  /** A chain of edits from a to b. */
  ghost predicate IsChain(path: seq<string>, a: string, b: string) {
    path != [] && path[0] == a && path[|path| - 1] == b && forall i :: 0 <= i < |path| - 1 ==> OneEdit(path[i], path[i + 1])
  }

  /** Some chain of k edits leads from a to b, and no shorter one does. */
  ghost predicate IsDistance(a: string, b: string, k: int) {
    (exists path :: IsChain(path, a, b) && |path| == k + 1) && forall path :: IsChain(path, a, b) ==> k + 1 <= |path|
  }

  // ------------------------------------------------------------ the recurrence

  function Min3(x: int, y: int, z: int): int {
    if x <= y && x <= z then x else if y <= z then y else z
  }

  function Front(s: string): string
    requires s != ""
  {
    s[..|s| - 1]
  }

  function Last(s: string): char
    requires s != ""
  {
    s[|s| - 1]
  }

  function Distance(a: string, b: string): (d: int)
    ensures d >= 0
    decreases |a| + |b|
  {
    if a == "" then |b|
    else if b == "" then |a|
    else if Last(a) == Last(b) then Distance(Front(a), Front(b))
    else 1 + Min3(Distance(Front(a), Front(b)), Distance(Front(a), b), Distance(a, Front(b)))
  }

  lemma {:induction false} DistanceSymmetric(a: string, b: string)
    ensures Distance(a, b) == Distance(b, a)
    decreases |a| + |b|
  {
    if a != "" && b != "" {
      DistanceSymmetric(Front(a), Front(b));
      DistanceSymmetric(Front(a), b);
      DistanceSymmetric(a, Front(b));
    }
  }

  lemma {:induction false} DistanceSelf(a: string)
    ensures Distance(a, a) == 0
    decreases |a|
  {
    if a != "" { DistanceSelf(Front(a)); }
  }

  lemma Snoc(a: string, c: char)
    ensures a + [c] != "" && Front(a + [c]) == a && Last(a + [c]) == c
  {
  }

  lemma FrontLast(a: string)
    requires a != ""
    ensures a == Front(a) + [Last(a)]
  {
  }

  // ------------------------------------------------------------ one edit changes the distance by at most one

  /** A character at the end of the first word changes the distance by at most one. */
  lemma {:induction false} EndCharacter(a: string, c: char, b: string)
    ensures -1 <= Distance(a + [c], b) - Distance(a, b) <= 1
    decreases |a| + |b|
  {
    Snoc(a, c);
    if b != "" {
      FrontLast(b);
      EndCharacter(Front(b), Last(b), a);
      DistanceSymmetric(a, b);
      DistanceSymmetric(a, Front(b));
      EndCharacter(a, c, Front(b));
    }
  }

  /** So does replacing it. */
  lemma {:induction false} EndReplaced(a: string, c: char, d: char, b: string)
    ensures Distance(a + [c], b) <= 1 + Distance(a + [d], b)
    decreases |b|
  {
    Snoc(a, c);
    Snoc(a, d);
    if b != "" {
      FrontLast(b);
      EndCharacter(Front(b), Last(b), a);
      DistanceSymmetric(a, b);
      DistanceSymmetric(a, Front(b));
      EndCharacter(a, d, Front(b));
      EndReplaced(a, c, d, Front(b));
    }
  }

  /** x is at most one further from every word than y. */
  ghost predicate Near(x: string, y: string) {
    forall b :: Distance(x, b) <= 1 + Distance(y, b)
  }

  lemma {:induction false} NearStep(x: string, y: string, e: char, b: string)
    requires Near(x, y)
    ensures Distance(x + [e], b) <= 1 + Distance(y + [e], b)
    decreases |b|
  {
    Snoc(x, e);
    Snoc(y, e);
    if b == "" {
      assert Distance(x, "") <= 1 + Distance(y, "");
    } else {
      NearStep(x, y, e, Front(b));
      assert Distance(x, Front(b)) <= 1 + Distance(y, Front(b));
      assert Distance(x, b) <= 1 + Distance(y, b);
    }
  }

  /** Common endings do not matter. */
  lemma {:induction false} NearEndings(x: string, y: string, s: string)
    requires Near(x, y)
    ensures Near(x + s, y + s)
    decreases |s|
  {
    if s == "" {
      assert x + s == x && y + s == y;
    } else {
      FrontLast(s);
      NearEndings(x, y, Front(s));
      assert x + s == (x + Front(s)) + [Last(s)] && y + s == (y + Front(s)) + [Last(s)];
      forall b ensures Distance(x + s, b) <= 1 + Distance(y + s, b) { NearStep(x + Front(s), y + Front(s), Last(s), b); }
    }
  }

  lemma InsertedIsNear(x: string, p: nat, c: char)
    requires p <= |x|
    ensures Near(x, Inserted(x, p, c))
  {
    forall b ensures Distance(x[..p], b) <= 1 + Distance(x[..p] + [c], b) { EndCharacter(x[..p], c, b); }
    NearEndings(x[..p], x[..p] + [c], x[p..]);
    assert x[..p] + x[p..] == x;
  }

  lemma DeletedIsNear(x: string, p: nat)
    requires p < |x|
    ensures Near(x, Deleted(x, p))
  {
    forall b ensures Distance(x[..p] + [x[p]], b) <= 1 + Distance(x[..p], b) { EndCharacter(x[..p], x[p], b); }
    NearEndings(x[..p] + [x[p]], x[..p], x[p + 1..]);
    assert x[..p] + [x[p]] + x[p + 1..] == x;
  }

  lemma ReplacedIsNear(x: string, p: nat, c: char)
    requires p < |x|
    ensures Near(x, Replaced(x, p, c))
  {
    forall b ensures Distance(x[..p] + [x[p]], b) <= 1 + Distance(x[..p] + [c], b) { EndReplaced(x[..p], x[p], c, b); }
    NearEndings(x[..p] + [x[p]], x[..p] + [c], x[p + 1..]);
    assert x[..p] + [x[p]] + x[p + 1..] == x;
  }

  lemma EditIsNear(x: string, y: string)
    requires OneEdit(x, y)
    ensures Near(x, y)
  {
    if p: nat, c: char :| p <= |x| && y == Inserted(x, p, c) {
      InsertedIsNear(x, p, c);
    } else if p: nat :| p < |x| && y == Deleted(x, p) {
      DeletedIsNear(x, p);
    } else {
      var p: nat, c: char :| p < |x| && y == Replaced(x, p, c);
      ReplacedIsNear(x, p, c);
    }
  }

  /** No chain is shorter than the distance. */
  lemma {:induction false} ChainIsLong(path: seq<string>, a: string, b: string)
    requires IsChain(path, a, b)
    ensures Distance(a, b) + 1 <= |path|
    decreases |path|
  {
    if |path| == 1 {
      DistanceSelf(a);
    } else {
      EditIsNear(path[0], path[1]);
      var rest := path[1..];
      assert forall i :: 0 <= i < |rest| ==> rest[i] == path[i + 1];
      ChainIsLong(rest, path[1], b);
    }
  }

  // ------------------------------------------------------------ a chain of that length

  lemma EditBeforeEnding(x: string, y: string, e: char)
    requires OneEdit(x, y)
    ensures OneEdit(x + [e], y + [e])
  {
    if p: nat, c: char :| p <= |x| && y == Inserted(x, p, c) {
      assert y + [e] == Inserted(x + [e], p, c);
    } else if p: nat :| p < |x| && y == Deleted(x, p) {
      assert y + [e] == Deleted(x + [e], p);
    } else {
      var p: nat, c: char :| p < |x| && y == Replaced(x, p, c);
      assert y + [e] == Replaced(x + [e], p, c);
    }
  }

  lemma EndEdits(a: string, c: char, d: char)
    ensures OneEdit(a, a + [c]) && OneEdit(a + [c], a) && OneEdit(a + [c], a + [d])
  {
    assert a + [c] == Inserted(a, |a|, c);
    assert a == Deleted(a + [c], |a|);
    assert a + [d] == Replaced(a + [c], |a|, d);
  }

  function WithEnding(path: seq<string>, e: char): (r: seq<string>)
    ensures |r| == |path| && forall i :: 0 <= i < |r| ==> r[i] == path[i] + [e]
  {
    seq(|path|, i requires 0 <= i < |path| => path[i] + [e])
  }

  lemma ChainWithEnding(path: seq<string>, a: string, b: string, e: char)
    requires IsChain(path, a, b)
    ensures IsChain(WithEnding(path, e), a + [e], b + [e])
  {
    var r := WithEnding(path, e);
    forall i | 0 <= i < |r| - 1
      ensures OneEdit(r[i], r[i + 1])
    {
      EditBeforeEnding(path[i], path[i + 1], e);
    }
  }

  lemma ChainBefore(a: string, path: seq<string>, x: string, b: string)
    requires OneEdit(a, x) && IsChain(path, x, b)
    ensures IsChain([a] + path, a, b)
  {
  }

  lemma ChainAfter(path: seq<string>, a: string, y: string, b: string)
    requires IsChain(path, a, y) && OneEdit(y, b)
    ensures IsChain(path + [b], a, b)
  {
  }

  /** A chain as short as the distance. */
  lemma {:induction false} ShortChain(a: string, b: string) returns (path: seq<string>)
    ensures IsChain(path, a, b) && |path| == Distance(a, b) + 1
    decreases |a| + |b|
  {
    if a == "" && b == "" {
      path := [""];
    } else if a == "" {
      path := Insertion(a, b);
    } else if b == "" {
      path := Deletion(a, b);
    } else if Last(a) == Last(b) {
      FrontLast(a);
      FrontLast(b);
      var front := ShortChain(Front(a), Front(b));
      ChainWithEnding(front, Front(a), Front(b), Last(a));
      path := WithEnding(front, Last(a));
    } else {
      var replaced, deleted, inserted := Distance(Front(a), Front(b)), Distance(Front(a), b), Distance(a, Front(b));
      if replaced <= deleted && replaced <= inserted {
        path := Replacement(a, b);
      } else if deleted <= inserted {
        path := Deletion(a, b);
      } else {
        path := Insertion(a, b);
      }
    }
  }

  /** Insert the last character of b at the end. */
  lemma {:induction false} Insertion(a: string, b: string) returns (path: seq<string>)
    requires b != ""
    ensures IsChain(path, a, b) && |path| == Distance(a, Front(b)) + 2
    decreases |a| + |b|, 0
  {
    var front := ShortChain(a, Front(b));
    FrontLast(b);
    EndEdits(Front(b), Last(b), Last(b));
    ChainAfter(front, a, Front(b), b);
    path := front + [b];
  }

  /** Delete the last character of a first. */
  lemma {:induction false} Deletion(a: string, b: string) returns (path: seq<string>)
    requires a != ""
    ensures IsChain(path, a, b) && |path| == Distance(Front(a), b) + 2
    decreases |a| + |b|, 0
  {
    var rest := ShortChain(Front(a), b);
    FrontLast(a);
    EndEdits(Front(a), Last(a), Last(a));
    ChainBefore(a, rest, Front(a), b);
    path := [a] + rest;
  }

  /** Replace the last character first. */
  lemma {:induction false} Replacement(a: string, b: string) returns (path: seq<string>)
    requires a != "" && b != ""
    ensures IsChain(path, a, b) && |path| == Distance(Front(a), Front(b)) + 2
    decreases |a| + |b|, 0
  {
    var e := Last(b);
    var front := ShortChain(Front(a), Front(b));
    FrontLast(a);
    FrontLast(b);
    ChainWithEnding(front, Front(a), Front(b), e);
    EndEdits(Front(a), Last(a), e);
    ChainBefore(a, WithEnding(front, e), Front(a) + [e], b);
    path := [a] + WithEnding(front, e);
  }

  /** The recurrence is the length of a shortest chain. */
  lemma DistanceIsShortest(a: string, b: string)
    ensures IsDistance(a, b, Distance(a, b))
  {
    var path := ShortChain(a, b);
    forall path | IsChain(path, a, b) ensures Distance(a, b) + 1 <= |path| { ChainIsLong(path, a, b); }
  }

  // ------------------------------------------------------------ the references

  /** Row i of the table, up to column m. */
  ghost predicate IsRow(row: seq<int>, a: string, b: string, i: int, m: int) {
    0 <= i <= |a| && m <= |b| && |row| == m + 1 && forall j :: 0 <= j <= m ==> row[j] == Distance(a[..i], b[..j])
  }

  lemma Cell(a: string, b: string, i: nat, j: nat)
    requires i < |a| && j < |b|
    ensures Distance(a[..i + 1], b[..j + 1]) ==
      if a[i] == b[j] then Distance(a[..i], b[..j])
      else 1 + Min3(Distance(a[..i], b[..j]), Distance(a[..i], b[..j + 1]), Distance(a[..i + 1], b[..j]))
  {
    assert Front(a[..i + 1]) == a[..i] && Front(b[..j + 1]) == b[..j];
  }

  /** The next row from the one before. */
  method FillRow(word1: string, word2: string, i: nat, prev: seq<int>) returns (cur: seq<int>)
    requires i < |word1| && IsRow(prev, word1, word2, i, |word2|)
    ensures IsRow(cur, word1, word2, i + 1, |word2|)
  {
    cur := [i + 1];
    for j := 0 to |word2|
      invariant IsRow(cur, word1, word2, i + 1, j)
    {
      Cell(word1, word2, i, j);
      var cell := if word1[i] == word2[j] then prev[j] else 1 + Min3(prev[j], prev[j + 1], cur[j]);
      cur := cur + [cell];
    }
  }

  /** The stored reference: a rolling row of the table. */
  method MinDistance(word1: string, word2: string) returns (d: int)
    ensures IsDistance(word1, word2, d)
  {
    var prev: seq<int> := seq(|word2| + 1, j => j);
    for i := 0 to |word1|
      invariant IsRow(prev, word1, word2, i, |word2|)
    {
      prev := FillRow(word1, word2, i, prev);
    }
    assert word1[..|word1|] == word1 && word2[..|word2|] == word2;
    d := prev[|word2|];
    DistanceIsShortest(word1, word2);
  }

  /** The recursion of the second reference, on the lengths of the prefixes. */
  function D(word1: string, word2: string, i: nat, j: nat): int
    requires i <= |word1| && j <= |word2|
  {
    if i == 0 then j
    else if j == 0 then i
    else if word1[i - 1] == word2[j - 1] then D(word1, word2, i - 1, j - 1)
    else 1 + Min3(D(word1, word2, i - 1, j - 1), D(word1, word2, i - 1, j), D(word1, word2, i, j - 1))
  }

  lemma {:induction false} DIsDistance(word1: string, word2: string, i: nat, j: nat)
    requires i <= |word1| && j <= |word2|
    ensures D(word1, word2, i, j) == Distance(word1[..i], word2[..j])
    decreases i + j
  {
    if i > 0 && j > 0 {
      Cell(word1, word2, i - 1, j - 1);
      DIsDistance(word1, word2, i - 1, j - 1);
      DIsDistance(word1, word2, i - 1, j);
      DIsDistance(word1, word2, i, j - 1);
    }
  }

  /** Both references give the number of edits needed. */
  method ReferencesAgree(word1: string, word2: string) returns (p: int, q: int)
    ensures p == q && IsDistance(word1, word2, p)
  {
    p := MinDistance(word1, word2);
    q := D(word1, word2, |word1|, |word2|);
    DIsDistance(word1, word2, |word1|, |word2|);
    assert word1[..|word1|] == word1 && word2[..|word2|] == word2;
    DistanceIsShortest(word1, word2);
  }
}
