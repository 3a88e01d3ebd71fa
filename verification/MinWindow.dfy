/** Minimum window substring: the stored reference and the test generator's oracle. */
module MinWindow {

  /** Says of each window a..b of a string whether it is accepted. */
  type Cover = (nat, nat) -> bool

  /** s[a..b] contains every character of t with multiplicity. */
  ghost predicate Covers(s: string, t: string, a: nat, b: nat) {
    a <= b <= |s| && multiset(t) <= multiset(s[a..b])
  }

  /** Acceptance as a function of the window alone. */
  ghost function CoverOf(s: string, t: string): Cover {
    (a: nat, b: nat) => Covers(s, t, a, b)
  }

  ghost predicate Within(c: nat, d: nat, a: nat, b: nat) {
    c <= a && b <= d
  }

  ghost predicate Proper(a: nat, b: nat, n: nat) {
    a < b <= n
  }

  /** A window that contains an accepted one is accepted; empty windows are not. */
  ghost predicate Monotone(cov: Cover, n: nat) {
    (forall a: nat, b: nat, c: nat, d: nat {:trigger Within(c, d, a, b)} ::
      Within(c, d, a, b) && d <= n && cov(a, b) ==> cov(c, d)) &&
    (forall a: nat, b: nat {:trigger Proper(a, b, n)} :: cov(a, b) ==> Proper(a, b, n))
  }

  lemma CoverMonotone(s: string, t: string)
    requires |t| >= 1
    ensures Monotone(CoverOf(s, t), |s|)
  {
    forall a: nat, b: nat, c: nat, d: nat | c <= a && b <= d <= |s| && Covers(s, t, a, b)
      ensures Covers(s, t, c, d)
    {
      assert s[c..d] == s[c..a] + s[a..b] + s[b..d];
    }
    forall a: nat, b: nat | Covers(s, t, a, b)
      ensures Proper(a, b, |s|)
    {
      assert t[0] in multiset(t);
      assert t[0] in s[a..b];
    }
  }

  ghost predicate HasLength(cov: Cover, a: nat, m: nat) {
    cov(a, a + m)
  }

  /** m is the length of a shortest accepted window; -1 when there is none. */
  ghost predicate IsMinimum(cov: Cover, m: int) {
    if m < 0 then m == -1 && forall a: nat, b: nat :: !cov(a, b)
    else (exists a: nat :: HasLength(cov, a, m)) && forall a: nat, b: nat :: cov(a, b) ==> m <= b - a
  }

  lemma MinimumUnique(cov: Cover, m: int, n: int)
    requires IsMinimum(cov, m) && IsMinimum(cov, n)
    ensures m == n
  {
    if m >= 0 {
      var a: nat :| HasLength(cov, a, m);
      assert cov(a, a + m) && n >= 0;
      var b: nat :| HasLength(cov, b, n);
    }
  }

  // ------------------------------------------------------------ counting

  /** lack(a, b): how many characters s[a..b] still lacks; occ(a, b, c): how often c occurs in s[a..b]. */
  type Lack = (nat, nat) -> int
  type Occ = (nat, nat, char) -> int
  type Needs = char -> int

  /** How the two counters change when the window a..b is one character shorter on either side. */
  ghost predicate CountsStep(s: string, needs: Needs, lack: Lack, occ: Occ, a: nat, b: nat)
    requires a < b <= |s|
  {
    lack(a, b) == lack(a, b - 1) - (if needs(s[b - 1]) > occ(a, b - 1, s[b - 1]) then 1 else 0) &&
    lack(a, b) == lack(a + 1, b) - (if needs(s[a]) > occ(a + 1, b, s[a]) then 1 else 0) &&
    (forall c :: occ(a, b, c) == occ(a, b - 1, c) + if c == s[b - 1] then 1 else 0) &&
    (forall c :: occ(a, b, c) == occ(a + 1, b, c) + if c == s[a] then 1 else 0)
  }

  ghost predicate Counts(s: string, needs: Needs, lack: Lack, occ: Occ) {
    (forall a: nat, b: nat, c :: occ(a, b, c) >= 0) &&
    forall a: nat, b: nat {:trigger Proper(a, b, |s|)} :: Proper(a, b, |s|) ==> CountsStep(s, needs, lack, occ, a, b)
  }

  ghost predicate Setting(s: string, needs: Needs, lack: Lack, occ: Occ, cov: Cover) {
    Counts(s, needs, lack, occ) && Monotone(cov, |s|) &&
    forall a: nat, b: nat :: a <= b <= |s| ==> (cov(a, b) <==> lack(a, b) == 0)
  }

  ghost function NeedsOf(t: string): Needs {
    c => multiset(t)[c]
  }

  function Deficit(s: string, t: string, a: nat, b: nat): nat {
    if a <= b <= |s| then |multiset(t) - multiset(s[a..b])| else 0
  }

  function Occurs(s: string, a: nat, b: nat, c: char): nat {
    if a <= b <= |s| then multiset(s[a..b])[c] else 0
  }

  ghost function LackOf(s: string, t: string): Lack {
    (a: nat, b: nat) => Deficit(s, t, a, b)
  }

  ghost function OccOf(s: string): Occ {
    (a: nat, b: nat, c) => Occurs(s, a, b, c)
  }

  lemma DeficitAdd(t: multiset<char>, w: multiset<char>, c: char, w': multiset<char>)
    requires w' == w + multiset{c}
    ensures |t - w'| == |t - w| - if t[c] > w[c] then 1 else 0
  {
    var d, d' := t - w, t - w';
    assert d == if t[c] > w[c] then d' + multiset{c} else d';
  }

  lemma DeficitZero(t: multiset<char>, w: multiset<char>)
    ensures |t - w| == 0 <==> t <= w
  {
    var d := t - w;
    if t <= w {
      assert d == multiset{};
    }
    if |d| == 0 {
      assert d == multiset{};
      forall c
        ensures t[c] <= w[c]
      {
        assert d[c] == 0;
      }
    }
  }

  lemma LastOfWindow(s: string, a: nat, b: nat)
    requires a < b <= |s|
    ensures multiset(s[a..b]) == multiset(s[a..b - 1]) + multiset{s[b - 1]}
  {
    assert s[a..b] == s[a..b - 1] + [s[b - 1]];
  }

  lemma FirstOfWindow(s: string, a: nat, b: nat)
    requires a < b <= |s|
    ensures multiset(s[a..b]) == multiset(s[a + 1..b]) + multiset{s[a]}
  {
    assert s[a..b] == [s[a]] + s[a + 1..b];
  }

  lemma DeficitRight(s: string, t: string, a: nat, b: nat, c: char)
    requires a < b <= |s| && c == s[b - 1]
    ensures Deficit(s, t, a, b) == Deficit(s, t, a, b - 1) - if multiset(t)[c] > Occurs(s, a, b - 1, c) then 1 else 0
  {
    LastOfWindow(s, a, b);
    DeficitAdd(multiset(t), multiset(s[a..b - 1]), c, multiset(s[a..b]));
  }

  lemma DeficitLeft(s: string, t: string, a: nat, b: nat, c: char)
    requires a < b <= |s| && c == s[a]
    ensures Deficit(s, t, a, b) == Deficit(s, t, a + 1, b) - if multiset(t)[c] > Occurs(s, a + 1, b, c) then 1 else 0
  {
    FirstOfWindow(s, a, b);
    DeficitAdd(multiset(t), multiset(s[a + 1..b]), c, multiset(s[a..b]));
  }

  lemma LackRight(s: string, t: string, a: nat, b: nat)
    requires a < b <= |s|
    ensures LackOf(s, t)(a, b) == LackOf(s, t)(a, b - 1) - if NeedsOf(t)(s[b - 1]) > OccOf(s)(a, b - 1, s[b - 1]) then 1 else 0
  {
    DeficitRight(s, t, a, b, s[b - 1]);
  }

  lemma LackLeft(s: string, t: string, a: nat, b: nat)
    requires a < b <= |s|
    ensures LackOf(s, t)(a, b) == LackOf(s, t)(a + 1, b) - if NeedsOf(t)(s[a]) > OccOf(s)(a + 1, b, s[a]) then 1 else 0
  {
    DeficitLeft(s, t, a, b, s[a]);
  }

  lemma OccAt(s: string, a: nat, b: nat, c: char)
    requires a < b <= |s|
    ensures OccOf(s)(a, b, c) == OccOf(s)(a, b - 1, c) + if c == s[b - 1] then 1 else 0
    ensures OccOf(s)(a, b, c) == OccOf(s)(a + 1, b, c) + if c == s[a] then 1 else 0
  {
    LastOfWindow(s, a, b);
    FirstOfWindow(s, a, b);
  }

  lemma CountsAt(s: string, t: string, a: nat, b: nat)
    requires a < b <= |s|
    ensures CountsStep(s, NeedsOf(t), LackOf(s, t), OccOf(s), a, b)
  {
    LackRight(s, t, a, b);
    LackLeft(s, t, a, b);
    forall c
      ensures OccOf(s)(a, b, c) == OccOf(s)(a, b - 1, c) + if c == s[b - 1] then 1 else 0
      ensures OccOf(s)(a, b, c) == OccOf(s)(a + 1, b, c) + if c == s[a] then 1 else 0
    {
      OccAt(s, a, b, c);
    }
  }

  lemma CountsOf(s: string, t: string)
    ensures Counts(s, NeedsOf(t), LackOf(s, t), OccOf(s))
  {
    forall a: nat, b: nat | Proper(a, b, |s|)
      ensures CountsStep(s, NeedsOf(t), LackOf(s, t), OccOf(s), a, b)
    {
      CountsAt(s, t, a, b);
    }
  }

  lemma SettingOf(s: string, t: string)
    requires |t| >= 1
    ensures Setting(s, NeedsOf(t), LackOf(s, t), OccOf(s), CoverOf(s, t))
  {
    CountsOf(s, t);
    CoverMonotone(s, t);
    forall a: nat, b: nat | a <= b <= |s|
      ensures Covers(s, t, a, b) <==> LackOf(s, t)(a, b) == 0
    {
      DeficitZero(multiset(t), multiset(s[a..b]));
    }
  }

  lemma EmptyTally(s: string, t: string, need: map<char, int>)
    requires forall c :: multiset(t)[c] == if c in need then need[c] else 0
    ensures Tally(NeedsOf(t), LackOf(s, t), OccOf(s), need, |t|, 0, 0)
  {
    assert s[0..0] == [] && multiset(t) - multiset{} == multiset(t) && |multiset(t)| == |t|;
  }

  // ------------------------------------------------------------ what is known after a scan

  /** Every accepted window that starts before `left` is at least `best` long. */
  ghost predicate Passed(cov: Cover, left: nat, best: int) {
    forall a: nat, b: nat :: a < left && cov(a, b) ==> 0 <= best <= b - a
  }

  /** best is -1 until an accepted window has been found. */
  ghost predicate BestWindow(cov: Cover, start: nat, best: int) {
    best == -1 || (best >= 0 && HasLength(cov, start, best))
  }

  /** What is known when the window starts at left and everything up to right has been looked at. */
  ghost predicate Scan(cov: Cover, n: nat, left: nat, right: nat, start: nat, best: int) {
    left <= right <= n && Monotone(cov, n) && Passed(cov, left, best) && BestWindow(cov, start, best)
  }

  lemma ScanDone(cov: Cover, n: nat, left: nat, start: nat, best: int)
    requires Scan(cov, n, left, n, start, best) && !cov(left, n)
    ensures IsMinimum(cov, best)
  {
    forall a: nat, b: nat | cov(a, b)
      ensures 0 <= best <= b - a
    {
      assert Proper(a, b, n);
      assert Within(left, n, a, b) ==> cov(left, n);
    }
  }

  /** Moving `left` past an accepted window whose right end cannot be moved back. */
  lemma PassWindow(cov: Cover, n: nat, left: nat, right: nat, start: nat, best: int)
    requires Scan(cov, n, left, right + 1, start, best) && right < n
    requires cov(left, right + 1) && !cov(left, right)
    ensures left <= right && !cov(left + 1, right)
    ensures var closer := best == -1 || right - left + 1 < best;
      Scan(cov, n, left + 1, right + 1, if closer then left else start, if closer then right - left + 1 else best)
  {
    assert HasLength(cov, left, right - left + 1) by { assert left + (right - left + 1) == right + 1; }
    forall b: nat | cov(left, b)
      ensures right + 1 <= b
    {
      assert Within(left, right, left, b) ==> cov(left, right);
    }
    assert Proper(left, right + 1, n);
    assert Within(left, right, left + 1, right);
  }

  // ------------------------------------------------------------ the stored reference

  /** The loop that counts the characters of t. */
  method CountNeed(t: string) returns (need: map<char, int>)
    ensures forall c :: multiset(t)[c] == if c in need then need[c] else 0
  {
    need := map[];
    for i := 0 to |t|
      invariant forall c :: multiset(t[..i])[c] == if c in need then need[c] else 0
    {
      assert t[..i + 1] == t[..i] + [t[i]];
      var c := t[i];
      need := need[c := (if c in need then need[c] else 0) + 1];
    }
    assert t[..|t|] == t;
  }

  /** need[c] is how many more c the window a..b must contain, negative when it has spare ones; missing is
      how many characters it lacks in all. */
  ghost predicate Tally(needs: Needs, lack: Lack, occ: Occ, need: map<char, int>, missing: int, a: nat, b: nat) {
    (forall c :: c !in need ==> needs(c) == 0) &&
    (forall c :: c in need ==> need[c] == needs(c) - occ(a, b, c)) &&
    missing == lack(a, b)
  }

  /** Adds the character s[b] to the window. */
  method Take(s: string, need: map<char, int>, missing: int, ghost a: nat, b: nat,
              ghost needs: Needs, ghost lack: Lack, ghost occ: Occ)
    returns (need': map<char, int>, missing': int)
    requires a <= b < |s| && Counts(s, needs, lack, occ) && Tally(needs, lack, occ, need, missing, a, b)
    ensures Tally(needs, lack, occ, need', missing', a, b + 1)
  {
    assert Proper(a, b + 1, |s|);
    var c := s[b];
    need', missing' := need, missing;
    if c in need {
      if need[c] > 0 { missing' := missing' - 1; }
      need' := need[c := need[c] - 1];
    }
  }

  /** Drops the character s[a] from the window. */
  method Drop(s: string, need: map<char, int>, missing: int, a: nat, ghost b: nat,
              ghost needs: Needs, ghost lack: Lack, ghost occ: Occ)
    returns (need': map<char, int>, missing': int)
    requires a < b <= |s| && Counts(s, needs, lack, occ) && Tally(needs, lack, occ, need, missing, a, b)
    ensures Tally(needs, lack, occ, need', missing', a + 1, b)
  {
    assert Proper(a, b, |s|);
    var d := s[a];
    need', missing' := need, missing;
    if d in need {
      need' := need[d := need[d] + 1];
      if need'[d] > 0 { missing' := missing' + 1; }
    }
  }

  /** One round of the inner loop: record the covering window, then drop its first character. */
  method DropFirst(s: string, right: nat, left: nat, need: map<char, int>, missing: int, start: nat, len: int,
                   ghost needs: Needs, ghost lack: Lack, ghost occ: Occ, ghost cov: Cover)
    returns (need': map<char, int>, missing': int, start': nat, len': int)
    requires right < |s| && Setting(s, needs, lack, occ, cov)
    requires Scan(cov, |s|, left, right + 1, start, len) && cov(left, right + 1) && !cov(left, right)
    requires Tally(needs, lack, occ, need, missing, left, right + 1)
    ensures Scan(cov, |s|, left + 1, right + 1, start', len') && !cov(left + 1, right) && left <= right
    ensures Tally(needs, lack, occ, need', missing', left + 1, right + 1)
  {
    PassWindow(cov, |s|, left, right, start, len);
    start', len' := start, len;
    if len == -1 || right - left + 1 < len {
      len' := right - left + 1;
      start' := left;
    }
    need', missing' := Drop(s, need, missing, left, right + 1, needs, lack, occ);
  }

  /** The inner loop: shrink the window from the left while it covers t. */
  method Shrink(s: string, right: nat, left0: nat, need0: map<char, int>, missing0: int, start0: nat, len0: int,
                ghost needs: Needs, ghost lack: Lack, ghost occ: Occ, ghost cov: Cover)
    returns (left: nat, need: map<char, int>, missing: int, start: nat, len: int)
    requires right < |s| && Setting(s, needs, lack, occ, cov)
    requires Scan(cov, |s|, left0, right + 1, start0, len0) && !cov(left0, right)
    requires Tally(needs, lack, occ, need0, missing0, left0, right + 1)
    ensures Scan(cov, |s|, left, right + 1, start, len) && !cov(left, right + 1)
    ensures Tally(needs, lack, occ, need, missing, left, right + 1)
  {
    left, need, missing, start, len := left0, need0, missing0, start0, len0;
    while missing == 0
      invariant Scan(cov, |s|, left, right + 1, start, len) && !cov(left, right)
      invariant Tally(needs, lack, occ, need, missing, left, right + 1)
      decreases right + 1 - left
    {
      need, missing, start, len := DropFirst(s, right, left, need, missing, start, len, needs, lack, occ, cov);
      left := left + 1;
    }
  }

  method ScanAll(s: string, size: nat, need0: map<char, int>,
                 ghost needs: Needs, ghost lack: Lack, ghost occ: Occ, ghost cov: Cover)
    returns (start: nat, len: int)
    requires Setting(s, needs, lack, occ, cov)
    requires Tally(needs, lack, occ, need0, size, 0, 0)
    ensures IsMinimum(cov, len) && BestWindow(cov, start, len)
  {
    var need, missing, left: nat := need0, size, 0;
    start, len := 0, -1;
    assert !Proper(0, 0, |s|);
    for right := 0 to |s|
      invariant Scan(cov, |s|, left, right, start, len) && !cov(left, right)
      invariant Tally(needs, lack, occ, need, missing, left, right)
    {
      need, missing := Take(s, need, missing, left, right, needs, lack, occ);
      left, need, missing, start, len := Shrink(s, right, left, need, missing, start, len, needs, lack, occ, cov);
    }
    ScanDone(cov, |s|, left, start, len);
  }

  method FindWindow(s: string, t: string) returns (start: nat, len: int)
    requires |t| >= 1
    ensures IsMinimum(CoverOf(s, t), len) && BestWindow(CoverOf(s, t), start, len)
  {
    SettingOf(s, t);
    var need := CountNeed(t);
    EmptyTally(s, t, need);
    start, len := ScanAll(s, |t|, need, NeedsOf(t), LackOf(s, t), OccOf(s), CoverOf(s, t));
  }

  /** The stored reference; m is the length of the window found, -1 for none. */
  method MinWindowSubstring(s: string, t: string) returns (r: string, ghost start: nat, ghost m: int)
    requires |t| >= 1
    ensures IsMinimum(CoverOf(s, t), m)
    ensures m == -1 ==> r == ""
    ensures m >= 0 ==> start + m <= |s| && r == s[start..start + m] && multiset(t) <= multiset(r)
  {
    var bestStart, bestLen := FindWindow(s, t);
    start, m := bestStart, bestLen;
    assert m >= 0 ==> HasLength(CoverOf(s, t), start, m);
    r := if bestLen == -1 then "" else s[bestStart..bestStart + bestLen];
  }

  // ------------------------------------------------------------ the test generator's oracle

  ghost predicate Window(a: nat, b: nat, n: nat) {
    a <= b <= n
  }

  /** Acceptance stated by the counts of the single characters. */
  ghost predicate ByCounts(n: nat, needs: Needs, occ: Occ, cov: Cover) {
    forall a: nat, b: nat {:trigger Window(a, b, n)} ::
      Window(a, b, n) ==> (cov(a, b) <==> forall c :: occ(a, b, c) >= needs(c))
  }

  lemma ByCountsOf(s: string, t: string)
    ensures ByCounts(|s|, NeedsOf(t), OccOf(s), CoverOf(s, t))
  {
    forall a: nat, b: nat | Window(a, b, |s|)
      ensures Covers(s, t, a, b) <==> forall c :: OccOf(s)(a, b, c) >= NeedsOf(t)(c)
    {
      assert Covers(s, t, a, b) <==> forall c :: multiset(s[a..b])[c] >= multiset(t)[c];
      assert forall c :: OccOf(s)(a, b, c) == multiset(s[a..b])[c] && NeedsOf(t)(c) == multiset(t)[c];
    }
  }

  function Get(counts: map<char, int>, c: char): int {
    if c in counts then counts[c] else 0
  }

  /** need lists the positive requirements, counts the characters of the window a..b. */
  ghost predicate Counted(needs: Needs, occ: Occ, need: map<char, int>, counts: map<char, int>, a: nat, b: nat) {
    (forall c :: Get(need, c) == needs(c)) && (forall c :: Get(counts, c) == occ(a, b, c)) &&
    (forall c :: needs(c) >= 0) && forall c :: occ(a, b, c) >= 0
  }

  predicate CoversNow(need: map<char, int>, counts: map<char, int>) {
    forall c :: c in need ==> Get(counts, c) >= need[c]
  }

  lemma CoversNowDecides(n: nat, needs: Needs, occ: Occ, cov: Cover, need: map<char, int>, counts: map<char, int>, a: nat, b: nat)
    requires ByCounts(n, needs, occ, cov) && Counted(needs, occ, need, counts, a, b) && a <= b <= n
    ensures CoversNow(need, counts) <==> cov(a, b)
  {
    assert Window(a, b, n);
    if CoversNow(need, counts) {
      forall c
        ensures occ(a, b, c) >= needs(c)
      {
        assert Get(need, c) == needs(c) && Get(counts, c) == occ(a, b, c);
      }
    } else {
      var c :| c in need && Get(counts, c) < need[c];
      assert occ(a, b, c) < needs(c);
    }
  }

  ghost predicate OracleSetting(s: string, needs: Needs, lack: Lack, occ: Occ, cov: Cover) {
    Counts(s, needs, lack, occ) && Monotone(cov, |s|) && ByCounts(|s|, needs, occ, cov)
  }

  method DropCounted(s: string, counts: map<char, int>, left: nat, ghost right: nat, ghost need: map<char, int>,
                     ghost needs: Needs, ghost lack: Lack, ghost occ: Occ)
    returns (counts': map<char, int>)
    requires left <= right < |s| && Counts(s, needs, lack, occ) && Counted(needs, occ, need, counts, left, right + 1)
    ensures Counted(needs, occ, need, counts', left + 1, right + 1)
  {
    assert Proper(left, right + 1, |s|);
    assert CountsStep(s, needs, lack, occ, left, right + 1);
    counts' := counts[s[left] := Get(counts, s[left]) - 1];
    forall c
      ensures Get(counts', c) == occ(left + 1, right + 1, c)
    {
      assert occ(left, right + 1, c) == occ(left + 1, right + 1, c) + if c == s[left] then 1 else 0;
    }
  }

  /** One round of the oracle's inner loop. */
  method DropCounting(s: string, right: nat, left: nat, ghost need: map<char, int>, counts: map<char, int>, len: int,
                      ghost start: nat, ghost needs: Needs, ghost lack: Lack, ghost occ: Occ, ghost cov: Cover)
    returns (counts': map<char, int>, len': int, ghost start': nat)
    requires right < |s| && OracleSetting(s, needs, lack, occ, cov)
    requires Scan(cov, |s|, left, right + 1, start, len) && cov(left, right + 1) && !cov(left, right)
    requires Counted(needs, occ, need, counts, left, right + 1)
    ensures Scan(cov, |s|, left + 1, right + 1, start', len') && !cov(left + 1, right) && left <= right
    ensures Counted(needs, occ, need, counts', left + 1, right + 1)
  {
    PassWindow(cov, |s|, left, right, start, len);
    len', start' := len, start;
    if len == -1 || right - left + 1 < len {
      len', start' := right - left + 1, left;
    }
    counts' := DropCounted(s, counts, left, right, need, needs, lack, occ);
  }

  /** The oracle's inner loop. */
  method ShrinkCounted(s: string, right: nat, left0: nat, need: map<char, int>, counts0: map<char, int>, len0: int,
                       ghost start0: nat, ghost needs: Needs, ghost lack: Lack, ghost occ: Occ, ghost cov: Cover)
    returns (left: nat, counts: map<char, int>, len: int, ghost start: nat)
    requires right < |s| && OracleSetting(s, needs, lack, occ, cov)
    requires Scan(cov, |s|, left0, right + 1, start0, len0) && !cov(left0, right)
    requires Counted(needs, occ, need, counts0, left0, right + 1)
    ensures Scan(cov, |s|, left, right + 1, start, len) && !cov(left, right + 1)
    ensures Counted(needs, occ, need, counts, left, right + 1)
  {
    left, counts, len, start := left0, counts0, len0, start0;
    CoversNowDecides(|s|, needs, occ, cov, need, counts, left, right + 1);
    while CoversNow(need, counts)
      invariant Scan(cov, |s|, left, right + 1, start, len) && !cov(left, right)
      invariant Counted(needs, occ, need, counts, left, right + 1)
      invariant CoversNow(need, counts) <==> cov(left, right + 1)
      decreases right + 1 - left
    {
      counts, len, start := DropCounting(s, right, left, need, counts, len, start, needs, lack, occ, cov);
      left := left + 1;
      CoversNowDecides(|s|, needs, occ, cov, need, counts, left, right + 1);
    }
  }

  method ScanCounted(s: string, need: map<char, int>, ghost needs: Needs, ghost lack: Lack, ghost occ: Occ, ghost cov: Cover)
    returns (len: int)
    requires OracleSetting(s, needs, lack, occ, cov) && Counted(needs, occ, need, map[], 0, 0)
    ensures IsMinimum(cov, len)
  {
    var left: nat, counts := 0, map[];
    ghost var start: nat := 0;
    len := -1;
    assert !Proper(0, 0, |s|);
    for right := 0 to |s|
      invariant Scan(cov, |s|, left, right, start, len) && !cov(left, right)
      invariant Counted(needs, occ, need, counts, left, right)
    {
      assert Proper(left, right + 1, |s|);
      counts := counts[s[right] := Get(counts, s[right]) + 1];
      left, counts, len, start := ShrinkCounted(s, right, left, need, counts, len, start, needs, lack, occ, cov);
    }
    ScanDone(cov, |s|, left, start, len);
  }

  /** How many accepted windows of length m start before i. */
  ghost function WindowsBefore(cov: Cover, m: nat, i: nat): nat {
    if i == 0 then 0 else WindowsBefore(cov, m, i - 1) + if HasLength(cov, i - 1, m) then 1 else 0
  }

  method CountRange(s: string, i: nat, j: nat, ghost needs: Needs, ghost lack: Lack, ghost occ: Occ) returns (counts: map<char, int>)
    requires i <= j <= |s| && Counts(s, needs, lack, occ) && forall c :: occ(i, i, c) == 0
    ensures forall c :: Get(counts, c) == occ(i, j, c)
  {
    counts := map[];
    for k := i to j
      invariant forall c :: Get(counts, c) == occ(i, k, c)
    {
      assert Proper(i, k + 1, |s|);
      counts := counts[s[k] := Get(counts, s[k]) + 1];
    }
  }

  method CoversRange(s: string, i: nat, j: nat, need: map<char, int>,
                     ghost needs: Needs, ghost lack: Lack, ghost occ: Occ, ghost cov: Cover)
    returns (covered: bool)
    requires OracleSetting(s, needs, lack, occ, cov) && i <= j <= |s| && Counted(needs, occ, need, map[], i, i)
    ensures covered <==> cov(i, j)
  {
    var counts := CountRange(s, i, j, needs, lack, occ);
    CoversNowDecides(|s|, needs, occ, cov, need, counts, i, j);
    covered := CoversNow(need, counts);
  }

  method CountWindows(s: string, m: nat, need: map<char, int>,
                      ghost needs: Needs, ghost lack: Lack, ghost occ: Occ, ghost cov: Cover)
    returns (windows: nat)
    requires OracleSetting(s, needs, lack, occ, cov) && m <= |s|
    requires forall i: nat :: Counted(needs, occ, need, map[], i, i)
    ensures windows == WindowsBefore(cov, m, |s| - m + 1)
  {
    windows := 0;
    for i := 0 to |s| - m + 1
      invariant windows == WindowsBefore(cov, m, i)
    {
      var covered := CoversRange(s, i, i + m, need, needs, lack, occ, cov);
      if covered {
        windows := windows + 1;
      }
    }
  }

  lemma OracleOf(s: string, t: string, need: map<char, int>)
    requires |t| >= 1 && forall c :: multiset(t)[c] == if c in need then need[c] else 0
    ensures OracleSetting(s, NeedsOf(t), LackOf(s, t), OccOf(s), CoverOf(s, t))
    ensures forall i: nat :: Counted(NeedsOf(t), OccOf(s), need, map[], i, i)
  {
    SettingOf(s, t);
    ByCountsOf(s, t);
    assert forall i: nat :: i <= |s| ==> s[i..i] == [];
  }

  /** The oracle: length of a minimum window and how many windows have it; both 0 when there is none. */
  method MinWindowStats(s: string, t: string) returns (best: nat, windows: nat, ghost m: int)
    requires |t| >= 1
    ensures IsMinimum(CoverOf(s, t), m)
    ensures m == -1 ==> best == 0 && windows == 0
    ensures m >= 0 ==> best == m && m <= |s| && windows == WindowsBefore(CoverOf(s, t), m, |s| - m + 1)
  {
    var need := CountNeed(t);
    OracleOf(s, t, need);
    var len := ScanCounted(s, need, NeedsOf(t), LackOf(s, t), OccOf(s), CoverOf(s, t));
    m := len;
    if len == -1 { return 0, 0, m; }
    WindowFits(s, t, len);
    best := len;
    windows := CountWindows(s, len, need, NeedsOf(t), LackOf(s, t), OccOf(s), CoverOf(s, t));
  }

  lemma WindowFits(s: string, t: string, m: int)
    requires m >= 0 && IsMinimum(CoverOf(s, t), m)
    ensures m <= |s|
  {
    var a: nat :| HasLength(CoverOf(s, t), a, m);
    assert Covers(s, t, a, a + m);
  }

  /** The reference's answer has exactly the length the oracle reports. */
  method ReferencesAgree(s: string, t: string) returns (r: string, best: nat, windows: nat)
    requires |t| >= 1
    ensures |r| == best
  {
    ghost var start, m, k;
    r, start, m := MinWindowSubstring(s, t);
    best, windows, k := MinWindowStats(s, t);
    MinimumUnique(CoverOf(s, t), m, k);
  }
}
