/**
 * Fuzzy matching of user queries against cached papers (src/utils.py):
 * Levenshtein edit distance by dynamic programming, the "some author is
 * close" test and the shared lower-cased token test.
 */
module Matching {
  import opened Text

  function Min(x: nat, y: nat): nat
  {
    if x <= y then x else y
  }

  /**
   * Edit distance of `a` and `b` by the recurrence the table in `LevDist`
   * follows: the distance to an empty string is the other length; equal last
   * characters cost nothing; otherwise one more than the cheapest of dropping
   * the last character of `b` (left), of `a` (up), or of both (diagonal).
   */
  function Lev(a: string, b: string): (d: nat)
    ensures d <= if |a| >= |b| then |a| else |b|
    ensures d >= |a| - |b| && d >= |b| - |a|
    decreases |a| + |b|
  {
    if |a| == 0 then |b|
    else if |b| == 0 then |a|
    else if a[|a| - 1] == b[|b| - 1] then Lev(a[..|a| - 1], b[..|b| - 1])
    else 1 + Min(Lev(a, b[..|b| - 1]), Min(Lev(a[..|a| - 1], b), Lev(a[..|a| - 1], b[..|b| - 1])))
  }

  /**
   * The cell update of `lev_dist` for differing characters, with its
   * if/elif/else preference left, then up, then diagonal: whichever branch is
   * taken, the result is one more than the smallest of the three.
   */
  function TieBreak(left: nat, up: nat, diag: nat): (r: nat)
    ensures r >= 1
    ensures r - 1 <= left && r - 1 <= up && r - 1 <= diag
    ensures r - 1 == left || r - 1 == up || r - 1 == diag
  {
    if left <= up && left <= diag then left + 1
    else if up <= left && up <= diag then up + 1
    else diag + 1
  }

  /** The recurrence read on prefixes: the value of cell (i, j) of the table. */
  lemma LevStep(a: string, b: string, i: nat, j: nat)
    requires 1 <= i <= |a| && 1 <= j <= |b|
    ensures Lev(a[..i], b[..j]) ==
            if a[i - 1] == b[j - 1] then Lev(a[..i - 1], b[..j - 1])
            else TieBreak(Lev(a[..i], b[..j - 1]), Lev(a[..i - 1], b[..j]), Lev(a[..i - 1], b[..j - 1]))
  {
    assert a[..i][..i - 1] == a[..i - 1];
    assert b[..j][..j - 1] == b[..j - 1];
  }

  /** The distance from or to the empty string is the other string's length. */
  lemma LevEmpty(a: string, b: string)
    ensures Lev(a, []) == |a| && Lev([], b) == |b|
  {
  }

  /** A string is at distance 0 from itself. */
  lemma {:induction false} LevSelf(a: string)
    ensures Lev(a, a) == 0
  {
    if a != [] {
      LevSelf(a[..|a| - 1]);
    }
  }

  /** Edit distance does not depend on the order of its arguments. */
  lemma {:induction false} LevSymmetric(a: string, b: string)
    ensures Lev(a, b) == Lev(b, a)
    decreases |a| + |b|
  {
    if |a| > 0 && |b| > 0 {
      var a', b' := a[..|a| - 1], b[..|b| - 1];
      LevSymmetric(a', b');
      if a[|a| - 1] != b[|b| - 1] {
        LevSymmetric(a, b');
        LevSymmetric(a', b);
      }
    }
  }

  /** The first column and the first row of the table: the distances to an empty prefix. */
  method FillBorders(a: string, b: string, table: array2<nat>)
    requires table.Length0 == |a| + 1 && table.Length1 == |b| + 1
    modifies table
    ensures forall i :: 0 <= i <= |a| ==> table[i, 0] == Lev(a[..i], b[..0])
    ensures forall j :: 0 <= j <= |b| ==> table[0, j] == Lev(a[..0], b[..j])
  {
    for t1 := 0 to |a| + 1
      invariant forall i :: 0 <= i < t1 ==> table[i, 0] == i
    {
      table[t1, 0] := t1;
    }
    for t2 := 0 to |b| + 1
      invariant forall i :: 0 <= i <= |a| ==> table[i, 0] == i
      invariant forall j :: 0 <= j < t2 ==> table[0, j] == j
    {
      table[0, t2] := t2;
    }
  }

  /** One pass of the inner loop: row `t1` of the table from row `t1 - 1`. */
  method FillRow(a: string, b: string, table: array2<nat>, t1: nat)
    requires table.Length0 == |a| + 1 && table.Length1 == |b| + 1
    requires 1 <= t1 <= |a|
    requires forall j :: 0 <= j <= |b| ==> table[t1 - 1, j] == Lev(a[..t1 - 1], b[..j])
    requires table[t1, 0] == Lev(a[..t1], b[..0])
    modifies table
    ensures forall j :: 0 <= j <= |b| ==> table[t1, j] == Lev(a[..t1], b[..j])
    ensures forall i, j :: 0 <= i < table.Length0 && 0 <= j < table.Length1 && i != t1 ==> table[i, j] == old(table[i, j])
  {
    for t2 := 1 to |b| + 1
      invariant forall j :: 0 <= j < t2 ==> table[t1, j] == Lev(a[..t1], b[..j])
      invariant forall i, j :: 0 <= i < table.Length0 && 0 <= j < table.Length1 && i != t1 ==> table[i, j] == old(table[i, j])
    {
      LevStep(a, b, t1, t2);
      var left, up, diag := table[t1, t2 - 1], table[t1 - 1, t2], table[t1 - 1, t2 - 1];
      var cell: nat;
      if a[t1 - 1] == b[t2 - 1] {
        cell := diag;
      } else if left <= up && left <= diag {
        cell := left + 1;
      } else if up <= left && up <= diag {
        cell := up + 1;
      } else {
        cell := diag + 1;
      }
      assert cell == Lev(a[..t1], b[..t2]);
      table[t1, t2] := cell;
    }
  }

  /**
   * `lev_dist`: fills the (|a|+1) x (|b|+1) table row by row and returns its
   * last cell, which is the edit distance of `a` and `b`.
   */
  method LevDist(a: string, b: string) returns (d: nat)
    ensures d == Lev(a, b)
  {
    var table := new nat[|a| + 1, |b| + 1];
    FillBorders(a, b, table);
    for t1 := 1 to |a| + 1
      invariant forall i, j :: 0 <= i < t1 && 0 <= j <= |b| ==> table[i, j] == Lev(a[..i], b[..j])
      invariant forall i :: t1 <= i <= |a| ==> table[i, 0] == Lev(a[..i], b[..0])
    {
      FillRow(a, b, table, t1);
    }
    d := table[|a|, |b|];
    assert a[..|a|] == a && b[..|b|] == b;
  }

  /** Some candidate name lies within edit distance 2 of the query. */
  predicate AuthorMatches(query: string, names: seq<string>)
  {
    exists k :: 0 <= k < |names| && Lev(query, names[k]) < 3
  }

  /**
   * `arxiv_author_match`: scans the names in order and answers true at the
   * first one within edit distance 2 of the query.
   */
  method AuthorMatch(query: string, names: seq<string>) returns (found: bool)
    ensures found <==> exists k :: 0 <= k < |names| && Lev(query, names[k]) < 3
    ensures names == [] ==> !found
  {
    for k := 0 to |names|
      invariant forall j :: 0 <= j < k ==> Lev(query, names[j]) >= 3
    {
      var d := LevDist(query, names[k]);
      if d < 3 {
        return true;
      }
    }
    return false;
  }

  /** The smallest distance from the query to a name of a non-empty list. */
  function MinLev(query: string, names: seq<string>): (d: nat)
    requires names != []
    ensures exists k :: 0 <= k < |names| && d == Lev(query, names[k])
    ensures forall k :: 0 <= k < |names| ==> d <= Lev(query, names[k])
  {
    if |names| == 1 then Lev(query, names[0])
    else
      var rest := MinLev(query, names[1..]);
      assert forall k :: 1 <= k < |names| ==> names[k] == names[1..][k - 1];
      Min(Lev(query, names[0]), rest)
  }

  /** The author test holds exactly when the closest name is within distance 2. */
  lemma AuthorMatchesIffMinLev(query: string, names: seq<string>)
    ensures AuthorMatches(query, names) <==> names != [] && MinLev(query, names) < 3
  {
    if names != [] {
      var d := MinLev(query, names);
      if d < 3 {
        var k :| 0 <= k < |names| && d == Lev(query, names[k]);
      }
    }
  }

  /** `set(f.lower() for f in s.split(" "))`. */
  function Tokens(s: string): set<string>
  {
    set t | t in Split(s, ' ') :: Lower(t)
  }

  /** `arxiv_abstract_match`: the two texts share a lower-cased, space-separated token. */
  predicate AbstractMatch(query: string, target: string)
  {
    Tokens(query) * Tokens(target) != {}
  }

  /** Two word lists share a lower-cased word exactly when some pair of positions holds words equal once lower-cased. */
  lemma SharedWord(q: seq<string>, t: seq<string>)
    ensures (set x | x in q :: Lower(x)) * (set y | y in t :: Lower(y)) != {} <==>
            exists i, j :: 0 <= i < |q| && 0 <= j < |t| && Lower(q[i]) == Lower(t[j])
  {
    var qs, ts := set x | x in q :: Lower(x), set y | y in t :: Lower(y);
    if qs * ts != {} {
      var w :| w in qs * ts;
      var x :| x in q && Lower(x) == w;
      var y :| y in t && Lower(y) == w;
      var i :| 0 <= i < |q| && q[i] == x;
      var j :| 0 <= j < |t| && t[j] == y;
      assert Lower(q[i]) == Lower(t[j]);
    }
    if exists i, j :: 0 <= i < |q| && 0 <= j < |t| && Lower(q[i]) == Lower(t[j]) {
      var i, j :| 0 <= i < |q| && 0 <= j < |t| && Lower(q[i]) == Lower(t[j]);
      assert q[i] in q && t[j] in t;
      assert Lower(q[i]) in qs * ts;
    }
  }

  /** The test holds exactly when some token of one text equals, lower-cased, some token of the other. */
  lemma AbstractMatchMeaning(query: string, target: string)
    ensures AbstractMatch(query, target) <==>
            exists i, j :: 0 <= i < |Split(query, ' ')| && 0 <= j < |Split(target, ' ')|
                        && Lower(Split(query, ' ')[i]) == Lower(Split(target, ' ')[j])
  {
    SharedWord(Split(query, ' '), Split(target, ' '));
  }

  lemma AbstractMatchSymmetric(query: string, target: string)
    ensures AbstractMatch(query, target) == AbstractMatch(target, query)
  {
  }

  /** Every text matches itself, even the empty one: a split always yields a token. */
  lemma AbstractMatchReflexive(text: string)
    ensures AbstractMatch(text, text)
  {
    var parts := Split(text, ' ');
    assert parts[0] in parts;
    assert Lower(parts[0]) in Tokens(text) * Tokens(text);
  }

  lemma {:induction false} LowerAllAt(parts: seq<string>)
    ensures |LowerAll(parts)| == |parts|
    ensures forall i :: 0 <= i < |parts| ==> LowerAll(parts)[i] == Lower(parts[i])
  {
    if parts != [] {
      LowerAllAt(parts[1..]);
    }
  }

  lemma TokensOfLower(s: string)
    ensures Tokens(Lower(s)) == Tokens(s)
  {
    SplitLower(s);
    var parts := Split(s, ' ');
    LowerAllAt(parts);
    forall t | t in Tokens(Lower(s)) ensures t in Tokens(s) {
      var x :| x in LowerAll(parts) && Lower(x) == t;
      var i :| 0 <= i < |parts| && LowerAll(parts)[i] == x;
      LowerIdempotent(parts[i]);
      assert Lower(parts[i]) == t;
    }
    forall t | t in Tokens(s) ensures t in Tokens(Lower(s)) {
      var x :| x in parts && Lower(x) == t;
      var i :| 0 <= i < |parts| && parts[i] == x;
      LowerIdempotent(x);
      assert LowerAll(parts)[i] in Split(Lower(s), ' ');
    }
  }

  /** Upper or lower case in either text makes no difference. */
  lemma AbstractMatchIgnoresCase(query: string, target: string)
    ensures AbstractMatch(Lower(query), target) == AbstractMatch(query, target)
    ensures AbstractMatch(query, Lower(target)) == AbstractMatch(query, target)
  {
    TokensOfLower(query);
    TokensOfLower(target);
  }

  /**
   * Only the set of words matters: two texts written with the same words,
   * in any order and with any repetitions, match the same targets.
   */
  lemma AbstractMatchWordSet(words1: seq<string>, words2: seq<string>, target: string)
    requires words1 != [] && words2 != []
    requires forall i :: 0 <= i < |words1| ==> ' ' !in words1[i]
    requires forall i :: 0 <= i < |words2| ==> ' ' !in words2[i]
    requires forall w :: w in words1 <==> w in words2
    ensures AbstractMatch(Join(words1, ' '), target) == AbstractMatch(Join(words2, ' '), target)
  {
    SplitJoin(words1, ' ');
    SplitJoin(words2, ' ');
    assert Tokens(Join(words1, ' ')) == Tokens(Join(words2, ' '));
  }
}
