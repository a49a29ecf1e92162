// The chart CkyParser._buildTable fills and the trees _addNodeToString
// renders from it, as functions of the grammar rules and the tokens.
module ChartSpec {
  import opened Text
  import opened Rules
  import opened Lists
  import Grammar

  /** Pointer(i, j, tagIdx): entry tagIdx of the cell spanning tokens i..j. */
  datatype Pointer = Pointer(i: nat, j: nat, tagIdx: nat)

  /** A Tag placed in a cell: its name and its back pointers. */
  datatype Entry = Entry(name: string, pointers: seq<Pointer>)

  /** The right side symbol a token matches: the token in apostrophes. */
  function Quote(token: string): string {
    "'" + token + "'"
  }

  /** _buildTable reads rule.right[0] of every rule. */
  predicate HasRight(rules: seq<Rule>) {
    forall r | r in rules :: |r.right| > 0
  }

  // ------------------------------------------------------------ leaf cells

  /** The rule's left side as a leaf entry when its first right symbol is the quoted token. */
  function LeafOf(r: Rule, token: string): seq<Entry> {
    if |r.right| > 0 && r.right[0] == Quote(token) then [Entry(r.left, [])] else []
  }

  /** Cell (j-1, j): the left sides of the matching rules, in grammar order. */
  function LeafCell(rules: seq<Rule>, token: string): seq<Entry> {
    if rules == [] then []
    else LeafCell(rules[..|rules| - 1], token) + LeafOf(rules[|rules| - 1], token)
  }

  /** One more rule scanned for a leaf cell. */
  lemma LeafCellStep(rules: seq<Rule>, n: nat, token: string)
    requires n < |rules| && HasRight(rules[..n]) && |rules[n].right| > 0
    ensures HasRight(rules[..n + 1])
    ensures LeafCell(rules[..n + 1], token) == LeafCell(rules[..n], token) + LeafOf(rules[n], token)
  {
    assert rules[..n + 1] == rules[..n] + [rules[n]];
    assert rules[..n + 1][..n] == rules[..n];
  }

  /**
   * An entry is in a leaf cell exactly when it has no pointers and some rule
   * whose first right symbol is the quoted token is named by it.
   */
  lemma {:induction false} LeafCellIff(rules: seq<Rule>, token: string, e: Entry)
    ensures e in LeafCell(rules, token) <==>
      e.pointers == [] && exists r | r in rules :: |r.right| > 0 && r.right[0] == Quote(token) && r.left == e.name
    decreases |rules|
  {
    if rules != [] {
      var front := rules[..|rules| - 1];
      var last := rules[|rules| - 1];
      LeafCellIff(front, token, e);
      assert rules == front + [last];
      if e in LeafCell(rules, token) && e !in LeafCell(front, token) {
        assert e in LeafOf(last, token);
      }
      if e.pointers == [] {
        if r :| r in rules && |r.right| > 0 && r.right[0] == Quote(token) && r.left == e.name {
          if r !in front {
            assert r == last;
            assert e == Entry(last.left, []);
            assert e in LeafOf(last, token);
          }
        }
      }
    }
  }

  /** The test of the leaf comprehension: the first right symbol is the quoted token. */
  function MatchesToken(token: string): Rule -> bool {
    (r: Rule) => |r.right| > 0 && r.right[0] == Quote(token)
  }

  /**
   * Nothing is merged: the leaf cell holds one entry per matching rule,
   * duplicate rules included, and its p-th entry is the pointer-free entry
   * of the p-th matching rule in grammar order.
   */
  lemma {:induction false} LeafCellCount(rules: seq<Rule>, token: string)
    ensures |LeafCell(rules, token)| == |Filter(rules, MatchesToken(token))|
    ensures forall p | 0 <= p < |LeafCell(rules, token)| ::
      LeafCell(rules, token)[p] == Entry(Filter(rules, MatchesToken(token))[p].left, [])
    decreases |rules|
  {
    if rules != [] {
      var n := |rules|;
      LeafCellCount(rules[..n - 1], token);
      FilterSnoc(rules, n, MatchesToken(token));
      assert rules[..n] == rules;
    }
  }

  // ---------------------------------------------------------- binary cells

  /** rule.right[0] names b and rule.right[1] names c. */
  predicate Joins(r: Rule, b: Entry, c: Entry) {
    |r.right| >= 2 && r.right[0] == b.name && r.right[1] == c.name
  }

  /** The entry _buildTable adds for rule r, b-cell entry bIdx and c-cell entry cIdx. */
  function Joined(r: Rule, i: nat, k: nat, j: nat, bIdx: nat, cIdx: nat): Entry {
    Entry(r.left, [Pointer(i, k, bIdx), Pointer(k, j, cIdx)])
  }

  /** The innermost loop: entries for c-cell indices below n. */
  function ForC(r: Rule, i: nat, k: nat, j: nat, bs: seq<Entry>, bIdx: nat, cs: seq<Entry>, n: nat): seq<Entry>
    requires bIdx < |bs| && n <= |cs|
  {
    if n == 0 then []
    else
      ForC(r, i, k, j, bs, bIdx, cs, n - 1) +
      (if Joins(r, bs[bIdx], cs[n - 1]) then [Joined(r, i, k, j, bIdx, n - 1)] else [])
  }

  /** The loop over the b cell: entries for b-cell indices below n. */
  function ForB(r: Rule, i: nat, k: nat, j: nat, bs: seq<Entry>, cs: seq<Entry>, n: nat): seq<Entry>
    requires n <= |bs|
  {
    if n == 0 then []
    else
      ForB(r, i, k, j, bs, cs, n - 1) +
      (if |r.right| >= 2 && r.right[0] == bs[n - 1].name then ForC(r, i, k, j, bs, n - 1, cs, |cs|) else [])
  }

  /** The loop over the grammar for one split point k. */
  function ForRules(rules: seq<Rule>, i: nat, k: nat, j: nat, bs: seq<Entry>, cs: seq<Entry>): seq<Entry> {
    if rules == [] then []
    else ForRules(rules[..|rules| - 1], i, k, j, bs, cs) + ForB(rules[|rules| - 1], i, k, j, bs, cs, |bs|)
  }

  /** e is the entry of some rule joining an entry of bs with an entry of cs. */
  predicate IsJoin(rules: seq<Rule>, i: nat, k: nat, j: nat, bs: seq<Entry>, cs: seq<Entry>, e: Entry) {
    exists r, b, c | r in rules && 0 <= b < |bs| && 0 <= c < |cs| ::
      Joins(r, bs[b], cs[c]) && e == Joined(r, i, k, j, b, c)
  }

  /** A join of entry bIdx with c-cell entry c < n is among the entries for c-cell indices below n. */
  lemma {:induction false} ForCHas(r: Rule, i: nat, k: nat, j: nat, bs: seq<Entry>, bIdx: nat, cs: seq<Entry>, n: nat, c: nat)
    requires bIdx < |bs| && c < n <= |cs| && Joins(r, bs[bIdx], cs[c])
    ensures Joined(r, i, k, j, bIdx, c) in ForC(r, i, k, j, bs, bIdx, cs, n)
    decreases n
  {
    if c < n - 1 {
      ForCHas(r, i, k, j, bs, bIdx, cs, n - 1, c);
    }
  }

  /** Every entry for c-cell indices below n is the join of entry bIdx with one of them. */
  lemma {:induction false} ForCFrom(r: Rule, i: nat, k: nat, j: nat, bs: seq<Entry>, bIdx: nat, cs: seq<Entry>, n: nat, e: Entry)
    returns (c: nat)
    requires bIdx < |bs| && n <= |cs| && e in ForC(r, i, k, j, bs, bIdx, cs, n)
    ensures c < n && Joins(r, bs[bIdx], cs[c]) && e == Joined(r, i, k, j, bIdx, c)
    decreases n
  {
    assert n > 0;
    if e in ForC(r, i, k, j, bs, bIdx, cs, n - 1) {
      c := ForCFrom(r, i, k, j, bs, bIdx, cs, n - 1, e);
    } else {
      c := n - 1;
    }
  }

  lemma {:induction false} ForBHas(r: Rule, i: nat, k: nat, j: nat, bs: seq<Entry>, cs: seq<Entry>, n: nat, b: nat, c: nat)
    requires b < n <= |bs| && c < |cs| && Joins(r, bs[b], cs[c])
    ensures Joined(r, i, k, j, b, c) in ForB(r, i, k, j, bs, cs, n)
    decreases n
  {
    if b < n - 1 {
      ForBHas(r, i, k, j, bs, cs, n - 1, b, c);
    } else {
      ForCHas(r, i, k, j, bs, n - 1, cs, |cs|, c);
      assert ForB(r, i, k, j, bs, cs, n) == ForB(r, i, k, j, bs, cs, n - 1) + ForC(r, i, k, j, bs, n - 1, cs, |cs|);
    }
  }

  /** An entry the b loop adds for its last b entry comes from that entry's c loop. */
  lemma ForBLast(r: Rule, i: nat, k: nat, j: nat, bs: seq<Entry>, cs: seq<Entry>, n: nat, e: Entry)
    requires 0 < n <= |bs| && e in ForB(r, i, k, j, bs, cs, n) && e !in ForB(r, i, k, j, bs, cs, n - 1)
    ensures |r.right| >= 2 && r.right[0] == bs[n - 1].name && e in ForC(r, i, k, j, bs, n - 1, cs, |cs|)
  {
  }

  lemma {:induction false} ForBFrom(r: Rule, i: nat, k: nat, j: nat, bs: seq<Entry>, cs: seq<Entry>, n: nat, e: Entry)
    returns (b: nat, c: nat)
    requires n <= |bs| && e in ForB(r, i, k, j, bs, cs, n)
    ensures b < n && c < |cs| && Joins(r, bs[b], cs[c]) && e == Joined(r, i, k, j, b, c)
    decreases n
  {
    assert n > 0;
    if e in ForB(r, i, k, j, bs, cs, n - 1) {
      b, c := ForBFrom(r, i, k, j, bs, cs, n - 1, e);
    } else {
      b := n - 1;
      ForBLast(r, i, k, j, bs, cs, n, e);
      c := ForCFrom(r, i, k, j, bs, b, cs, |cs|, e);
    }
  }

  /** The loop over the grammar adds the entry of every rule joining an entry of bs with one of cs. */
  lemma {:induction false} ForRulesHas(rules: seq<Rule>, i: nat, k: nat, j: nat, bs: seq<Entry>, cs: seq<Entry>, r: Rule, b: nat, c: nat)
    requires r in rules && b < |bs| && c < |cs| && Joins(r, bs[b], cs[c])
    ensures Joined(r, i, k, j, b, c) in ForRules(rules, i, k, j, bs, cs)
    decreases |rules|
  {
    var front := rules[..|rules| - 1];
    assert rules == front + [rules[|rules| - 1]];
    if r in front {
      ForRulesHas(front, i, k, j, bs, cs, r, b, c);
    } else {
      ForBHas(r, i, k, j, bs, cs, |bs|, b, c);
    }
  }

  /** ... and nothing else. */
  lemma {:induction false} ForRulesFrom(rules: seq<Rule>, i: nat, k: nat, j: nat, bs: seq<Entry>, cs: seq<Entry>, e: Entry)
    returns (r: Rule, b: nat, c: nat)
    requires e in ForRules(rules, i, k, j, bs, cs)
    ensures r in rules && b < |bs| && c < |cs| && Joins(r, bs[b], cs[c]) && e == Joined(r, i, k, j, b, c)
    decreases |rules|
  {
    var front := rules[..|rules| - 1];
    assert rules == front + [rules[|rules| - 1]];
    if e in ForRules(front, i, k, j, bs, cs) {
      r, b, c := ForRulesFrom(front, i, k, j, bs, cs, e);
    } else {
      r := rules[|rules| - 1];
      b, c := ForBFrom(r, i, k, j, bs, cs, |bs|, e);
    }
  }

  /** The entries the loop over the grammar adds for one split point are exactly the joins. */
  lemma ForRulesIff(rules: seq<Rule>, i: nat, k: nat, j: nat, bs: seq<Entry>, cs: seq<Entry>, e: Entry)
    ensures e in ForRules(rules, i, k, j, bs, cs) <==> IsJoin(rules, i, k, j, bs, cs, e)
  {
    if e in ForRules(rules, i, k, j, bs, cs) {
      var r, b, c := ForRulesFrom(rules, i, k, j, bs, cs, e);
    }
    if IsJoin(rules, i, k, j, bs, cs, e) {
      var r, b, c :| r in rules && 0 <= b < |bs| && 0 <= c < |cs| && Joins(r, bs[b], cs[c]) && e == Joined(r, i, k, j, b, c);
      ForRulesHas(rules, i, k, j, bs, cs, r, b, c);
    }
  }

  /** The c-cell indices below n whose entry rule r joins with b. */
  function MatchC(r: Rule, b: Entry, cs: seq<Entry>, n: nat): set<nat>
    requires n <= |cs|
  {
    set c: nat | c < n && Joins(r, b, cs[c])
  }

  /** The matches of rule r over the b-cell indices below n: one count per b entry. */
  function MatchB(r: Rule, bs: seq<Entry>, cs: seq<Entry>, n: nat): nat
    requires n <= |bs|
  {
    if n == 0 then 0 else MatchB(r, bs, cs, n - 1) + |MatchC(r, bs[n - 1], cs, |cs|)|
  }

  /** The matches of every rule of the grammar, a rule listed twice counted twice. */
  function MatchRules(rules: seq<Rule>, bs: seq<Entry>, cs: seq<Entry>): nat {
    if rules == [] then 0 else MatchRules(rules[..|rules| - 1], bs, cs) + MatchB(rules[|rules| - 1], bs, cs, |bs|)
  }

  /** The c loop appends one entry per matching c-cell entry. */
  lemma {:induction false} ForCCount(r: Rule, i: nat, k: nat, j: nat, bs: seq<Entry>, bIdx: nat, cs: seq<Entry>, n: nat)
    requires bIdx < |bs| && n <= |cs|
    ensures |ForC(r, i, k, j, bs, bIdx, cs, n)| == |MatchC(r, bs[bIdx], cs, n)|
    decreases n
  {
    if n == 0 {
      assert MatchC(r, bs[bIdx], cs, 0) == {};
    } else {
      ForCCount(r, i, k, j, bs, bIdx, cs, n - 1);
      var prev := MatchC(r, bs[bIdx], cs, n - 1);
      if Joins(r, bs[bIdx], cs[n - 1]) {
        assert MatchC(r, bs[bIdx], cs, n) == prev + {n - 1};
        assert n - 1 !in prev;
      } else {
        assert MatchC(r, bs[bIdx], cs, n) == prev;
      }
    }
  }

  /** The b loop appends, for each b entry, one entry per c entry it joins with. */
  lemma {:induction false} ForBCount(r: Rule, i: nat, k: nat, j: nat, bs: seq<Entry>, cs: seq<Entry>, n: nat)
    requires n <= |bs|
    ensures |ForB(r, i, k, j, bs, cs, n)| == MatchB(r, bs, cs, n)
    decreases n
  {
    if n > 0 {
      ForBCount(r, i, k, j, bs, cs, n - 1);
      if |r.right| >= 2 && r.right[0] == bs[n - 1].name {
        ForCCount(r, i, k, j, bs, n - 1, cs, |cs|);
      } else {
        assert MatchC(r, bs[n - 1], cs, |cs|) == {};
      }
    }
  }

  /** The loop over the grammar appends one entry per (rule, b, c) match, without merging. */
  lemma {:induction false} ForRulesCount(rules: seq<Rule>, i: nat, k: nat, j: nat, bs: seq<Entry>, cs: seq<Entry>)
    ensures |ForRules(rules, i, k, j, bs, cs)| == MatchRules(rules, bs, cs)
    decreases |rules|
  {
    if rules != [] {
      ForRulesCount(rules[..|rules| - 1], i, k, j, bs, cs);
      ForBCount(rules[|rules| - 1], i, k, j, bs, cs, |bs|);
    }
  }

  // ------------------------------------------------------------- the chart

  /**
   * The tags of cell (i, j) once _buildTable is done with it: the leaf cell
   * for a span of one token, otherwise the split points k = i+1 .. j-1 in
   * turn, each contributing the loop over rules, b entries and c entries.
   */
  function Span(rules: seq<Rule>, tokens: seq<string>, i: nat, j: nat): seq<Entry>
    requires i < j <= |tokens|
    decreases j - i, 1, 0
  {
    if j == i + 1 then LeafCell(rules, tokens[i])
    else SplitsTo(rules, tokens, i, j, j)
  }

  /** Cell (i, j) after the split points below k. */
  function SplitsTo(rules: seq<Rule>, tokens: seq<string>, i: nat, j: nat, k: nat): seq<Entry>
    requires i < k <= j <= |tokens|
    decreases j - i, 0, k
  {
    if k == i + 1 then []
    else SplitsTo(rules, tokens, i, j, k - 1) + FromSplit(rules, tokens, i, k - 1, j)
  }

  /** What split point m adds to cell (i, j): the loop over rules on cells (i, m) and (m, j). */
  function FromSplit(rules: seq<Rule>, tokens: seq<string>, i: nat, m: nat, j: nat): seq<Entry>
    requires i < m < j <= |tokens|
    decreases j - i, 0, 0
  {
    ForRules(rules, i, m, j, Span(rules, tokens, i, m), Span(rules, tokens, m, j))
  }

  /** e is an entry split point m of cell (i, j) contributes. */
  predicate AtSplit(rules: seq<Rule>, tokens: seq<string>, i: nat, m: nat, j: nat, e: Entry)
    requires i < m < j <= |tokens|
  {
    IsJoin(rules, i, m, j, Span(rules, tokens, i, m), Span(rules, tokens, m, j), e)
  }

  lemma SplitsToStep(rules: seq<Rule>, tokens: seq<string>, i: nat, j: nat, k: nat)
    requires i + 1 < k <= j <= |tokens|
    ensures SplitsTo(rules, tokens, i, j, k) == SplitsTo(rules, tokens, i, j, k - 1) + FromSplit(rules, tokens, i, k - 1, j)
  {
  }

  lemma SplitsToGrows(rules: seq<Rule>, tokens: seq<string>, i: nat, j: nat, k: nat, e: Entry)
    requires i + 1 < k <= j <= |tokens| && e in SplitsTo(rules, tokens, i, j, k - 1)
    ensures e in SplitsTo(rules, tokens, i, j, k)
  {
    SplitsToStep(rules, tokens, i, j, k);
  }

  /** An entry in the cell after the split points below l is still there after those below k >= l. */
  lemma {:induction false} SplitsToKeeps(rules: seq<Rule>, tokens: seq<string>, i: nat, j: nat, l: nat, k: nat, e: Entry)
    requires i < l <= k <= j <= |tokens| && e in SplitsTo(rules, tokens, i, j, l)
    ensures e in SplitsTo(rules, tokens, i, j, k)
    decreases k
  {
    if l < k {
      SplitsToKeeps(rules, tokens, i, j, l, k - 1, e);
      SplitsToGrows(rules, tokens, i, j, k, e);
    }
  }

  /** Split point m adds the entry of every rule joining an entry of cell (i, m) with one of cell (m, j). */
  lemma JoinAtSplit(rules: seq<Rule>, tokens: seq<string>, i: nat, m: nat, j: nat, r: Rule, b: nat, c: nat)
    requires i < m < j <= |tokens| && r in rules
    requires b < |Span(rules, tokens, i, m)| && c < |Span(rules, tokens, m, j)|
    requires Joins(r, Span(rules, tokens, i, m)[b], Span(rules, tokens, m, j)[c])
    ensures Joined(r, i, m, j, b, c) in SplitsTo(rules, tokens, i, j, m + 1)
  {
    ForRulesHas(rules, i, m, j, Span(rules, tokens, i, m), Span(rules, tokens, m, j), r, b, c);
    SplitsToStep(rules, tokens, i, j, m + 1);
  }

  /** Every entry the split points below k add is such a join at one of them. */
  lemma {:induction false} SplitsToFrom(rules: seq<Rule>, tokens: seq<string>, i: nat, j: nat, k: nat, e: Entry)
    returns (m: nat, r: Rule, b: nat, c: nat)
    requires i < k <= j <= |tokens| && e in SplitsTo(rules, tokens, i, j, k)
    ensures i < m < k && r in rules && b < |Span(rules, tokens, i, m)| && c < |Span(rules, tokens, m, j)|
    ensures Joins(r, Span(rules, tokens, i, m)[b], Span(rules, tokens, m, j)[c]) && e == Joined(r, i, m, j, b, c)
    decreases k
  {
    assert k > i + 1;
    SplitsToStep(rules, tokens, i, j, k);
    if e in SplitsTo(rules, tokens, i, j, k - 1) {
      m, r, b, c := SplitsToFrom(rules, tokens, i, j, k - 1, e);
    } else {
      m := k - 1;
      r, b, c := ForRulesFrom(rules, i, m, j, Span(rules, tokens, i, m), Span(rules, tokens, m, j), e);
    }
  }

  /** What the split points below l add is in the finished cell. */
  lemma SplitsToInSpan(rules: seq<Rule>, tokens: seq<string>, i: nat, j: nat, l: nat, e: Entry)
    requires i < l <= j <= |tokens| && i + 1 < j && e in SplitsTo(rules, tokens, i, j, l)
    ensures e in Span(rules, tokens, i, j)
  {
    SplitsToKeeps(rules, tokens, i, j, l, j, e);
  }

  /**
   * Cell (i, j), j - i >= 2, holds the entry of every rule whose first two
   * right symbols name an entry of cell (i, k) and an entry of cell (k, j),
   * for every split point i < k < j ...
   */
  lemma SpanHas(rules: seq<Rule>, tokens: seq<string>, i: nat, k: nat, j: nat, r: Rule, b: nat, c: nat)
    requires i < k < j <= |tokens| && r in rules
    requires b < |Span(rules, tokens, i, k)| && c < |Span(rules, tokens, k, j)|
    requires Joins(r, Span(rules, tokens, i, k)[b], Span(rules, tokens, k, j)[c])
    ensures Joined(r, i, k, j, b, c) in Span(rules, tokens, i, j)
  {
    JoinAtSplit(rules, tokens, i, k, j, r, b, c);
    SplitsToInSpan(rules, tokens, i, j, k + 1, Joined(r, i, k, j, b, c));
  }

  /** ... and nothing else: each of its entries is such a join, with two pointers. */
  lemma SpanFrom(rules: seq<Rule>, tokens: seq<string>, i: nat, j: nat, e: Entry) returns (k: nat, r: Rule, b: nat, c: nat)
    requires i + 1 < j <= |tokens| && e in Span(rules, tokens, i, j)
    ensures i < k < j && r in rules && b < |Span(rules, tokens, i, k)| && c < |Span(rules, tokens, k, j)|
    ensures Joins(r, Span(rules, tokens, i, k)[b], Span(rules, tokens, k, j)[c])
    ensures e == Joined(r, i, k, j, b, c) && e.pointers == [Pointer(i, k, b), Pointer(k, j, c)]
  {
    k, r, b, c := SplitsToFrom(rules, tokens, i, j, j, e);
  }

  /** The two directions together, over the existentially stated join. */
  lemma SpanIff(rules: seq<Rule>, tokens: seq<string>, i: nat, j: nat, e: Entry)
    requires i + 1 < j <= |tokens|
    ensures e in Span(rules, tokens, i, j) <==> exists k | i < k < j :: AtSplit(rules, tokens, i, k, j, e)
  {
    if e in Span(rules, tokens, i, j) {
      var k, r, b, c := SpanFrom(rules, tokens, i, j, e);
      assert AtSplit(rules, tokens, i, k, j, e);
    }
    if k :| i < k < j && AtSplit(rules, tokens, i, k, j, e) {
      var bs, cs := Span(rules, tokens, i, k), Span(rules, tokens, k, j);
      var r, b, c :| r in rules && 0 <= b < |bs| && 0 <= c < |cs| && Joins(r, bs[b], cs[c]) && e == Joined(r, i, k, j, b, c);
      SpanHas(rules, tokens, i, k, j, r, b, c);
    }
  }

  /** The matches split point m of cell (i, j) contributes. */
  function SplitPointMatches(rules: seq<Rule>, tokens: seq<string>, i: nat, m: nat, j: nat): nat
    requires i < m < j <= |tokens|
  {
    MatchRules(rules, Span(rules, tokens, i, m), Span(rules, tokens, m, j))
  }

  /** The matches of split points i+1 .. k-1 of cell (i, j). */
  function SplitMatches(rules: seq<Rule>, tokens: seq<string>, i: nat, j: nat, k: nat): nat
    requires i < k <= j <= |tokens|
    decreases k
  {
    if k == i + 1 then 0
    else SplitMatches(rules, tokens, i, j, k - 1) + SplitPointMatches(rules, tokens, i, k - 1, j)
  }

  /** Split point m adds one entry per (rule, b, c) match on cells (i, m) and (m, j). */
  lemma FromSplitCount(rules: seq<Rule>, tokens: seq<string>, i: nat, m: nat, j: nat)
    requires i < m < j <= |tokens|
    ensures |FromSplit(rules, tokens, i, m, j)| == SplitPointMatches(rules, tokens, i, m, j)
  {
    ForRulesCount(rules, i, m, j, Span(rules, tokens, i, m), Span(rules, tokens, m, j));
  }

  /** A cell wider than one token holds one entry per (split point, rule, b, c) match. */
  lemma {:induction false} SplitsToCount(rules: seq<Rule>, tokens: seq<string>, i: nat, j: nat, k: nat)
    requires i < k <= j <= |tokens|
    ensures |SplitsTo(rules, tokens, i, j, k)| == SplitMatches(rules, tokens, i, j, k)
    decreases k
  {
    if k > i + 1 {
      SplitsToCount(rules, tokens, i, j, k - 1);
      SplitsToStep(rules, tokens, i, j, k);
      FromSplitCount(rules, tokens, i, k - 1, j);
    }
  }

  /** A leaf entry has no pointers and is named by a rule matching its token. */
  lemma LeafPointers(rules: seq<Rule>, tokens: seq<string>, i: nat, e: Entry)
    requires i < |tokens| && e in Span(rules, tokens, i, i + 1)
    ensures e.pointers == []
    ensures exists r | r in rules :: |r.right| > 0 && r.right[0] == Quote(tokens[i]) && r.left == e.name
  {
    LeafCellIff(rules, tokens[i], e);
  }

  /** Every entry of every cell is named by the left side of some rule. */
  lemma SpanNames(rules: seq<Rule>, tokens: seq<string>, i: nat, j: nat, e: Entry)
    requires i < j <= |tokens| && e in Span(rules, tokens, i, j)
    ensures exists r | r in rules :: r.left == e.name
  {
    if j == i + 1 {
      LeafPointers(rules, tokens, i, e);
    } else {
      var k, r, b, c := SpanFrom(rules, tokens, i, j, e);
    }
  }

  // ----------------------------------------------------------- the crash

  /**
   * Rule r has a single right symbol naming an entry of the b cell while
   * the c cell is not empty: reading r.right[1] raises IndexError.
   */
  predicate RuleClash(r: Rule, bs: seq<Entry>, cs: seq<Entry>) {
    cs != [] && |r.right| == 1 && exists b | 0 <= b < |bs| :: r.right[0] == bs[b].name
  }

  /** Some rule clashes on the b cell bs and the c cell cs. */
  predicate Clash(rules: seq<Rule>, bs: seq<Entry>, cs: seq<Entry>) {
    exists r | r in rules :: RuleClash(r, bs, cs)
  }

  /** Some split point of cell (i, j) clashes. */
  predicate SpanClash(rules: seq<Rule>, tokens: seq<string>, i: nat, j: nat)
    requires i < j <= |tokens|
  {
    exists k | i < k < j :: Clash(rules, Span(rules, tokens, i, k), Span(rules, tokens, k, j))
  }

  /**
   * _buildTable raises IndexError on this sentence: a rule without right
   * symbols as soon as the first leaf cell is filled, or a clash in some cell.
   */
  predicate Crashes(rules: seq<Rule>, tokens: seq<string>) {
    (|tokens| > 0 && !HasRight(rules)) ||
    exists i, j | 0 <= i < j <= |tokens| :: SpanClash(rules, tokens, i, j)
  }

  /**
   * A grammar in Chomsky Normal Form whose left sides are all nonterminals
   * never crashes the table: its one-symbol rules have a terminal on the
   * right, and no entry is named by a terminal.
   */
  lemma CnfNeverCrashes(rules: seq<Rule>, tokens: seq<string>)
    requires forall r | r in rules :: IsCnf(r) && !IsTerminal(r.left)
    ensures !Crashes(rules, tokens)
  {
    if exists i, j | 0 <= i < j <= |tokens| :: SpanClash(rules, tokens, i, j) {
      var i, j :| 0 <= i < j <= |tokens| && SpanClash(rules, tokens, i, j);
      var k :| i < k < j && Clash(rules, Span(rules, tokens, i, k), Span(rules, tokens, k, j));
      var bs := Span(rules, tokens, i, k);
      var r :| r in rules && RuleClash(r, bs, Span(rules, tokens, k, j));
      var b :| 0 <= b < |bs| && r.right[0] == bs[b].name;
      SpanNames(rules, tokens, i, k, bs[b]);
      assert false;
    }
  }

  /**
   * _isCnf alone is not enough: a rule with a terminal left side and one
   * nonterminal on the right passes it, and on the tokens "b b" its right
   * symbol names the entry of cell (0, 1) while cell (1, 2) is not empty.
   */
  lemma TerminalLeftCrashes()
    ensures forall r | r in [Rule("'a'", ["B"]), Rule("B", ["'b'"])] :: IsCnf(r)
    ensures Crashes([Rule("'a'", ["B"]), Rule("B", ["'b'"])], ["b", "b"])
  {
    var rules, tokens := [Rule("'a'", ["B"]), Rule("B", ["'b'"])], ["b", "b"];
    assert IsTerminal(rules[0].left) && IsTerminal(rules[1].right[0]);
    assert Quote("b") == "'b'";
    assert LeafCell(rules, "b") == [Entry("B", [])] by {
      assert rules[..1] == [rules[0]] && rules[..1][..0] == [];
    }
    var bs, cs := Span(rules, tokens, 0, 1), Span(rules, tokens, 1, 2);
    assert tokens[0] == "b" && tokens[1] == "b";
    assert bs == [Entry("B", [])] && cs == [Entry("B", [])];
    assert rules[0].right[0] == bs[0].name;
    assert RuleClash(rules[0], bs, cs);
    assert SpanClash(rules, tokens, 0, 2);
  }

  /** The cell (a, b) of the filled table: empty unless a < b. */
  function Chart(rules: seq<Rule>, tokens: seq<string>, a: nat, b: nat): seq<Entry> {
    if a < b <= |tokens| then Span(rules, tokens, a, b) else []
  }

  // -------------------------------------------------------------- rendering

  /** Two spaces per level of depth. */
  function Indent(depth: nat): string {
    if depth == 0 then "" else Indent(depth - 1) + "  "
  }

  /** What a node prints before its children: newline, indent, "(" and its name. */
  function Open(name: string, depth: nat): string {
    "\n" + Indent(depth) + "(" + name
  }

  /** A pointer from cell (i, j) to a smaller cell, naming one of its entries. */
  predicate Below(rules: seq<Rule>, tokens: seq<string>, i: nat, j: nat, p: Pointer) {
    p.i < p.j <= |tokens| && p.j - p.i < j - i && p.tagIdx < |Span(rules, tokens, p.i, p.j)|
  }

  lemma PointersBelow(rules: seq<Rule>, tokens: seq<string>, i: nat, j: nat, e: Entry)
    requires i < j <= |tokens| && e in Span(rules, tokens, i, j)
    ensures forall p | p in e.pointers :: Below(rules, tokens, i, j, p)
  {
    if j == i + 1 {
      LeafPointers(rules, tokens, i, e);
    } else {
      var k, r, b, c := SpanFrom(rules, tokens, i, j, e);
    }
  }

  /**
   * _addNodeToString for entry e of cell (i, j) at the given depth, with
   * toks the tokens not yet printed: the text it appends and the tokens it
   * leaves. A node without pointers prints the first token left, if any.
   */
  function Render(rules: seq<Rule>, tokens: seq<string>, i: nat, j: nat, e: Entry, depth: nat, toks: seq<string>):
    (string, seq<string>)
    requires i < j <= |tokens| && e in Span(rules, tokens, i, j)
    decreases j - i, 1, 0
  {
    PointersBelow(rules, tokens, i, j, e);
    var (kids, rest) := RenderAll(rules, tokens, i, j, e.pointers, depth + 1, toks);
    if |e.pointers| == 0 && |rest| > 0 then
      (Open(e.name, depth) + kids + " " + rest[0] + ")", rest[1..])
    else
      (Open(e.name, depth) + kids + ")", rest)
  }

  /** The loop over a node's pointers, each child rendered in turn. */
  function RenderAll(rules: seq<Rule>, tokens: seq<string>, i: nat, j: nat, ps: seq<Pointer>, depth: nat, toks: seq<string>):
    (string, seq<string>)
    requires forall p | p in ps :: Below(rules, tokens, i, j, p)
    decreases j - i, 0, |ps|
  {
    if ps == [] then ("", toks)
    else
      var p := ps[0];
      assert p in ps && Below(rules, tokens, i, j, p);
      var (first, mid) := Render(rules, tokens, p.i, p.j, Span(rules, tokens, p.i, p.j)[p.tagIdx], depth, toks);
      var (others, rest) := RenderAll(rules, tokens, i, j, ps[1..], depth, mid);
      (first + others, rest)
  }

  /** The first pointer of ps rendered, then the others from the tokens it leaves. */
  lemma RenderAllFirst(rules: seq<Rule>, tokens: seq<string>, i: nat, j: nat, ps: seq<Pointer>, depth: nat, toks: seq<string>)
    requires ps != [] && forall p | p in ps :: Below(rules, tokens, i, j, p)
    ensures Below(rules, tokens, i, j, ps[0])
    ensures var first := Render(rules, tokens, ps[0].i, ps[0].j, Span(rules, tokens, ps[0].i, ps[0].j)[ps[0].tagIdx], depth, toks);
      RenderAll(rules, tokens, i, j, ps, depth, toks) ==
        (first.0 + RenderAll(rules, tokens, i, j, ps[1..], depth, first.1).0, RenderAll(rules, tokens, i, j, ps[1..], depth, first.1).1)
  {
    assert ps[0] in ps;
  }

  /**
   * A tree over cell (i, j) has one leaf per token of its span, read left to
   * right: rendering it consumes the next j - i tokens (all there are, if
   * fewer remain).
   */
  lemma {:induction false} RenderConsumes(rules: seq<Rule>, tokens: seq<string>, i: nat, j: nat, e: Entry, depth: nat, toks: seq<string>)
    requires i < j <= |tokens| && e in Span(rules, tokens, i, j)
    ensures Render(rules, tokens, i, j, e, depth, toks).1 == if j - i <= |toks| then toks[j - i..] else []
    decreases j - i
  {
    if j == i + 1 {
      RenderLeaf(rules, tokens, i, e, depth, toks);
    } else {
      var k, r, b, c := SpanFrom(rules, tokens, i, j, e);
      RenderShape(rules, tokens, i, k, j, b, c, e, depth, toks);
      var mid := Render(rules, tokens, i, k, Span(rules, tokens, i, k)[b], depth + 1, toks).1;
      RenderConsumes(rules, tokens, i, k, Span(rules, tokens, i, k)[b], depth + 1, toks);
      RenderConsumes(rules, tokens, k, j, Span(rules, tokens, k, j)[c], depth + 1, mid);
      if j - i <= |toks| {
        assert mid[j - k..] == toks[j - i..];
      }
    }
  }

  /** A leaf prints the first token left, if any, and consumes it. */
  lemma RenderLeaf(rules: seq<Rule>, tokens: seq<string>, i: nat, e: Entry, depth: nat, toks: seq<string>)
    requires i < |tokens| && e in Span(rules, tokens, i, i + 1)
    ensures Render(rules, tokens, i, i + 1, e, depth, toks) ==
      if |toks| > 0 then (Open(e.name, depth) + " " + toks[0] + ")", toks[1..])
      else (Open(e.name, depth) + ")", toks)
  {
    LeafPointers(rules, tokens, i, e);
    PointersBelow(rules, tokens, i, i + 1, e);
    assert RenderAll(rules, tokens, i, i + 1, e.pointers, depth + 1, toks) == ("", toks);
    assert Open(e.name, depth) + "" == Open(e.name, depth);
  }

  /** A binary node prints its b child, then its c child, between its parentheses. */
  lemma RenderShape(rules: seq<Rule>, tokens: seq<string>, i: nat, k: nat, j: nat, b: nat, c: nat,
                    e: Entry, depth: nat, toks: seq<string>)
    requires i < k < j <= |tokens| && e in Span(rules, tokens, i, j)
    requires b < |Span(rules, tokens, i, k)| && c < |Span(rules, tokens, k, j)|
    requires e.pointers == [Pointer(i, k, b), Pointer(k, j, c)]
    ensures var left := Render(rules, tokens, i, k, Span(rules, tokens, i, k)[b], depth + 1, toks);
      var right := Render(rules, tokens, k, j, Span(rules, tokens, k, j)[c], depth + 1, left.1);
      Render(rules, tokens, i, j, e, depth, toks) == (Open(e.name, depth) + (left.0 + right.0) + ")", right.1)
  {
    PointersBelow(rules, tokens, i, j, e);
    var ps := e.pointers;
    assert ps[1..] == [Pointer(k, j, c)] && ps[1..][1..] == [];
    var (left, mid) := Render(rules, tokens, i, k, Span(rules, tokens, i, k)[b], depth + 1, toks);
    var (right, rest) := Render(rules, tokens, k, j, Span(rules, tokens, k, j)[c], depth + 1, mid);
    assert RenderAll(rules, tokens, i, j, ps[1..][1..], depth + 1, rest) == ("", rest);
    assert RenderAll(rules, tokens, i, j, ps[1..], depth + 1, mid) == (right + "", rest);
    assert right + "" == right;
  }

  /** No parenthesis in a string. */
  predicate NoParens(s: string) {
    '(' !in s && ')' !in s
  }

  lemma {:induction false} NoParensCount(s: string)
    requires NoParens(s)
    ensures CountChar(s, '(') == 0 && CountChar(s, ')') == 0
    decreases |s|
  {
    if s != [] {
      assert s[0] != '(' && s[0] != ')';
      assert forall x | x in s[1..] :: x in s;
      NoParensCount(s[1..]);
    }
  }

  lemma {:induction false} IndentNoParens(depth: nat)
    ensures NoParens(Indent(depth))
    decreases depth
  {
    if depth > 0 {
      IndentNoParens(depth - 1);
    }
  }

  /** The parentheses of a string, both kinds. */
  function Parens(s: string): (nat, nat) {
    (CountChar(s, '('), CountChar(s, ')'))
  }

  lemma ParensAppend(a: string, b: string)
    ensures Parens(a + b) == (Parens(a).0 + Parens(b).0, Parens(a).1 + Parens(b).1)
  {
    CountCharAppend(a, b, '(');
    CountCharAppend(a, b, ')');
  }

  lemma OpenParens(name: string, depth: nat)
    requires NoParens(name)
    ensures Parens(Open(name, depth)) == (1, 0)
  {
    IndentNoParens(depth);
    var pre := "\n" + Indent(depth);
    assert NoParens(pre);
    NoParensCount(pre);
    NoParensCount(name);
    assert Open(name, depth) == pre + "(" + name;
    ParensAppend(pre, "(");
    ParensAppend(pre + "(", name);
  }

  /**
   * With no parenthesis in the rules' left sides or in the tokens, a tree
   * over cell (i, j) prints one "(" and one ")" per node, and it has
   * 2(j - i) - 1 nodes: j - i leaves and one fewer binary nodes.
   */
  lemma {:induction false} RenderParens(rules: seq<Rule>, tokens: seq<string>, i: nat, j: nat, e: Entry, depth: nat, toks: seq<string>)
    requires i < j <= |tokens| && e in Span(rules, tokens, i, j)
    requires forall r | r in rules :: NoParens(r.left)
    requires forall t | t in toks :: NoParens(t)
    ensures Parens(Render(rules, tokens, i, j, e, depth, toks).0) == (2 * (j - i) - 1, 2 * (j - i) - 1)
    decreases j - i
  {
    SpanNames(rules, tokens, i, j, e);
    if j == i + 1 {
      LeafParens(rules, tokens, i, e, depth, toks);
    } else {
      var k, r, b, c := SpanFrom(rules, tokens, i, j, e);
      RenderShape(rules, tokens, i, k, j, b, c, e, depth, toks);
      var eb, ec := Span(rules, tokens, i, k)[b], Span(rules, tokens, k, j)[c];
      var left := Render(rules, tokens, i, k, eb, depth + 1, toks);
      RenderParens(rules, tokens, i, k, eb, depth + 1, toks);
      RenderConsumes(rules, tokens, i, k, eb, depth + 1, toks);
      assert forall t | t in left.1 :: t in toks;
      var right := Render(rules, tokens, k, j, ec, depth + 1, left.1);
      RenderParens(rules, tokens, k, j, ec, depth + 1, left.1);
      NodeParens(e.name, depth, left.0, right.0);
    }
  }

  /** A leaf prints one "(" and one ")". */
  lemma LeafParens(rules: seq<Rule>, tokens: seq<string>, i: nat, e: Entry, depth: nat, toks: seq<string>)
    requires i < |tokens| && e in Span(rules, tokens, i, i + 1) && NoParens(e.name)
    requires forall t | t in toks :: NoParens(t)
    ensures Parens(Render(rules, tokens, i, i + 1, e, depth, toks).0) == (1, 1)
  {
    RenderLeaf(rules, tokens, i, e, depth, toks);
    if |toks| > 0 {
      assert toks[0] in toks;
      LeafTextParens(e.name, depth, toks[0]);
    } else {
      LeafTextParens(e.name, depth, "");
    }
  }

  /** The text of a leaf node, with or without its word, has one pair of parentheses. */
  lemma LeafTextParens(name: string, depth: nat, word: string)
    requires NoParens(name) && NoParens(word)
    ensures Parens(Open(name, depth) + " " + word + ")") == (1, 1)
    ensures Parens(Open(name, depth) + ")") == (1, 1)
  {
    OpenParens(name, depth);
    var open := Open(name, depth);
    NoParensCount(word);
    ParensAppend(open, " ");
    ParensAppend(open + " ", word);
    ParensAppend(open + " " + word, ")");
    ParensAppend(open, ")");
  }


  /** A binary node adds its own "(" and ")" to those of its children. */
  lemma NodeParens(name: string, depth: nat, left: string, right: string)
    requires NoParens(name) && Parens(left).0 == Parens(left).1 && Parens(right).0 == Parens(right).1
    ensures Parens(Open(name, depth) + (left + right) + ")") ==
      (Parens(left).0 + Parens(right).0 + 1, Parens(left).0 + Parens(right).0 + 1)
  {
    OpenParens(name, depth);
    var open := Open(name, depth);
    ParensAppend(left, right);
    ParensAppend(open, left + right);
    ParensAppend(open + (left + right), ")");
  }

  // ---------------------------------------------------------- _buildStrings

  /** The root cell (0, n); a sentence without tokens has none to read. */
  function Root(rules: seq<Rule>, tokens: seq<string>): seq<Entry> {
    if |tokens| == 0 then [] else Span(rules, tokens, 0, |tokens|)
  }


  /** The trees of the first m root entries named TOP, in cell order. */
  function Trees(rules: seq<Rule>, tokens: seq<string>, m: nat): seq<string>
    requires m <= |Root(rules, tokens)|
  {
    if m == 0 then []
    else
      var e := Root(rules, tokens)[m - 1];
      Trees(rules, tokens, m - 1) +
      (if e.name == Grammar.Start then [Render(rules, tokens, 0, |tokens|, e, 0, tokens).0] else [])
  }

  /** How many of the first m root entries are named TOP. */
  function StartCount(root: seq<Entry>, m: nat): nat
    requires m <= |root|
  {
    if m == 0 then 0 else StartCount(root, m - 1) + (if root[m - 1].name == Grammar.Start then 1 else 0)
  }

  /**
   * _buildStrings gives one tree per TOP entry of the root cell, in cell
   * order, each the render of such an entry over all the tokens; with no
   * parentheses in names or tokens each has 2n - 1 "(" and as many ")".
   */
  lemma {:induction false} TreesSpec(rules: seq<Rule>, tokens: seq<string>, m: nat)
    requires m <= |Root(rules, tokens)|
    requires forall r | r in rules :: NoParens(r.left)
    requires forall t | t in tokens :: NoParens(t)
    ensures |Trees(rules, tokens, m)| == StartCount(Root(rules, tokens), m)
    ensures forall s | s in Trees(rules, tokens, m) ::
      Parens(s) == (2 * |tokens| - 1, 2 * |tokens| - 1) &&
      exists e | e in Root(rules, tokens) :: e.name == Grammar.Start && s == Render(rules, tokens, 0, |tokens|, e, 0, tokens).0
    decreases m
  {
    if m > 0 {
      TreesSpec(rules, tokens, m - 1);
      var e := Root(rules, tokens)[m - 1];
      if e.name == Grammar.Start {
        RenderParens(rules, tokens, 0, |tokens|, e, 0, tokens);
      }
    }
  }

  /** A sentence without tokens has no tree. */
  lemma NoTokensNoTrees(rules: seq<Rule>)
    ensures Trees(rules, [], 0) == [] && Root(rules, []) == []
  {
  }

  /** Every tree of the sentence consumes exactly all of its tokens. */
  lemma TreeReadsAllTokens(rules: seq<Rule>, tokens: seq<string>, e: Entry)
    requires e in Root(rules, tokens)
    ensures Render(rules, tokens, 0, |tokens|, e, 0, tokens).1 == []
  {
    RenderConsumes(rules, tokens, 0, |tokens|, e, 0, tokens);
  }

  /** CkyParser._parse on a sentence that does not crash _buildTable. */
  function Parse(rules: seq<Rule>, tokens: seq<string>): seq<string> {
    Trees(rules, tokens, |Root(rules, tokens)|)
  }
}
