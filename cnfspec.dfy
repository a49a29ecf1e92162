// What class CnfGrammar of hw2.py computes, as functions on values: the
// state of the two worklists and of the allocated names, and each of the
// three rewriting passes as a scan over _todo that follows the Python
// `for i, rule in enumerate(self._todo)` loop index by index, including
// the element it skips after each pop(i).
module CnfSpec {
  import opened Wrappers
  import opened Rules
  import opened Lists
  import opened Grammar
  import Text

  /** _todo, _done and _newTags of a CnfGrammar. */
  datatype State = State(todo: seq<Rule>, done: seq<Rule>, tags: seq<string>)

  /**
   * How a conversion can end without a grammar: Python's recursion limit in
   * _convertUnitProductions, or an IndexError at rule.right[0] / rule.right[1]
   * in _convertNonBinary.
   */
  datatype Failure = RecursionLimit | RightTooShort

  /** The rules a conversion step hands back, with the names allocated so far. */
  datatype Converted = Converted(rules: seq<Rule>, tags: seq<string>)

  /** list.pop(i) */
  function RemoveAt<T>(s: seq<T>, i: nat): (r: seq<T>)
    requires i < |s|
    ensures |r| == |s| - 1
    ensures forall q | 0 <= q < i :: r[q] == s[q]
    ensures forall q | i <= q < |r| :: r[q] == s[q + 1]
    ensures forall x | x in r :: x in s
  {
    s[..i] + s[i + 1..]
  }

  lemma RemoveAtKeeps<T>(s: seq<T>, i: nat, x: T)
    requires i < |s| && x in s && s[i] != x
    ensures x in RemoveAt(s, i)
  {
    var q :| 0 <= q < |s| && s[q] == x;
    if q < i {
      assert RemoveAt(s, i)[q] == x;
    } else {
      assert RemoveAt(s, i)[q - 1] == x;
    }
  }

  lemma RemoveAtMultiset<T>(s: seq<T>, i: nat)
    requires i < |s|
    ensures multiset(RemoveAt(s, i)) + multiset{s[i]} == multiset(s)
  {
    assert s == s[..i] + [s[i]] + s[i + 1..];
  }

  /** The done list holds only _isCnf rules and the todo list none. */
  predicate Partitioned(st: State) {
    (forall x | x in st.done :: IsCnf(x)) && (forall x | x in st.todo :: !IsCnf(x))
  }

  /** No rule of the state has an empty right side. */
  predicate NoEmptyRight(st: State) {
    (forall x | x in st.todo :: x.right != []) && (forall x | x in st.done :: x.right != [])
  }

  predicate HasEmptyRight(rs: seq<Rule>) {
    exists x | x in rs :: x.right == []
  }

  // ------------------------------------------------------------- _sortRules

  /**
   * _sortRules: every _isCnf rule is appended to _done and every other rule
   * to _todo, each list keeping the order of rs.
   */
  function SortRules(st: State, rs: seq<Rule>): State {
    State(st.todo + Reject(rs, IsCnf), st.done + Filter(rs, IsCnf), st.tags)
  }

  /**
   * _sortRules only appends: the old lists are prefixes of the new ones,
   * what is added to _todo fails _isCnf, what is added to _done passes it,
   * all of it comes from rs, and lists sorted by _isCnf stay sorted.
   */
  lemma SortRulesSorts(st: State, rs: seq<Rule>)
    ensures var r := SortRules(st, rs);
      |r.todo| >= |st.todo| && |r.done| >= |st.done| &&
      r.todo[..|st.todo|] == st.todo && r.done[..|st.done|] == st.done
    ensures var r := SortRules(st, rs);
      (forall x | x in r.todo[|st.todo|..] :: !IsCnf(x) && x in rs) &&
      (forall x | x in r.done[|st.done|..] :: IsCnf(x) && x in rs)
    ensures SortRules(st, rs).tags == st.tags
    ensures Partitioned(st) ==> Partitioned(SortRules(st, rs))
  {
    var r := SortRules(st, rs);
    assert r.todo[|st.todo|..] == Reject(rs, IsCnf);
    assert r.done[|st.done|..] == Filter(rs, IsCnf);
  }

  /** _sortRules loses no rule and duplicates none. */
  lemma SortRulesKeepsAll(st: State, rs: seq<Rule>)
    ensures var r := SortRules(st, rs);
      multiset(r.todo) + multiset(r.done) == multiset(st.todo) + multiset(st.done) + multiset(rs)
  {
    FilterSplit(rs, IsCnf);
  }

  /** Sorting rules with non-empty right sides keeps every right side non-empty. */
  lemma SortRulesNoEmpty(st: State, rs: seq<Rule>)
    requires NoEmptyRight(st)
    requires forall x | x in rs :: x.right != []
    ensures NoEmptyRight(SortRules(st, rs))
  {
    var r := SortRules(st, rs);
    forall x | x in r.todo ensures x.right != [] {
      assert x in multiset(r.todo);
    }
    forall x | x in r.done ensures x.right != [] {
      assert x in multiset(r.done);
    }
  }

  // --------------------------------------------------------- _convertHybrid

  /** The rules, the new right side and the names of _convertHybrid part way through its loop. */
  datatype Hybrid = Hybrid(rules: seq<Rule>, rights: seq<string>, tags: seq<string>)

  /**
   * What the loop of _convertHybrid has built after the first m names of
   * right: one unary rule per terminal seen, each with a fresh nonterminal
   * name allocated after tags, and the first m names of the new right side.
   */
  predicate HybridInv(tags: seq<string>, right: seq<string>, m: nat, h: Hybrid)
    requires m <= |right|
  {
    var terms := Filter(right[..m], IsTerminal);
    |h.rights| == m && |h.tags| == |tags| + |h.rules| && h.tags[..|tags|] == tags &&
    |h.rules| == |terms| &&
    (forall q | 0 <= q < |h.rules| :: h.rules[q] == Rule(h.tags[|tags| + q], [terms[q]])) &&
    (forall q | |tags| <= q < |h.tags| :: !IsTerminal(h.tags[q])) &&
    (forall k | 0 <= k < m :: !IsTerminal(h.rights[k])) &&
    (forall k | 0 <= k < m :: !IsTerminal(right[k]) ==> h.rights[k] == right[k]) &&
    (forall k | 0 <= k < m :: IsTerminal(right[k]) ==> Rule(h.rights[k], [right[k]]) in h.rules)
  }

  /** One turn of the loop: a terminal gets the new name t and a rule t -> name; a nonterminal is kept. */
  function HybridNext(h: Hybrid, name: string, t: string): Hybrid {
    if IsTerminal(name) then Hybrid(h.rules + [Rule(t, [name])], h.rights + [t], h.tags + [t])
    else Hybrid(h.rules, h.rights + [name], h.tags)
  }

  /** The first m turns of the loop of _convertHybrid over right. */
  function HybridPrefix(tags: seq<string>, right: seq<string>, m: nat): (h: Hybrid)
    requires m <= |right|
    ensures HybridInv(tags, right, m, h)
  {
    if m == 0 then
      assert right[..0] == [];
      Hybrid([], [], tags)
    else
      var h := HybridPrefix(tags, right, m - 1);
      var name := right[m - 1];
      if IsTerminal(name) then
        var t := NewTagName(h.tags, name);
        NewTagNameIsNonterminal(h.tags, name);
        HybridStep(tags, right, m, h, t);
        HybridNext(h, name, t)
      else
        HybridStep(tags, right, m, h, name);
        HybridNext(h, name, name)
  }

  lemma HybridStep(tags: seq<string>, right: seq<string>, m: nat, h: Hybrid, t: string)
    requires 0 < m <= |right| && HybridInv(tags, right, m - 1, h) && !IsTerminal(t)
    ensures HybridInv(tags, right, m, HybridNext(h, right[m - 1], t))
  {
    FilterSnoc(right, m, IsTerminal);
    if IsTerminal(right[m - 1]) {
      HybridStepTerminal(tags, right, m, h, t);
    } else {
      HybridStepOther(tags, right, m, h);
    }
  }

  lemma HybridStepTerminal(tags: seq<string>, right: seq<string>, m: nat, h: Hybrid, t: string)
    requires 0 < m <= |right| && HybridInv(tags, right, m - 1, h) && !IsTerminal(t)
    requires IsTerminal(right[m - 1])
    requires Filter(right[..m], IsTerminal) == Filter(right[..m - 1], IsTerminal) + [right[m - 1]]
    ensures HybridInv(tags, right, m, HybridNext(h, right[m - 1], t))
  {
    var name := right[m - 1];
    var n := Hybrid(h.rules + [Rule(t, [name])], h.rights + [t], h.tags + [t]);
    var terms := Filter(right[..m], IsTerminal);
    var old_terms := Filter(right[..m - 1], IsTerminal);
    assert n.tags[..|tags|] == h.tags[..|tags|];
    assert |n.rules| == |terms|;
    forall q | 0 <= q < |n.rules| ensures n.rules[q] == Rule(n.tags[|tags| + q], [terms[q]]) {
      if q < |h.rules| {
        assert n.rules[q] == h.rules[q] && n.tags[|tags| + q] == h.tags[|tags| + q];
        assert terms[q] == old_terms[q];
      } else {
        assert n.tags[|tags| + q] == t && terms[q] == name;
      }
    }
    forall q | |tags| <= q < |n.tags| ensures !IsTerminal(n.tags[q]) {
      if q < |h.tags| { assert n.tags[q] == h.tags[q]; }
    }
    forall k | 0 <= k < m ensures !IsTerminal(n.rights[k]) {
      if k < m - 1 { assert n.rights[k] == h.rights[k]; }
    }
    forall k | 0 <= k < m && !IsTerminal(right[k]) ensures n.rights[k] == right[k] {
      assert k < m - 1 && n.rights[k] == h.rights[k];
    }
    forall k | 0 <= k < m && IsTerminal(right[k]) ensures Rule(n.rights[k], [right[k]]) in n.rules {
      if k < m - 1 {
        assert n.rights[k] == h.rights[k];
        assert Rule(h.rights[k], [right[k]]) in h.rules;
      } else {
        assert n.rules[|h.rules|] == Rule(t, [name]);
      }
    }
    assert HybridNext(h, name, t) == n;
  }

  lemma HybridStepOther(tags: seq<string>, right: seq<string>, m: nat, h: Hybrid)
    requires 0 < m <= |right| && HybridInv(tags, right, m - 1, h)
    requires !IsTerminal(right[m - 1])
    requires Filter(right[..m], IsTerminal) == Filter(right[..m - 1], IsTerminal) + []
    ensures HybridInv(tags, right, m, HybridNext(h, right[m - 1], right[m - 1]))
  {
    var name := right[m - 1];
    var n := Hybrid(h.rules, h.rights + [name], h.tags);
    assert Filter(right[..m], IsTerminal) == Filter(right[..m - 1], IsTerminal);
    forall k | 0 <= k < m ensures !IsTerminal(n.rights[k]) {
      if k < m - 1 { assert n.rights[k] == h.rights[k]; }
    }
    forall k | 0 <= k < m && !IsTerminal(right[k]) ensures n.rights[k] == right[k] {
      if k < m - 1 { assert n.rights[k] == h.rights[k]; }
    }
    forall k | 0 <= k < m && IsTerminal(right[k]) ensures Rule(n.rights[k], [right[k]]) in n.rules {
      assert k < m - 1 && n.rights[k] == h.rights[k];
    }
    assert HybridNext(h, name, name) == n;
  }

  /**
   * _convertHybrid: one rule NEW -> 't' per terminal 't' of the right side,
   * in right-side order, followed by left -> newRights, where newRights has
   * the old length, every terminal replaced by its new name and every
   * nonterminal kept in place.
   */
  function ConvertHybrid(tags: seq<string>, rule: Rule): (c: Converted)
    ensures |c.rules| == |Filter(rule.right, IsTerminal)| + 1
    ensures |c.tags| == |tags| + |c.rules| - 1 && c.tags[..|tags|] == tags
    ensures forall q | 0 <= q < |c.rules| - 1 ::
      c.rules[q] == Rule(c.tags[|tags| + q], [Filter(rule.right, IsTerminal)[q]]) && IsCnf(c.rules[q])
    ensures forall q | |tags| <= q < |c.tags| :: !IsTerminal(c.tags[q])
    ensures var last := c.rules[|c.rules| - 1];
      last.left == rule.left && |last.right| == |rule.right| &&
      (forall k | 0 <= k < |rule.right| :: !IsTerminal(last.right[k])) &&
      (forall k | 0 <= k < |rule.right| :: !IsTerminal(rule.right[k]) ==> last.right[k] == rule.right[k]) &&
      (forall k | 0 <= k < |rule.right| :: IsTerminal(rule.right[k]) ==> Rule(last.right[k], [rule.right[k]]) in c.rules)
  {
    var h := HybridPrefix(tags, rule.right, |rule.right|);
    HybridResult(tags, rule, h);
    Converted(h.rules + [Rule(rule.left, h.rights)], h.tags)
  }

  lemma HybridResult(tags: seq<string>, rule: Rule, h: Hybrid)
    requires HybridInv(tags, rule.right, |rule.right|, h)
    ensures var c := Converted(h.rules + [Rule(rule.left, h.rights)], h.tags);
      |c.rules| == |Filter(rule.right, IsTerminal)| + 1 &&
      (forall q | 0 <= q < |c.rules| - 1 ::
        c.rules[q] == Rule(c.tags[|tags| + q], [Filter(rule.right, IsTerminal)[q]]) && IsCnf(c.rules[q])) &&
      (forall k | 0 <= k < |rule.right| :: IsTerminal(rule.right[k]) ==> Rule(h.rights[k], [rule.right[k]]) in c.rules)
  {
    assert rule.right[..|rule.right|] == rule.right;
    var c := Converted(h.rules + [Rule(rule.left, h.rights)], h.tags);
    forall q | 0 <= q < |c.rules| - 1
      ensures c.rules[q] == Rule(c.tags[|tags| + q], [Filter(rule.right, IsTerminal)[q]]) && IsCnf(c.rules[q])
    {
      assert c.rules[q] == h.rules[q];
      assert IsTerminal(h.rules[q].right[0]);
    }
    forall k | 0 <= k < |rule.right| && IsTerminal(rule.right[k])
      ensures Rule(h.rights[k], [rule.right[k]]) in c.rules
    {
      var x := Rule(h.rights[k], [rule.right[k]]);
      var q :| 0 <= q < |h.rules| && h.rules[q] == x;
      assert c.rules[q] == x;
    }
  }

  /** A hybrid conversion leaves at most one rule (the last) that is not _isCnf. */
  lemma ConvertHybridLeavesOne(tags: seq<string>, rule: Rule)
    ensures |Reject(ConvertHybrid(tags, rule).rules, IsCnf)| <= 1
  {
    var rs := ConvertHybrid(tags, rule).rules;
    var n := |rs| - 1;
    assert rs == rs[..n] + [rs[n]];
    RejectAppend(rs[..n], [rs[n]], IsCnf);
    FilterAll(rs[..n], IsCnf);
  }

  // -------------------------------------------------------- _convertHybrids

  /**
   * _convertHybrids from loop index i on: a rule with a terminal is popped
   * and its conversion sorted back in; the index moves on either way, so
   * the rule that slid into position i after a pop is not looked at.
   */
  function HybridScan(st: State, i: nat): State
    decreases |st.todo| - i
  {
    if i >= |st.todo| then st
    else if ContainsTerminal(st.todo[i]) then
      ConvertHybridLeavesOne(st.tags, st.todo[i]);
      HybridScan(PopHybrid(st, i), i + 1)
    else
      HybridScan(st, i + 1)
  }

  /**
   * The hybrid pass keeps _done and _todo sorted by _isCnf, adds no empty
   * right side, and keeps an empty right side in _todo.
   */
  lemma {:induction false} HybridScanKeeps(st: State, i: nat)
    ensures Partitioned(st) ==> Partitioned(HybridScan(st, i))
    ensures NoEmptyRight(st) ==> NoEmptyRight(HybridScan(st, i))
    ensures HasEmptyRight(st.todo) ==> HasEmptyRight(HybridScan(st, i).todo)
    decreases |st.todo| - i
  {
    if i < |st.todo| {
      if ContainsTerminal(st.todo[i]) {
        ConvertHybridLeavesOne(st.tags, st.todo[i]);
        HybridStepKeeps(st, i);
        HybridScanKeeps(PopHybrid(st, i), i + 1);
      } else {
        HybridScanKeeps(st, i + 1);
      }
    }
  }

  /** The state after the hybrid step at index i. */
  function PopHybrid(st: State, i: nat): State
    requires i < |st.todo|
  {
    var c := ConvertHybrid(st.tags, st.todo[i]);
    SortRules(State(RemoveAt(st.todo, i), st.done, c.tags), c.rules)
  }

  /**
   * One turn of the loop of _convertHybrids on a rule with a terminal, as
   * the parts of the step produce it: the scan goes on from the next index
   * over worklists that did not grow.
   */
  lemma HybridScanPop(st: State, i: nat)
    requires i < |st.todo| && ContainsTerminal(st.todo[i])
    ensures HybridScan(PopHybrid(st, i), i + 1) == HybridScan(st, i)
    ensures |PopHybrid(st, i).todo| <= |st.todo|
  {
    ConvertHybridLeavesOne(st.tags, st.todo[i]);
  }

  /** One hybrid step keeps the invariants of the worklists. */
  lemma HybridStepKeeps(st: State, i: nat)
    requires i < |st.todo|
    ensures Partitioned(st) ==> Partitioned(PopHybrid(st, i))
    ensures NoEmptyRight(st) ==> NoEmptyRight(PopHybrid(st, i))
    ensures HasEmptyRight(st.todo) ==> HasEmptyRight(PopHybrid(st, i).todo)
  {
    var rule := st.todo[i];
    var c := ConvertHybrid(st.tags, rule);
    var rest := State(RemoveAt(st.todo, i), st.done, c.tags);
    var last := c.rules[|c.rules| - 1];
    assert last in c.rules;
    if NoEmptyRight(st) {
      forall x | x in c.rules ensures x.right != [] {
        var q :| 0 <= q < |c.rules| && c.rules[q] == x;
        if q < |c.rules| - 1 {
          assert |x.right| == 1;
        } else {
          assert |x.right| == |rule.right|;
        }
      }
      SortRulesNoEmpty(rest, c.rules);
    }
    if HasEmptyRight(st.todo) {
      var e :| e in st.todo && e.right == [];
      var next := PopHybrid(st, i);
      assert next.todo == rest.todo + Reject(c.rules, IsCnf);
      if rule == e {
        assert last.right == [] && !IsCnf(last);
        RejectHas(c.rules, IsCnf, last);
        assert last in next.todo;
      } else {
        RemoveAtKeeps(st.todo, i, e);
        assert e in next.todo;
      }
    }
  }

  // ------------------------------------------------ _convertUnitProduction

  /** The test cnfRule.left == fromTag of _convertUnitProduction. */
  function LeftIs(name: string): Rule -> bool {
    (x: Rule) => x.left == name
  }

  /** The rules among rs whose left side is name, in list order. */
  function RulesFor(rs: seq<Rule>, name: string): (r: seq<Rule>)
    ensures forall x | x in r :: x in rs && x.left == name
  {
    Filter(rs, LeftIs(name))
  }

  lemma RulesForAll(rs: seq<Rule>, name: string, x: Rule)
    requires x in rs && x.left == name
    ensures x in RulesFor(rs, name)
    decreases |rs|
  {
    if rs[0] != x {
      RulesForAll(rs[1..], name, x);
    }
  }

  /** RulesFor over one more rule of rs, after some rules pre already collected. */
  lemma RulesForSnoc(pre: seq<Rule>, rs: seq<Rule>, k: nat, name: string)
    requires k < |rs|
    ensures rs[k].left == name ==> pre + RulesFor(rs[..k + 1], name) == (pre + RulesFor(rs[..k], name)) + [rs[k]]
    ensures rs[k].left != name ==> pre + RulesFor(rs[..k + 1], name) == pre + RulesFor(rs[..k], name)
  {
    FilterSnoc(rs, k + 1, LeftIs(name));
    if rs[k].left == name {
      assert RulesFor(rs[..k + 1], name) == RulesFor(rs[..k], name) + [rs[k]];
      SnocAssoc(pre, RulesFor(rs[..k], name), rs[k]);
    } else {
      assert RulesFor(rs[..k + 1], name) == RulesFor(rs[..k], name) + [];
    }
  }

  /** A copy of each rule of children with its left side replaced by left. */
  function Retarget(left: string, children: seq<Rule>): (r: seq<Rule>)
    ensures |r| == |children|
    ensures forall q | 0 <= q < |r| :: r[q] == Rule(left, children[q].right)
  {
    seq(|children|, q requires 0 <= q < |children| => Rule(left, children[q].right))
  }

  lemma RetargetSnoc(left: string, children: seq<Rule>, k: nat)
    requires k < |children|
    ensures Retarget(left, children[..k + 1]) == Retarget(left, children[..k]) + [Rule(left, children[k].right)]
  {
  }

  lemma RetargetSound(left: string, children: seq<Rule>, x: Rule)
    requires x in Retarget(left, children)
    ensures x.left == left && exists y | y in children :: y.right == x.right
  {
    var q :| 0 <= q < |children| && Retarget(left, children)[q] == x;
    assert children[q] in children;
  }

  lemma RetargetComplete(left: string, children: seq<Rule>, y: Rule)
    requires y in children
    ensures Rule(left, y.right) in Retarget(left, children)
  {
    var q :| 0 <= q < |children| && children[q] == y;
    assert Retarget(left, children)[q] == Rule(left, y.right);
  }

  /**
   * _convertUnitProduction for A -> B: one rule A -> rhs for each rule
   * B -> rhs, those of done first and then those of todo.
   */
  function ConvertUnitProduction(rule: Rule, done: seq<Rule>, todo: seq<Rule>): seq<Rule>
    requires |rule.right| == 1
  {
    Retarget(rule.left, RulesFor(done, rule.right[0]) + RulesFor(todo, rule.right[0]))
  }

  /**
   * For A -> B the new rules are exactly the A -> rhs for which some rule
   * B -> rhs is in _done or _todo.
   */
  lemma ConvertUnitProductionCopies(rule: Rule, done: seq<Rule>, todo: seq<Rule>)
    requires |rule.right| == 1
    ensures var r := ConvertUnitProduction(rule, done, todo);
      forall x | x in r :: x.left == rule.left &&
        (exists y | y in done + todo :: y.left == rule.right[0] && y.right == x.right)
    ensures var r := ConvertUnitProduction(rule, done, todo);
      forall y | y in done + todo && y.left == rule.right[0] :: Rule(rule.left, y.right) in r
  {
    var b := rule.right[0];
    var children := RulesFor(done, b) + RulesFor(todo, b);
    var r := Retarget(rule.left, children);
    forall x | x in r
      ensures x.left == rule.left && exists y | y in done + todo :: y.left == b && y.right == x.right
    {
      RetargetSound(rule.left, children, x);
      var y :| y in children && y.right == x.right;
      assert y in done + todo;
    }
    forall y | y in done + todo && y.left == b ensures Rule(rule.left, y.right) in r {
      if y in done {
        RulesForAll(done, b, y);
      } else {
        RulesForAll(todo, b, y);
      }
      RetargetComplete(rule.left, children, y);
    }
  }

  // ----------------------------------------------- _convertUnitProductions

  /** The state after the unit production at index i is popped and its expansion sorted in. */
  function PopUnit(st: State, i: nat): State
    requires i < |st.todo| && |st.todo[i].right| == 1
  {
    var todo := RemoveAt(st.todo, i);
    SortRules(State(todo, st.done, st.tags), ConvertUnitProduction(st.todo[i], st.done, todo))
  }

  /**
   * _convertUnitProductions from loop index i on, with fuel nested calls
   * left before the interpreter's recursion limit. A unit production is
   * popped, its expansion sorted in, and the whole scan restarts in a
   * nested call; when that call returns no unit production is left, so the
   * rest of the outer loop changes nothing and is not repeated here.
   */
  function UnitScan(st: State, i: nat, fuel: nat): (r: Result<State, Failure>)
    requires i <= |st.todo|
    ensures r.Ok? || r.error == RecursionLimit
    decreases fuel, |st.todo| - i
  {
    if i == |st.todo| then Ok(st)
    else if IsUnitProduction(st.todo[i]) then
      if fuel == 0 then Err(RecursionLimit) else UnitScan(PopUnit(st, i), 0, fuel - 1)
    else
      UnitScan(st, i + 1, fuel)
  }

  /** When the unit pass returns, _todo holds no unit production. */
  lemma {:induction false} UnitScanNoUnit(st: State, i: nat, fuel: nat)
    requires i <= |st.todo|
    requires forall q | 0 <= q < i :: !IsUnitProduction(st.todo[q])
    ensures UnitScan(st, i, fuel).Ok? ==>
      forall x | x in UnitScan(st, i, fuel).value.todo :: !IsUnitProduction(x)
    decreases fuel, |st.todo| - i
  {
    if i < |st.todo| {
      if IsUnitProduction(st.todo[i]) {
        if fuel > 0 {
          UnitScanNoUnit(PopUnit(st, i), 0, fuel - 1);
        }
      } else {
        UnitScanNoUnit(st, i + 1, fuel);
      }
    }
  }

  /** The unit pass keeps the worklists sorted by _isCnf. */
  lemma {:induction false} UnitScanKeepsPartition(st: State, i: nat, fuel: nat)
    requires i <= |st.todo| && Partitioned(st)
    ensures UnitScan(st, i, fuel).Ok? ==> Partitioned(UnitScan(st, i, fuel).value)
    decreases fuel, |st.todo| - i
  {
    if i < |st.todo| {
      if IsUnitProduction(st.todo[i]) {
        if fuel > 0 {
          UnitStepKeeps(st, i);
          UnitScanKeepsPartition(PopUnit(st, i), 0, fuel - 1);
        }
      } else {
        UnitScanKeepsPartition(st, i + 1, fuel);
      }
    }
  }

  /** The unit pass adds no empty right side. */
  lemma {:induction false} UnitScanKeepsNoEmpty(st: State, i: nat, fuel: nat)
    requires i <= |st.todo| && NoEmptyRight(st)
    ensures UnitScan(st, i, fuel).Ok? ==> NoEmptyRight(UnitScan(st, i, fuel).value)
    decreases fuel, |st.todo| - i
  {
    if i < |st.todo| {
      if IsUnitProduction(st.todo[i]) {
        if fuel > 0 {
          UnitStepKeepsNoEmpty(st, i);
          UnitScanKeepsNoEmpty(PopUnit(st, i), 0, fuel - 1);
        }
      } else {
        UnitScanKeepsNoEmpty(st, i + 1, fuel);
      }
    }
  }

  /** The unit pass keeps an empty right side in _todo. */
  lemma {:induction false} UnitScanKeepsEmpty(st: State, i: nat, fuel: nat)
    requires i <= |st.todo| && HasEmptyRight(st.todo)
    ensures UnitScan(st, i, fuel).Ok? ==> HasEmptyRight(UnitScan(st, i, fuel).value.todo)
    decreases fuel, |st.todo| - i
  {
    if i < |st.todo| {
      if IsUnitProduction(st.todo[i]) {
        if fuel > 0 {
          UnitStepKeepsEmpty(st, i);
          UnitScanKeepsEmpty(PopUnit(st, i), 0, fuel - 1);
        }
      } else {
        UnitScanKeepsEmpty(st, i + 1, fuel);
      }
    }
  }

  /**
   * A unit production at index i, popped and its expansion sorted in by the
   * parts of the step: the scan goes on in a nested call over the new
   * worklists, which returns with no unit production in _todo.
   */
  lemma UnitScanPop(st: State, i: nat, fuel: nat)
    requires i < |st.todo| && IsUnitProduction(st.todo[i])
    ensures fuel == 0 ==> UnitScan(st, i, fuel) == Err(RecursionLimit)
    ensures fuel > 0 ==> UnitScan(st, i, fuel) == UnitScan(PopUnit(st, i), 0, fuel - 1)
    ensures fuel > 0 && UnitScan(PopUnit(st, i), 0, fuel - 1).Ok? ==>
      forall x | x in UnitScan(PopUnit(st, i), 0, fuel - 1).value.todo :: !IsUnitProduction(x)
  {
    if fuel > 0 {
      UnitScanNoUnit(PopUnit(st, i), 0, fuel - 1);
    }
  }

  lemma UnitStepKeeps(st: State, i: nat)
    requires i < |st.todo| && IsUnitProduction(st.todo[i])
    ensures Partitioned(st) ==> Partitioned(PopUnit(st, i))
  {
    var todo := RemoveAt(st.todo, i);
    var rest := State(todo, st.done, st.tags);
    if Partitioned(st) {
      assert Partitioned(rest);
      SortRulesSorts(rest, ConvertUnitProduction(st.todo[i], st.done, todo));
    }
  }

  lemma UnitStepKeepsNoEmpty(st: State, i: nat)
    requires i < |st.todo| && IsUnitProduction(st.todo[i]) && NoEmptyRight(st)
    ensures NoEmptyRight(PopUnit(st, i))
  {
    var rule := st.todo[i];
    var todo := RemoveAt(st.todo, i);
    var rs := ConvertUnitProduction(rule, st.done, todo);
    forall x | x in rs ensures x.right != [] {
      var y :| y in st.done + todo && y.left == rule.right[0] && y.right == x.right;
    }
    SortRulesNoEmpty(State(todo, st.done, st.tags), rs);
  }

  lemma UnitStepKeepsEmpty(st: State, i: nat)
    requires i < |st.todo| && IsUnitProduction(st.todo[i]) && HasEmptyRight(st.todo)
    ensures HasEmptyRight(PopUnit(st, i).todo)
  {
    var todo := RemoveAt(st.todo, i);
    var rs := ConvertUnitProduction(st.todo[i], st.done, todo);
    var e :| e in st.todo && e.right == [];
    RemoveAtKeeps(st.todo, i, e);
    assert PopUnit(st, i).todo == todo + Reject(rs, IsCnf);
    assert e in PopUnit(st, i).todo;
  }

  // ---------------------------------------------------- _convertNonBinary

  /**
   * _convertNonBinary with y the name _generateNewTag returned:
   * L -> r0 r1 r2 ... becomes Y -> r0 r1 and L -> Y r2 ..., so that putting
   * r0 r1 back in place of Y gives the old right side. A right side shorter
   * than two raises IndexError.
   */
  function ConvertNonBinary(rule: Rule, y: string): (r: Result<seq<Rule>, Failure>)
    ensures r.Ok? <==> |rule.right| >= 2
    ensures r.Err? ==> r.error == RightTooShort
    ensures r.Ok? ==> (|r.value| == 2 && r.value[0].left == y && |r.value[0].right| == 2 &&
                       r.value[1].left == rule.left && |r.value[1].right| == |rule.right| - 1 &&
                       r.value[1].right[0] == y &&
                       r.value[0].right + r.value[1].right[1..] == rule.right)
  {
    if |rule.right| < 2 then Err(RightTooShort)
    else
      var r0, r1 := Rule(y, [rule.right[0], rule.right[1]]), Rule(rule.left, [y] + rule.right[2..]);
      assert r0.right + r1.right[1..] == rule.right;
      Ok([r0, r1])
  }

  /** How far a right side is from length two. */
  function Excess(x: Rule): nat {
    if |x.right| > 2 then |x.right| - 2 else 0
  }

  /** The number of splits still needed to make every rule of rs binary. */
  function Weight(rs: seq<Rule>): nat {
    if rs == [] then 0 else Excess(rs[0]) + Weight(rs[1..])
  }

  lemma {:induction false} WeightAppend(a: seq<Rule>, b: seq<Rule>)
    ensures Weight(a + b) == Weight(a) + Weight(b)
    decreases |a|
  {
    if a == [] {
      assert a + b == b;
    } else {
      assert (a + b)[0] == a[0] && (a + b)[1..] == a[1..] + b;
      calc {
        Weight(a + b);
        Excess(a[0]) + Weight(a[1..] + b);
        { WeightAppend(a[1..], b); }
        Excess(a[0]) + Weight(a[1..]) + Weight(b);
      }
    }
  }

  lemma WeightPair(x: Rule, y: Rule)
    ensures Weight([x, y]) == Excess(x) + Excess(y)
  {
    assert [x, y][1..] == [y] && [y][1..] == [];
    calc {
      Weight([x, y]);
      Excess(x) + Weight([y]);
      Excess(x) + (Excess(y) + Weight([]));
    }
  }

  lemma WeightRemoveAt(s: seq<Rule>, i: nat)
    requires i < |s|
    ensures Weight(RemoveAt(s, i)) + Excess(s[i]) == Weight(s)
  {
    var front, back := s[..i], s[i + 1..];
    var mid := [s[i]] + back;
    assert s == front + mid;
    WeightAppend(front, mid);
    assert mid[1..] == back;
    assert Weight(mid) == Excess(s[i]) + Weight(back);
    WeightAppend(front, back);
  }

  lemma {:induction false} WeightReject(rs: seq<Rule>, f: Rule -> bool)
    ensures Weight(Reject(rs, f)) <= Weight(rs)
    decreases |rs|
  {
    if rs != [] {
      WeightReject(rs[1..], f);
      var h: seq<Rule> := if f(rs[0]) then [] else [rs[0]];
      assert Reject(rs, f) == h + Reject(rs[1..], f);
      WeightAppend(h, Reject(rs[1..], f));
      if h != [] {
        assert h[1..] == [];
      }
    }
  }

  // -------------------------------------------------- _convertNonBinaries

  /**
   * The state after the rule at index i is popped, a name is allocated for
   * its first two symbols and both new rules are sorted in.
   */
  function PopNonBinary(st: State, i: nat): Result<State, Failure>
    requires i < |st.todo|
  {
    var y := GeneratedName(st.tags);
    match ConvertNonBinary(st.todo[i], y)
    case Err(e) => Err(e)
    case Ok(rs) => Ok(SortRules(State(RemoveAt(st.todo, i), st.done, st.tags + [y]), rs))
  }

  /**
   * _generateNewTag consults only the names it allocated, not the grammar:
   * the first split is named X1 even when rules of the grammar already
   * have left side X1, and the split rule then shares that nonterminal.
   */
  lemma NonBinaryReusesGrammarName(st: State, i: nat, g: Rule)
    requires st.tags == [] && i < |st.todo| && |st.todo[i].right| >= 2
    requires g in st.done && g.left == "X1"
    ensures PopNonBinary(st, i).Ok?
    ensures g in PopNonBinary(st, i).value.done
    ensures exists x | x in PopNonBinary(st, i).value.todo + PopNonBinary(st, i).value.done ::
      x.left == "X1" && x.right == st.todo[i].right[..2]
  {
    assert XName(1) !in st.tags;
    var y := GeneratedName(st.tags);
    var rs := ConvertNonBinary(st.todo[i], y).value;
    var next := PopNonBinary(st, i).value;
    assert next == SortRules(State(RemoveAt(st.todo, i), st.done, st.tags + [y]), rs);
    assert rs[0].right == st.todo[i].right[..2];
    if IsCnf(rs[0]) {
      FilterHas(rs, IsCnf, rs[0]);
      assert rs[0] in next.done;
    } else {
      RejectHas(rs, IsCnf, rs[0]);
      assert rs[0] in next.todo;
    }
  }

  /**
   * A rule that is not binary at index i: when it splits, the scan goes on
   * in a nested call over lighter worklists, which returns with every rule
   * of _todo binary; when it is too short the scan stops with its error.
   */
  lemma NonBinaryScanPop(st: State, i: nat)
    requires i < |st.todo| && !IsBinary(st.todo[i])
    ensures PopNonBinary(st, i).Err? ==> NonBinaryScan(st, i) == PopNonBinary(st, i)
    ensures PopNonBinary(st, i).Ok? ==>
      var next := PopNonBinary(st, i).value;
      NonBinaryScan(st, i) == NonBinaryScan(next, 0) && Weight(next.todo) < Weight(st.todo) &&
      (NonBinaryScan(next, 0).Ok? ==> forall x | x in NonBinaryScan(next, 0).value.todo :: IsBinary(x))
  {
    if PopNonBinary(st, i).Ok? {
      NonBinaryWeight(st, i);
      NonBinaryScanKeeps(PopNonBinary(st, i).value, 0);
    }
  }

  /** Every right side has at least two symbols or more than zero and not one. */
  predicate NoShortRight(st: State) {
    NoEmptyRight(st) && forall x | x in st.todo :: |x.right| != 1
  }

  /** Some rule at index i or later of todo has an empty right side. */
  predicate EmptyFrom(todo: seq<Rule>, i: nat) {
    exists q | i <= q < |todo| :: todo[q].right == []
  }

  /**
   * _convertNonBinaries from loop index i on: a rule that is not binary is
   * popped and split, and the whole scan restarts in a nested call.
   */
  function NonBinaryScan(st: State, i: nat): (r: Result<State, Failure>)
    requires i <= |st.todo|
    ensures r.Ok? || r.error == RightTooShort
    decreases Weight(st.todo), |st.todo| - i
  {
    if i == |st.todo| then Ok(st)
    else if !IsBinary(st.todo[i]) then
      var p := PopNonBinary(st, i);
      if p.Err? then p
      else
        NonBinaryWeight(st, i);
        NonBinaryScan(p.value, 0)
    else
      NonBinaryScan(st, i + 1)
  }

  /**
   * When the non-binary pass succeeds every rule of _todo is binary and the
   * worklists stay sorted by _isCnf; it succeeds when no right side is
   * shorter than two, and fails when an empty right side is still ahead.
   */
  lemma {:induction false} NonBinaryScanKeeps(st: State, i: nat)
    requires i <= |st.todo|
    ensures var r := NonBinaryScan(st, i);
      r.Ok? && (forall q | 0 <= q < i :: IsBinary(st.todo[q])) ==>
        forall x | x in r.value.todo :: IsBinary(x)
    ensures var r := NonBinaryScan(st, i); r.Ok? && Partitioned(st) ==> Partitioned(r.value)
    ensures NoShortRight(st) ==> NonBinaryScan(st, i).Ok?
    ensures EmptyFrom(st.todo, i) ==> NonBinaryScan(st, i).Err?
    decreases Weight(st.todo), |st.todo| - i
  {
    if i < |st.todo| {
      if !IsBinary(st.todo[i]) {
        var p := PopNonBinary(st, i);
        if p.Ok? {
          NonBinaryWeight(st, i);
          NonBinaryKeepsPartition(st, i);
          NonBinaryKeepsShort(st, i);
          NonBinaryKeepsEmpty(st, i);
          NonBinaryScanKeeps(p.value, 0);
        }
      } else {
        assert EmptyFrom(st.todo, i) ==> EmptyFrom(st.todo, i + 1);
        NonBinaryScanKeeps(st, i + 1);
      }
    }
  }

  lemma NonBinaryWeight(st: State, i: nat)
    requires i < |st.todo| && !IsBinary(st.todo[i]) && PopNonBinary(st, i).Ok?
    ensures Weight(PopNonBinary(st, i).value.todo) < Weight(st.todo)
  {
    var rule := st.todo[i];
    var y := GeneratedName(st.tags);
    var rs := ConvertNonBinary(rule, y).value;
    var todo := RemoveAt(st.todo, i);
    assert PopNonBinary(st, i).value.todo == todo + Reject(rs, IsCnf);
    WeightRemoveAt(st.todo, i);
    WeightReject(rs, IsCnf);
    assert rs == [rs[0], rs[1]];
    WeightPair(rs[0], rs[1]);
    WeightAppend(todo, Reject(rs, IsCnf));
  }

  lemma NonBinaryKeepsPartition(st: State, i: nat)
    requires i < |st.todo| && PopNonBinary(st, i).Ok?
    ensures Partitioned(st) ==> Partitioned(PopNonBinary(st, i).value)
  {
    var y := GeneratedName(st.tags);
    var rs := ConvertNonBinary(st.todo[i], y).value;
    assert PopNonBinary(st, i).value == SortRules(State(RemoveAt(st.todo, i), st.done, st.tags + [y]), rs);
  }

  lemma NonBinaryKeepsShort(st: State, i: nat)
    requires i < |st.todo| && !IsBinary(st.todo[i])
    ensures NoShortRight(st) ==> PopNonBinary(st, i).Ok? && NoShortRight(PopNonBinary(st, i).value)
  {
    if NoShortRight(st) {
      var rule := st.todo[i];
      assert |rule.right| >= 3;
      var y := GeneratedName(st.tags);
      var rs := ConvertNonBinary(rule, y).value;
      var todo := RemoveAt(st.todo, i);
      var rest := State(todo, st.done, st.tags + [y]);
      var next := PopNonBinary(st, i).value;
      assert next == SortRules(rest, rs);
      assert rs == [rs[0], rs[1]];
      assert forall x | x in rs :: |x.right| >= 2;
      SortRulesNoEmpty(rest, rs);
      forall x | x in next.todo ensures |x.right| != 1 {
        assert next.todo == todo + Reject(rs, IsCnf);
        if x !in todo {
          assert x in Reject(rs, IsCnf);
        }
      }
    }
  }

  lemma NonBinaryKeepsEmpty(st: State, i: nat)
    requires i < |st.todo| && PopNonBinary(st, i).Ok?
    ensures EmptyFrom(st.todo, 0) ==> EmptyFrom(PopNonBinary(st, i).value.todo, 0)
  {
    if EmptyFrom(st.todo, 0) {
      var rule := st.todo[i];
      var y := GeneratedName(st.tags);
      var rs := ConvertNonBinary(rule, y).value;
      var todo := RemoveAt(st.todo, i);
      var next := PopNonBinary(st, i).value;
      assert next.todo == todo + Reject(rs, IsCnf);
      var q0 :| 0 <= q0 < |st.todo| && st.todo[q0].right == [];
      var e := st.todo[q0];
      assert e != rule;
      RemoveAtKeeps(st.todo, i, e);
      var q :| 0 <= q < |todo| && todo[q] == e;
      assert next.todo[q] == e;
    }
  }

  // --------------------------------------------------------- _convertFromCfg

  /** The worklists right after the first _sortRules of _convertFromCfg. */
  function Sorted(rules: seq<Rule>): State {
    SortRules(State([], [], []), rules)
  }

  /** The state after _sortRules, _convertHybrids and _convertUnitProductions. */
  function AfterUnitPass(rules: seq<Rule>, fuel: nat): Result<State, Failure> {
    UnitScan(HybridScan(Sorted(rules), 0), 0, fuel)
  }

  /**
   * The state at the end of _convertFromCfg: the rules are sorted, then the
   * three passes run in order. fuel is the depth of nested
   * _convertUnitProductions calls the interpreter allows.
   */
  function ConvertFromCfg(rules: seq<Rule>, fuel: nat): Result<State, Failure> {
    match AfterUnitPass(rules, fuel)
    case Err(e) => Err(e)
    case Ok(st) => NonBinaryScan(st, 0)
  }

  /** The converted grammar: self.rules = self._done, whatever _todo still holds is dropped. */
  function Normalize(rules: seq<Rule>, fuel: nat): Result<seq<Rule>, Failure> {
    match ConvertFromCfg(rules, fuel)
    case Err(e) => Err(e)
    case Ok(st) => Ok(st.done)
  }

  /** A rule outside _isCnf with one right symbol is a unit production. */
  lemma ShortIsUnit(x: Rule)
    requires !IsCnf(x) && |x.right| == 1
    ensures IsUnitProduction(x)
  {
  }

  /**
   * When the conversion succeeds, every rule of the result satisfies _isCnf,
   * and every rule left behind in _todo is a binary rule with a terminal in it.
   */
  lemma ConvertFromCfgSorts(rules: seq<Rule>, fuel: nat)
    ensures ConvertFromCfg(rules, fuel).Ok? ==>
      (forall x | x in ConvertFromCfg(rules, fuel).value.done :: IsCnf(x)) &&
      (forall x | x in ConvertFromCfg(rules, fuel).value.todo :: IsBinary(x) && ContainsTerminal(x))
  {
    var st0 := Sorted(rules);
    SortedKeeps(rules);
    var st1 := HybridScan(st0, 0);
    HybridScanKeeps(st0, 0);
    var r2 := UnitScan(st1, 0, fuel);
    UnitScanKeepsPartition(st1, 0, fuel);
    if r2.Ok? {
      var r3 := NonBinaryScan(r2.value, 0);
      NonBinaryScanKeeps(r2.value, 0);
      if r3.Ok? {
        assert Partitioned(r3.value);
      }
    }
  }

  /** Every rule of a successful conversion satisfies _isCnf. */
  lemma NormalizeIsCnf(rules: seq<Rule>, fuel: nat)
    ensures Normalize(rules, fuel).Ok? ==> forall x | x in Normalize(rules, fuel).value :: IsCnf(x)
  {
    ConvertFromCfgSorts(rules, fuel);
  }

  /** When _convertUnitProductions returns, _todo holds no unit production. */
  lemma UnitPassLeavesNoUnit(rules: seq<Rule>, fuel: nat)
    ensures AfterUnitPass(rules, fuel).Ok? ==>
      forall x | x in AfterUnitPass(rules, fuel).value.todo :: !IsUnitProduction(x)
  {
    UnitScanNoUnit(HybridScan(Sorted(rules), 0), 0, fuel);
  }

  /**
   * A rule with an empty right side is never fixed: it stays in _todo until
   * _convertNonBinary reads rule.right[0], so the conversion fails.
   */
  lemma EmptyRightFails(rules: seq<Rule>, fuel: nat)
    requires HasEmptyRight(rules)
    ensures Normalize(rules, fuel).Err?
  {
    var e :| e in rules && e.right == [];
    RejectHas(rules, IsCnf, e);
    assert e in Sorted(rules).todo;
    var st1 := HybridScan(Sorted(rules), 0);
    HybridScanKeeps(Sorted(rules), 0);
    assert HasEmptyRight(st1.todo);
    var r2 := UnitScan(st1, 0, fuel);
    UnitScanKeepsEmpty(st1, 0, fuel);
    if r2.Ok? {
      var f :| f in r2.value.todo && f.right == [];
      var q :| 0 <= q < |r2.value.todo| && r2.value.todo[q] == f;
      assert EmptyFrom(r2.value.todo, 0);
      NonBinaryScanKeeps(r2.value, 0);
    }
  }

  lemma SortedKeeps(rules: seq<Rule>)
    ensures Partitioned(Sorted(rules))
    ensures !HasEmptyRight(rules) ==> NoEmptyRight(Sorted(rules))
  {
    assert Partitioned(State([], [], []));
    if !HasEmptyRight(rules) {
      SortRulesNoEmpty(State([], [], []), rules);
    }
  }

  /** After the unit pass the todo list holds no rule with a single right symbol. */
  lemma UnitPassLeavesNoShort(st: State)
    requires Partitioned(st) && NoEmptyRight(st)
    requires forall x | x in st.todo :: !IsUnitProduction(x)
    ensures NoShortRight(st)
  {
    forall x | x in st.todo ensures |x.right| != 1 {
      if |x.right| == 1 {
        ShortIsUnit(x);
      }
    }
  }

  /** Without an empty right side the IndexError of _convertNonBinary cannot happen. */
  lemma TooShortNeedsEmptyRight(rules: seq<Rule>, fuel: nat)
    ensures Normalize(rules, fuel) == Err(RightTooShort) ==> HasEmptyRight(rules)
  {
    if !HasEmptyRight(rules) {
      SortedKeeps(rules);
      var st1 := HybridScan(Sorted(rules), 0);
      HybridScanKeeps(Sorted(rules), 0);
      var r2 := UnitScan(st1, 0, fuel);
      UnitScanKeepsNoEmpty(st1, 0, fuel);
      UnitScanKeepsPartition(st1, 0, fuel);
      UnitScanNoUnit(st1, 0, fuel);
      if r2.Ok? {
        UnitPassLeavesNoShort(r2.value);
        NonBinaryScanKeeps(r2.value, 0);
      }
    }
  }

  /** The two rules of SkippedHybridIsDropped both land in _todo. */
  lemma ExampleSorted(r1: Rule, r2: Rule)
    requires !IsCnf(r1) && !IsCnf(r2)
    ensures Sorted([r1, r2]) == State([r1, r2], [], [])
  {
    var rules := [r1, r2];
    assert rules[1..] == [r2] && [r2][1..] == [];
    calc {
      Reject(rules, IsCnf);
      [r1] + Reject([r2], IsCnf);
      [r1] + ([r2] + Reject([], IsCnf));
      rules;
    }
    calc {
      Filter(rules, IsCnf);
      [] + Filter([r2], IsCnf);
      [] + ([] + Filter([], IsCnf));
      [];
    }
  }

  /** The first turn of the loop of _convertHybrid on 'a' 'b'. */
  lemma ExampleFirstTurn()
    ensures HybridPrefix([], ["'a'", "'b'"], 1) == Hybrid([Rule("A", ["'a'"])], ["A"], ["A"])
  {
    var right := ["'a'", "'b'"];
    assert right[0] == ['\'', 'a', '\''];
    assert IsTerminal(right[0]);
    var h := HybridPrefix([], right, 0);
    assert h == Hybrid([], [], []);
    NewTagOfLetter(h.tags, 'a');
    assert Text.UpperChar('a') == 'A';
    var t := NewTagName(h.tags, right[0]);
    assert t == "A";
    assert HybridPrefix([], right, 1) == HybridNext(h, right[0], t);
    assert [] + [Rule("A", ["'a'"])] == [Rule("A", ["'a'"])] && [] + ["A"] == ["A"];
  }

  /** The second turn of the loop of _convertHybrid on 'a' 'b'. */
  lemma ExampleSecondTurn()
    ensures HybridPrefix([], ["'a'", "'b'"], 2) ==
      Hybrid([Rule("A", ["'a'"]), Rule("B", ["'b'"])], ["A", "B"], ["A", "B"])
  {
    var right := ["'a'", "'b'"];
    assert right[1] == ['\'', 'b', '\''];
    assert IsTerminal(right[1]);
    ExampleFirstTurn();
    var h := HybridPrefix([], right, 1);
    NewTagOfLetter(h.tags, 'b');
    assert Text.UpperChar('b') == 'B';
    var t := NewTagName(h.tags, right[1]);
    assert t == "B";
    var h2 := HybridNext(h, right[1], t);
    assert HybridPrefix([], right, 2) == h2;
    PairOfSingles(Rule("A", ["'a'"]), Rule("B", ["'b'"]));
    PairOfSingles("A", "B");
  }

  /** Two one-element sequences joined; stated apart so the example proof stays small. */
  lemma PairOfSingles<T>(x: T, y: T)
    ensures [x] + [y] == [x, y]
  {
  }

  /** S -> 'a' 'b' becomes A -> 'a', B -> 'b', S -> A B. */
  lemma ExampleConverted()
    ensures ConvertHybrid([], Rule("S", ["'a'", "'b'"])) ==
      Converted([Rule("A", ["'a'"]), Rule("B", ["'b'"]), Rule("S", ["A", "B"])], ["A", "B"])
  {
    ExampleSecondTurn();
  }

  /** The three rules S -> 'a' 'b' is converted into. */
  function ExampleOut(): seq<Rule> {
    [Rule("A", ["'a'"]), Rule("B", ["'b'"]), Rule("S", ["A", "B"])]
  }

  lemma ExampleOutIsCnf()
    ensures Filter(ExampleOut(), IsCnf) == ExampleOut() && Reject(ExampleOut(), IsCnf) == []
  {
    var out := ExampleOut();
    assert "'a'" == ['\'', 'a', '\''] && "'b'" == ['\'', 'b', '\''];
    assert out[0].right == ["'a'"] && out[1].right == ["'b'"];
    assert out[0].right[0][0] == '\'' && out[1].right[0][0] == '\'';
    assert IsTerminal(out[0].right[0]) && IsTerminal(out[1].right[0]);
    assert IsCnf(out[0]) && IsCnf(out[1]);
    var last := out[2];
    assert last.left == "S" && last.right == ["A", "B"] && |last.right| == 2;
    assert !IsTerminal(last.left) && !IsTerminal(last.right[0]) && !IsTerminal(last.right[1]);
    assert !SomeTerminalOnRight(last);
    assert IsCnf(last);
    FilterAll(out, IsCnf);
  }

  /** Popping S -> 'a' 'b' from the front of _todo and sorting its conversion in. */
  lemma ExamplePop(r2: Rule)
    ensures PopHybrid(State([Rule("S", ["'a'", "'b'"]), r2], [], []), 0) ==
      State([r2], ExampleOut(), ["A", "B"])
  {
    ExamplePopParts(r2);
    ExampleSortOut(r2);
  }

  lemma ExamplePopParts(r2: Rule)
    ensures PopHybrid(State([Rule("S", ["'a'", "'b'"]), r2], [], []), 0) ==
      SortRules(State([r2], [], ["A", "B"]), ExampleOut())
  {
    var st0 := State([Rule("S", ["'a'", "'b'"]), r2], [], []);
    ExampleConverted();
    assert RemoveAt(st0.todo, 0) == [r2];
    PopHybridSorts(st0, 0, ExampleOut(), ["A", "B"]);
  }

  lemma ExampleSortOut(r2: Rule)
    ensures SortRules(State([r2], [], ["A", "B"]), ExampleOut()) == State([r2], ExampleOut(), ["A", "B"])
  {
    ExampleOutIsCnf();
    SortCnfOnly(State([r2], [], ["A", "B"]), ExampleOut());
  }

  lemma PopHybridSorts(st: State, i: nat, rules: seq<Rule>, tags: seq<string>)
    requires i < |st.todo| && ConvertHybrid(st.tags, st.todo[i]) == Converted(rules, tags)
    ensures PopHybrid(st, i) == SortRules(State(RemoveAt(st.todo, i), st.done, tags), rules)
  {
  }

  lemma SortCnfOnly(st: State, rs: seq<Rule>)
    requires Filter(rs, IsCnf) == rs && Reject(rs, IsCnf) == []
    ensures SortRules(st, rs) == State(st.todo, st.done + rs, st.tags)
  {
    assert st.todo + [] == st.todo;
  }

  /** The hybrid pass converts the first rule, then skips the second, which slid into index 0. */
  lemma ExampleHybridPass(r2: Rule)
    ensures HybridScan(State([Rule("S", ["'a'", "'b'"]), r2], [], []), 0) ==
      State([r2], ExampleOut(), ["A", "B"])
  {
    var r1 := Rule("S", ["'a'", "'b'"]);
    assert r1.right[0][0] == '\'';
    assert ContainsTerminal(r1);
    ExamplePop(r2);
    var st1 := State([r2], ExampleOut(), ["A", "B"]);
    assert HybridScan(st1, 1) == st1;
  }

  /** A lone binary rule with a terminal is left alone by the last two passes. */
  lemma ExampleLaterPasses(st: State, fuel: nat)
    requires |st.todo| == 1 && ContainsTerminal(st.todo[0]) && IsBinary(st.todo[0])
    ensures UnitScan(st, 0, fuel) == Ok(st) && NonBinaryScan(st, 0) == Ok(st)
  {
    assert UnitScan(st, 1, fuel) == Ok(st);
    assert NonBinaryScan(st, 1) == Ok(st);
  }

  /**
   * The element after a popped hybrid rule is skipped, and whatever _todo
   * still holds at the end is dropped: of S -> 'a' 'b' and S -> 'c' 'd' only
   * the first is converted, and the second is lost.
   */
  lemma SkippedHybridIsDropped(fuel: nat)
    ensures Normalize([Rule("S", ["'a'", "'b'"]), Rule("S", ["'c'", "'d'"])], fuel) ==
      Ok([Rule("A", ["'a'"]), Rule("B", ["'b'"]), Rule("S", ["A", "B"])])
  {
    var r1, r2 := Rule("S", ["'a'", "'b'"]), Rule("S", ["'c'", "'d'"]);
    assert r1.right[0] == ['\'', 'a', '\''] && r2.right[0] == ['\'', 'c', '\''];
    assert !IsCnf(r1) && !IsCnf(r2);
    ExampleSorted(r1, r2);
    ExampleHybridPass(r2);
    ExampleLaterPasses(State([r2], ExampleOut(), ["A", "B"]), fuel);
  }
}
