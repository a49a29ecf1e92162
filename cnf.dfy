// Class CnfGrammar of hw2.py (with the name allocator it inherits from
// Grammar): the worklists _todo and _done, the allocated names _newTags and
// the rules, updated in place by the conversion passes. Each method is
// proved to leave the object in the state the matching function of CnfSpec
// describes.
module Cnf {
  import opened Wrappers
  import opened Text
  import opened Rules
  import opened Lists
  import opened Grammar
  import CnfSpec

  class CnfGrammar {
    var rules: seq<Rule>
    var newTags: seq<string>
    var todo: seq<Rule>
    var done: seq<Rule>

    /** The worklists and the allocated names, as CnfSpec sees them. */
    function Worklists(): CnfSpec.State
      reads this
    {
      CnfSpec.State(todo, done, newTags)
    }

    /** Grammar.__init__ and the two empty worklists of CnfGrammar.__init__. */
    constructor ()
      ensures rules == [] && newTags == [] && todo == [] && done == []
    {
      rules := [];
      newTags := [];
      todo := [];
      done := [];
    }

    /**
     * _generateNewTag: try 'X' + str(len(_newTags) + 1), then count upwards
     * while the name is taken (the first name is tried twice), and record
     * the name found.
     */
    method GenerateNewTag() returns (tag: string)
      modifies this`newTags
      ensures tag == GeneratedName(old(newTags)) && tag !in old(newTags) && !IsTerminal(tag)
      ensures newTags == old(newTags) + [tag]
    {
      var n := |newTags|;
      var newTagCnt := n;
      tag := XName(newTagCnt + 1);
      ghost var c := n + 1;
      while tag in newTags
        invariant newTags == old(newTags) && n == |newTags|
        invariant newTagCnt >= n && c == (if newTagCnt == n then n + 1 else newTagCnt)
        invariant tag == XName(c)
        invariant FreshFrom(newTags, c) == FreshFrom(newTags, n + 1)
        decreases |XNamesFrom(newTags, c)|, if newTagCnt == n then 1 else 0
      {
        if newTagCnt > n {
          XNamesShrink(newTags, c);
          FreshFromSkips(newTags, c);
        }
        newTagCnt := newTagCnt + 1;
        tag := XName(newTagCnt);
        c := newTagCnt;
      }
      FreshFromStops(newTags, c);
      GeneratedNameIsFresh(newTags);
      newTags := newTags + [tag];
    }

    /**
     * _getNewTag: the terminal's name without quotes, upper-cased and
     * stripped when that is alphanumeric, else a generated name; either way
     * the name is recorded.
     */
    method GetNewTag(oldTag: string) returns (tag: string)
      modifies this`newTags
      ensures tag == NewTagName(old(newTags), oldTag) && !IsTerminal(tag)
      ensures newTags == old(newTags) + [tag]
    {
      NewTagNameIsNonterminal(newTags, oldTag);
      tag := Strip(Upper(RemoveChar(oldTag, '\'')));
      if !IsAlnum(tag) {
        tag := GenerateNewTag();
        return;
      }
      newTags := newTags + [tag];
    }

    /** _convertHybrid: name every terminal of the right side and rewrite the rule. */
    method ConvertHybrid(rule: Rule) returns (newRules: seq<Rule>)
      modifies this`newTags
      ensures CnfSpec.Converted(newRules, newTags) == CnfSpec.ConvertHybrid(old(newTags), rule)
    {
      newRules := [];
      var newRights: seq<string> := [];
      for m := 0 to |rule.right|
        invariant CnfSpec.HybridPrefix(old(newTags), rule.right, m) == CnfSpec.Hybrid(newRules, newRights, newTags)
      {
        var rightTag := rule.right[m];
        if IsTerminal(rightTag) {
          var newTag := GetNewTag(rightTag);
          newRights := newRights + [newTag];
          newRules := newRules + [Rule(newTag, [rightTag])];
        } else {
          newRights := newRights + [rightTag];
        }
      }
      newRules := newRules + [Rule(rule.left, newRights)];
    }

    /** _sortRules: append each rule to _done when it is _isCnf, else to _todo. */
    method SortRules(rs: seq<Rule>)
      modifies this`todo, this`done
      ensures Worklists() == CnfSpec.SortRules(old(Worklists()), rs)
    {
      for k := 0 to |rs|
        invariant todo == old(todo) + Reject(rs[..k], IsCnf)
        invariant done == old(done) + Filter(rs[..k], IsCnf)
      {
        PartitionSnoc(old(todo), old(done), rs, k, IsCnf);
        if IsCnf(rs[k]) {
          done := done + [rs[k]];
        } else {
          todo := todo + [rs[k]];
        }
      }
      assert rs[..|rs|] == rs;
    }

    /**
     * _convertHybrids: walk _todo by index; a rule with a terminal is popped,
     * converted and its rules sorted back in, and the index moves on.
     */
    method ConvertHybrids()
      modifies this`todo, this`done, this`newTags
      ensures Worklists() == CnfSpec.HybridScan(old(Worklists()), 0)
    {
      var i := 0;
      while i < |todo|
        invariant CnfSpec.HybridScan(Worklists(), i) == CnfSpec.HybridScan(old(Worklists()), 0)
        decreases |todo| - i
      {
        if ContainsTerminal(todo[i]) {
          CnfSpec.HybridScanPop(Worklists(), i);
          PopHybridAt(i);
        }
        i := i + 1;
      }
    }

    /**
     * The turn of _convertHybrids' loop on a rule with a terminal: pop it,
     * convert it and sort the new rules into the worklists.
     */
    method PopHybridAt(i: nat)
      requires i < |todo| && ContainsTerminal(todo[i])
      modifies this`todo, this`done, this`newTags
      ensures Worklists() == CnfSpec.PopHybrid(old(Worklists()), i)
    {
      var rule := todo[i];
      ghost var before := Worklists();
      todo := CnfSpec.RemoveAt(todo, i);
      var newRules := ConvertHybrid(rule);
      ghost var mid := Worklists();
      assert mid == CnfSpec.State(CnfSpec.RemoveAt(before.todo, i), before.done, mid.tags);
      SortRules(newRules);
      CnfSpec.PopHybridSorts(before, i, newRules, mid.tags);
    }

    /**
     * _convertUnitProduction for A -> B: a copy A -> rhs of every rule
     * B -> rhs, those of _done first and then those of _todo.
     */
    method ConvertUnitProduction(rule: Rule) returns (newRules: seq<Rule>)
      requires |rule.right| == 1
      ensures newRules == CnfSpec.ConvertUnitProduction(rule, done, todo)
    {
      var children: seq<Rule> := [];
      var fromTag := rule.right[0];
      var toTag := rule.left;
      for k := 0 to |done|
        invariant children == [] + CnfSpec.RulesFor(done[..k], fromTag)
      {
        CnfSpec.RulesForSnoc([], done, k, fromTag);
        if done[k].left == fromTag {
          children := children + [done[k]];
        }
      }
      assert done[..|done|] == done;
      for k := 0 to |todo|
        invariant children == CnfSpec.RulesFor(done, fromTag) + CnfSpec.RulesFor(todo[..k], fromTag)
      {
        CnfSpec.RulesForSnoc(CnfSpec.RulesFor(done, fromTag), todo, k, fromTag);
        if todo[k].left == fromTag {
          children := children + [todo[k]];
        }
      }
      assert todo[..|todo|] == todo;
      newRules := [];
      for k := 0 to |children|
        invariant newRules == CnfSpec.Retarget(toTag, children[..k])
      {
        CnfSpec.RetargetSnoc(toTag, children, k);
        newRules := newRules + [Rule(toTag, children[k].right)];
      }
      assert children[..|children|] == children;
    }

    /**
     * _convertUnitProductions, with fuel nested calls left before the
     * interpreter's recursion limit: a unit production is popped, its
     * expansion sorted in and the pass called again; the outer loop then
     * runs on over a _todo without unit productions.
     */
    method ConvertUnitProductions(fuel: nat) returns (raised: Option<CnfSpec.Failure>)
      modifies this`todo, this`done
      ensures raised.None? ==> CnfSpec.UnitScan(old(Worklists()), 0, fuel) == Ok(Worklists())
      ensures raised.Some? ==> CnfSpec.UnitScan(old(Worklists()), 0, fuel) == Err(raised.value)
      decreases fuel, 1
    {
      raised := None;
      ghost var goal := CnfSpec.UnitScan(Worklists(), 0, fuel);
      var i := 0;
      ghost var settled := false;
      while i < |todo|
        invariant raised.None?
        invariant !settled ==> i <= |todo| && CnfSpec.UnitScan(Worklists(), i, fuel) == goal
        invariant settled ==> goal == Ok(Worklists()) && forall x | x in todo :: !IsUnitProduction(x)
        decreases if settled then 0 else 1, |todo| - i
      {
        if IsUnitProduction(todo[i]) {
          raised := RestartUnitProductions(i, fuel);
          if raised.Some? {
            return;
          }
          settled := true;
        }
        i := i + 1;
      }
    }

    /**
     * The turn of _convertUnitProductions' loop on the unit production at
     * index i: pop it, sort its expansion in and call the pass again, which
     * raises RecursionLimit when no fuel is left.
     */
    method RestartUnitProductions(i: nat, fuel: nat) returns (raised: Option<CnfSpec.Failure>)
      requires i < |todo| && IsUnitProduction(todo[i])
      modifies this`todo, this`done
      ensures raised.None? ==> CnfSpec.UnitScan(old(Worklists()), i, fuel) == Ok(Worklists())
      ensures raised.None? ==> forall x | x in todo :: !IsUnitProduction(x)
      ensures raised.Some? ==> CnfSpec.UnitScan(old(Worklists()), i, fuel) == Err(raised.value)
      decreases fuel, 0
    {
      CnfSpec.UnitScanPop(Worklists(), i, fuel);
      PopUnitAt(i);
      if fuel == 0 {
        return Some(CnfSpec.RecursionLimit);
      }
      raised := ConvertUnitProductions(fuel - 1);
    }

    /**
     * The turn of _convertUnitProductions' loop on a unit production: pop
     * it and sort its expansion into the worklists.
     */
    method PopUnitAt(i: nat)
      requires i < |todo| && IsUnitProduction(todo[i])
      modifies this`todo, this`done
      ensures Worklists() == CnfSpec.PopUnit(old(Worklists()), i)
    {
      var rule := todo[i];
      todo := CnfSpec.RemoveAt(todo, i);
      var newRules := ConvertUnitProduction(rule);
      SortRules(newRules);
    }

    /**
     * _convertNonBinary: allocate a name Y, then turn L -> r0 r1 r2 ... into
     * Y -> r0 r1 and L -> Y r2 ... by editing the right side in place
     * (pop(1), then overwrite index 0).
     */
    method ConvertNonBinary(rule: Rule) returns (r: Result<seq<Rule>, CnfSpec.Failure>)
      modifies this`newTags
      ensures newTags == old(newTags) + [GeneratedName(old(newTags))]
      ensures r == CnfSpec.ConvertNonBinary(rule, GeneratedName(old(newTags)))
    {
      var newLeft := GenerateNewTag();
      if |rule.right| < 2 {
        return Err(CnfSpec.RightTooShort);
      }
      var newRule := Rule(newLeft, [rule.right[0], rule.right[1]]);
      var oldRight := rule.right;
      oldRight := oldRight[..1] + oldRight[2..];
      oldRight := oldRight[0 := newLeft];
      assert oldRight == [newLeft] + rule.right[2..];
      r := Ok([newRule, Rule(rule.left, oldRight)]);
    }

    /**
     * _convertNonBinaries: a rule that is not binary is popped, split, its
     * two rules sorted in and the pass called again; the outer loop then
     * runs on over a _todo of binary rules.
     */
    method ConvertNonBinaries() returns (raised: Option<CnfSpec.Failure>)
      modifies this`todo, this`done, this`newTags
      ensures raised.None? ==> CnfSpec.NonBinaryScan(old(Worklists()), 0) == Ok(Worklists())
      ensures raised.Some? ==> CnfSpec.NonBinaryScan(old(Worklists()), 0) == Err(raised.value)
      decreases CnfSpec.Weight(todo), 1
    {
      raised := None;
      ghost var goal := CnfSpec.NonBinaryScan(Worklists(), 0);
      var i := 0;
      ghost var settled := false;
      while i < |todo|
        invariant raised.None?
        invariant !settled ==> i <= |todo| && CnfSpec.Weight(todo) == CnfSpec.Weight(old(todo)) &&
                               CnfSpec.NonBinaryScan(Worklists(), i) == goal
        invariant settled ==> goal == Ok(Worklists()) && forall x | x in todo :: IsBinary(x)
        decreases if settled then 0 else 1, |todo| - i
      {
        if !IsBinary(todo[i]) {
          raised := RestartNonBinaries(i);
          if raised.Some? {
            return;
          }
          settled := true;
        }
        i := i + 1;
      }
    }

    /**
     * The turn of _convertNonBinaries' loop on the rule at index i that is
     * not binary: pop and split it, then call the pass again.
     */
    method RestartNonBinaries(i: nat) returns (raised: Option<CnfSpec.Failure>)
      requires i < |todo| && !IsBinary(todo[i])
      modifies this`todo, this`done, this`newTags
      ensures raised.None? ==> CnfSpec.NonBinaryScan(old(Worklists()), i) == Ok(Worklists())
      ensures raised.None? ==> forall x | x in todo :: IsBinary(x)
      ensures raised.Some? ==> CnfSpec.NonBinaryScan(old(Worklists()), i) == Err(raised.value)
      decreases CnfSpec.Weight(todo), 0
    {
      CnfSpec.NonBinaryScanPop(Worklists(), i);
      raised := PopNonBinaryAt(i);
      if raised.Some? {
        return;
      }
      raised := ConvertNonBinaries();
    }

    /**
     * The turn of _convertNonBinaries' loop on a rule that is not binary:
     * pop it, split it and sort the two new rules into the worklists.
     */
    method PopNonBinaryAt(i: nat) returns (raised: Option<CnfSpec.Failure>)
      requires i < |todo| && !IsBinary(todo[i])
      modifies this`todo, this`done, this`newTags
      ensures raised.None? ==> CnfSpec.PopNonBinary(old(Worklists()), i) == Ok(Worklists())
      ensures raised.Some? ==> CnfSpec.PopNonBinary(old(Worklists()), i) == Err(raised.value)
    {
      var rule := todo[i];
      todo := CnfSpec.RemoveAt(todo, i);
      var newRules := ConvertNonBinary(rule);
      if newRules.Err? {
        return Some(newRules.error);
      }
      SortRules(newRules.value);
      raised := None;
    }

    /**
     * _convertFromCfg on a fresh object: sort the grammar's rules, run the
     * three passes in order and keep _done as the rules.
     */
    method ConvertFromCfg(grammar: seq<Rule>, fuel: nat) returns (raised: Option<CnfSpec.Failure>)
      requires newTags == [] && todo == [] && done == []
      modifies this
      ensures raised.None? ==> CnfSpec.ConvertFromCfg(grammar, fuel) == Ok(Worklists()) && rules == done
      ensures raised.Some? ==> CnfSpec.ConvertFromCfg(grammar, fuel) == Err(raised.value)
    {
      rules := grammar;
      SortRules(rules);
      ConvertHybrids();
      raised := ConvertUnitProductions(fuel);
      if raised.Some? {
        return;
      }
      raised := ConvertNonBinaries();
      if raised.Some? {
        return;
      }
      rules := done;
    }
  }

  /**
   * CnfGrammar(g).rules: the converted grammar, or the exception the
   * conversion raised.
   */
  method NormalizeGrammar(grammar: seq<Rule>, fuel: nat) returns (r: Result<seq<Rule>, CnfSpec.Failure>)
    ensures r == CnfSpec.Normalize(grammar, fuel)
  {
    var g := new CnfGrammar();
    var raised := g.ConvertFromCfg(grammar, fuel);
    if raised.Some? {
      return Err(raised.value);
    }
    return Ok(g.rules);
  }
}
