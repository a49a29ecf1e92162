// Tags and rules of hw2.py (classes Tag and Rule) as immutable values.
// A tag is represented by its (already stripped) name; a rule by its left
// name and the sequence of its right names.
module Rules {
  import opened Text

  /** One production "left -> right[0] right[1] ...". */
  datatype Rule = Rule(left: string, right: seq<string>)

  /** Rule.splitter. */
  const Splitter: string := "->"

  /** Tag.isTerminal: a name is a terminal when it holds an apostrophe anywhere. */
  predicate IsTerminal(name: string) {
    '\'' in name
  }

  /** Rule.toString: the left name, " ->", then " " before each right name. */
  function ToString(r: Rule): string {
    r.left + " " + Splitter + SpaceJoin(r.right)
  }

  /** Some name on the right side is a terminal. */
  predicate SomeTerminalOnRight(r: Rule) {
    exists k :: 0 <= k < |r.right| && IsTerminal(r.right[k])
  }

  /**
   * Rule.containsTerminal, stated on the names: the left name or some right
   * name is a terminal. ContainsTerminalIff shows this is the source's test
   * on the rendered rule string.
   */
  predicate ContainsTerminal(r: Rule) {
    IsTerminal(r.left) || SomeTerminalOnRight(r)
  }

  predicate IsBinary(r: Rule) {
    |r.right| == 2
  }

  predicate IsUnitProduction(r: Rule) {
    !ContainsTerminal(r) && |r.right| == 1
  }

  /** CnfGrammar._isCnf. */
  predicate IsCnf(r: Rule) {
    if !ContainsTerminal(r) then IsBinary(r) else |r.right| == 1
  }

  lemma {:induction false} QuoteInSpaceJoin(ws: seq<string>)
    ensures '\'' in SpaceJoin(ws) <==> exists k :: 0 <= k < |ws| && IsTerminal(ws[k])
    decreases |ws|
  {
    if ws != [] {
      QuoteInSpaceJoin(ws[1..]);
      assert SpaceJoin(ws) == " " + ws[0] + SpaceJoin(ws[1..]);
      if exists k :: 0 <= k < |ws| && IsTerminal(ws[k]) {
        var k :| 0 <= k < |ws| && IsTerminal(ws[k]);
        if k > 0 {
          assert IsTerminal(ws[1..][k - 1]);
        }
      }
      if exists k :: 0 <= k < |ws[1..]| && IsTerminal(ws[1..][k]) {
        var k :| 0 <= k < |ws[1..]| && IsTerminal(ws[1..][k]);
        assert IsTerminal(ws[k + 1]);
      }
    }
  }

  lemma {:induction false} TrimLeftKeepsNonSpace(s: string, c: char)
    requires !IsSpace(c)
    ensures c in TrimLeft(s) <==> c in s
    decreases |s|
  {
    if |s| > 0 && IsSpace(s[0]) {
      TrimLeftKeepsNonSpace(s[1..], c);
      assert TrimLeft(s) == TrimLeft(s[1..]);
      assert c in s <==> c in s[1..] by {
        assert s == [s[0]] + s[1..] && c != s[0];
      }
    }
  }

  lemma {:induction false} TrimRightKeepsNonSpace(s: string, c: char)
    requires !IsSpace(c)
    ensures c in TrimRight(s) <==> c in s
    decreases |s|
  {
    if |s| > 0 && IsSpace(s[|s| - 1]) {
      TrimRightKeepsNonSpace(s[..|s| - 1], c);
      assert TrimRight(s) == TrimRight(s[..|s| - 1]);
      assert c in s <==> c in s[..|s| - 1] by {
        assert s == s[..|s| - 1] + [s[|s| - 1]] && c != s[|s| - 1];
      }
    }
  }

  lemma QuoteInStrip(s: string)
    ensures '\'' in Strip(s) <==> '\'' in s
  {
    TrimLeftKeepsNonSpace(s, '\'');
    TrimRightKeepsNonSpace(TrimLeft(s), '\'');
  }

  lemma QuoteInToString(r: Rule)
    ensures '\'' in ToString(r) <==> '\'' in r.left || '\'' in SpaceJoin(r.right)
  {
    var mid: string := " " + Splitter;
    var tail := SpaceJoin(r.right);
    assert ToString(r) == (r.left + mid) + tail;
    assert '\'' !in mid;
  }

  /**
   * containsTerminal builds Tag(toString()) (which strips the string) and asks
   * whether it holds an apostrophe: exactly when the left name or some right
   * name is a terminal.
   */
  lemma ContainsTerminalIff(r: Rule)
    ensures IsTerminal(Strip(ToString(r))) <==> ContainsTerminal(r)
  {
    QuoteInStrip(ToString(r));
    QuoteInToString(r);
    QuoteInSpaceJoin(r.right);
  }

  /** isUnitProduction: one right name, and no apostrophe anywhere in the rule. */
  lemma UnitProductionIff(r: Rule)
    ensures IsUnitProduction(r) <==>
      |r.right| == 1 && !IsTerminal(r.left) && !IsTerminal(r.right[0])
  {
  }

  /** _isCnf: a binary rule without any terminal, or a one-symbol rule with a terminal somewhere. */
  lemma CnfIff(r: Rule)
    ensures IsCnf(r) <==>
      (|r.right| == 2 && !IsTerminal(r.left) && !IsTerminal(r.right[0]) && !IsTerminal(r.right[1])) ||
      (|r.right| == 1 && (IsTerminal(r.left) || IsTerminal(r.right[0])))
  {
  }
}
