// Classes Cell and CkyParser of hw2.py: the table of cells _buildTable fills
// in place, and the strings _buildStrings and _addNodeToString print from
// it. Each method is proved to compute what the functions of ChartSpec
// describe.
module Cky {
  import opened Wrappers
  import opened Rules
  import opened ChartSpec
  import Cnf
  import Grammar

  /** A cell of the table: the tags placed in it, in the order they were added. */
  class Cell {
    var tags: seq<Entry>
    /** The table position the cell is created for; it tells the cells of a table apart. */
    ghost const at: (nat, nat)

    constructor (ghost at: (nat, nat))
      ensures tags == [] && this.at == at
    {
      tags := [];
      this.at := at;
    }

    method AddTag(tag: Entry)
      modifies this
      ensures tags == old(tags) + [tag]
    {
      tags := tags + [tag];
    }

    method AddTags(ts: seq<Entry>)
      modifies this
      ensures tags == old(tags) + ts
    {
      var n := 0;
      while n < |ts|
        invariant n <= |ts| && tags == old(tags) + ts[..n]
      {
        AddTag(ts[n]);
        n := n + 1;
      }
      assert ts[..n] == ts;
    }
  }

  /** The table is (n + 1) x (n + 1), each position holding its own cell. */
  ghost predicate Shaped(table: array2<Cell>, n: nat)
    reads table
  {
    table.Length0 == n + 1 && table.Length1 == n + 1 &&
    forall a, b | 0 <= a <= n && 0 <= b <= n :: table[a, b].at == (a, b)
  }

  /** The cells of the table. */
  function Cells(table: array2<Cell>): set<Cell>
    reads table
  {
    set a, b | 0 <= a < table.Length0 && 0 <= b < table.Length1 :: table[a, b]
  }

  /**
   * The cells _buildTable has finished before it works on cell (i, j): the
   * columns left of j, and the cells of column j below row i.
   */
  predicate Done(a: int, b: int, i: int, j: int) {
    b < j || (b == j && a > i)
  }

  /** Finished cells hold the chart, the others nothing yet. */
  ghost predicate Filled(rules: seq<Rule>, tokens: seq<string>, table: array2<Cell>, i: int, j: int)
    requires Shaped(table, |tokens|)
    reads table, Cells(table)
  {
    forall a, b | 0 <= a <= |tokens| && 0 <= b <= |tokens| ::
      table[a, b].tags == if Done(a, b, i, j) then Chart(rules, tokens, a, b) else []
  }

  /** Every cell other than (i, j) is as Filled says; (i, j) is being worked on. */
  ghost predicate FilledBut(rules: seq<Rule>, tokens: seq<string>, table: array2<Cell>, i: int, j: int)
    requires Shaped(table, |tokens|)
    reads table, Cells(table)
  {
    forall a, b | 0 <= a <= |tokens| && 0 <= b <= |tokens| && (a != i || b != j) ::
      table[a, b].tags == if Done(a, b, i, j) then Chart(rules, tokens, a, b) else []
  }

  /** Cell (i, j) holding the chart finishes it. */
  lemma FilledNext(rules: seq<Rule>, tokens: seq<string>, table: array2<Cell>, i: nat, j: nat)
    requires Shaped(table, |tokens|) && i < j <= |tokens| && FilledBut(rules, tokens, table, i, j)
    requires table[i, j].tags == Chart(rules, tokens, i, j)
    ensures Filled(rules, tokens, table, i - 1, j)
  {
  }

  /** No finished cell has clashed. */
  ghost predicate NoClashBefore(rules: seq<Rule>, tokens: seq<string>, i: int, j: int) {
    forall a, b | 0 <= a < b <= |tokens| && Done(a, b, i, j) :: !SpanClash(rules, tokens, a, b)
  }

  /** Every cell holds the chart. */
  ghost predicate Complete(rules: seq<Rule>, tokens: seq<string>, table: array2<Cell>)
    requires Shaped(table, |tokens|)
    reads table, Cells(table)
  {
    forall a, b | 0 <= a <= |tokens| && 0 <= b <= |tokens| :: table[a, b].tags == Chart(rules, tokens, a, b)
  }

  class CkyParser {
    /** The rules of the CnfGrammar the parser is built with. */
    const rules: seq<Rule>

    constructor (grammar: Cnf.CnfGrammar)
      ensures rules == grammar.rules
    {
      rules := grammar.rules;
    }

    /**
     * _parse: the table, then the strings; None where _buildTable raises
     * IndexError.
     */
    method Parse(tokens: seq<string>) returns (r: Option<seq<string>>)
      ensures r.None? <==> Crashes(rules, tokens)
      ensures r.Some? ==> r.value == ChartSpec.Parse(rules, tokens)
    {
      var table, ok := BuildTable(tokens);
      if !ok {
        return None;
      }
      var strings := BuildStrings(table, tokens);
      return Some(strings);
    }

    /** A fresh (n + 1) x (n + 1) table of empty cells. */
    method NewTable(n: nat) returns (table: array2<Cell>)
      ensures Shaped(table, n)
      ensures forall a, b | 0 <= a <= n && 0 <= b <= n :: fresh(table[a, b]) && table[a, b].tags == []
    {
      var blank := new Cell((n + 1, n + 1));
      table := new Cell[n + 1, n + 1]((a, b) => blank);
      var a := 0;
      while a <= n
        invariant a <= n + 1
        invariant forall x, y | 0 <= x < a && 0 <= y <= n ::
          fresh(table[x, y]) && table[x, y].at == (x, y) && table[x, y].tags == []
      {
        var b := 0;
        while b <= n
          invariant b <= n + 1
          invariant forall x, y | 0 <= x < a && 0 <= y <= n ::
            fresh(table[x, y]) && table[x, y].at == (x, y) && table[x, y].tags == []
          invariant forall y | 0 <= y < b :: fresh(table[a, y]) && table[a, y].at == (a, y) && table[a, y].tags == []
        {
          table[a, b] := new Cell((a, b));
          b := b + 1;
        }
        a := a + 1;
      }
    }

    /**
     * _buildTable: the leaf cells from the token each one spans, then every
     * longer cell from its split points, column by column left to right and
     * each column bottom up; false where it raises IndexError.
     */
    method BuildTable(tokens: seq<string>) returns (table: array2<Cell>, ok: bool)
      ensures Shaped(table, |tokens|)
      ensures ok <==> !Crashes(rules, tokens)
      ensures ok ==> Complete(rules, tokens, table)
    {
      var n := |tokens|;
      table := NewTable(n);
      var j := 1;
      while j <= n
        invariant 1 <= j <= n + 1
        invariant Shaped(table, n) && Filled(rules, tokens, table, j - 1, j)
        invariant forall a, b | 0 <= a <= n && 0 <= b <= n :: fresh(table[a, b])
        invariant j > 1 ==> HasRight(rules)
        invariant NoClashBefore(rules, tokens, j - 1, j)
      {
        ok := FillColumn(table, tokens, j);
        if !ok {
          return;
        }
        j := j + 1;
      }
      ok := true;
    }

    /**
     * One turn of the loop over j: the leaf cell (j - 1, j), then the cells
     * (i, j) for i = j - 2 down to 0; false where it raises IndexError.
     */
    method FillColumn(table: array2<Cell>, tokens: seq<string>, j: nat) returns (ok: bool)
      requires 0 < j <= |tokens| && Shaped(table, |tokens|) && Filled(rules, tokens, table, j - 1, j)
      requires j > 1 ==> HasRight(rules)
      modifies set a | 0 <= a < j :: table[a, j]
      ensures ok <==> HasRight(rules) && forall a | 0 <= a < j :: !SpanClash(rules, tokens, a, j)
      ensures ok ==> Filled(rules, tokens, table, j, j + 1)
    {
      ok := FillLeaf(table, tokens, j);
      if !ok {
        return;
      }
      var i := j - 2;
      while i >= 0
        invariant -1 <= i <= j - 2
        invariant Filled(rules, tokens, table, i, j)
        invariant forall a | i < a < j :: !SpanClash(rules, tokens, a, j)
      {
        ok := FillCell(table, tokens, i, j);
        if !ok {
          return;
        }
        i := i - 1;
      }
      ok := true;
    }

    /** The leaf cell (j - 1, j); false where a rule without right symbols raises IndexError. */
    method FillLeaf(table: array2<Cell>, tokens: seq<string>, j: nat) returns (ok: bool)
      requires 0 < j <= |tokens| && Shaped(table, |tokens|) && Filled(rules, tokens, table, j - 1, j)
      modifies table[j - 1, j]
      ensures ok <==> HasRight(rules)
      ensures ok ==> Filled(rules, tokens, table, j - 2, j)
    {
      var leaf;
      leaf, ok := LeafTags(tokens[j - 1]);
      if ok {
        table[j - 1, j].AddTags(leaf);
      }
    }

    /**
     * The tags of a leaf cell: the left side of every rule whose first right
     * symbol is the quoted token, in grammar order; false where a rule
     * without right symbols raises IndexError.
     */
    method LeafTags(token: string) returns (tags: seq<Entry>, ok: bool)
      ensures ok <==> HasRight(rules)
      ensures ok ==> tags == LeafCell(rules, token)
    {
      var rs := rules;
      tags := [];
      var ri := 0;
      while ri < |rs|
        invariant ri <= |rs| && HasRight(rs[..ri]) && tags == LeafCell(rs[..ri], token)
      {
        var r := rs[ri];
        if |r.right| == 0 {
          assert r in rs;
          return tags, false;
        }
        LeafCellStep(rs, ri, token);
        if r.right[0] == Quote(token) {
          tags := tags + [Entry(r.left, [])];
        }
        ri := ri + 1;
      }
      assert rs[..ri] == rs;
      ok := true;
    }

    /** Cell (i, j), j - i >= 2, from split points k = i + 1 .. j - 1; false where one clashes. */
    method FillCell(table: array2<Cell>, ghost tokens: seq<string>, i: nat, j: nat) returns (ok: bool)
      requires Shaped(table, |tokens|) && i + 1 < j <= |tokens| && HasRight(rules)
      requires Filled(rules, tokens, table, i, j)
      modifies table[i, j]
      ensures ok <==> !SpanClash(rules, tokens, i, j)
      ensures ok ==> Filled(rules, tokens, table, i - 1, j)
    {
      var k := i + 1;
      while k <= j - 1
        invariant i + 1 <= k <= j
        invariant table[i, j].tags == SplitsTo(rules, tokens, i, j, k)
        invariant forall m | i < m < k :: !Clash(rules, Span(rules, tokens, i, m), Span(rules, tokens, m, j))
        invariant FilledBut(rules, tokens, table, i, j)
      {
        assert table[i, k].tags == Span(rules, tokens, i, k) && table[k, j].tags == Span(rules, tokens, k, j);
        ok := AddSplit(table, |tokens|, i, k, j);
        if !ok {
          assert Clash(rules, Span(rules, tokens, i, k), Span(rules, tokens, k, j));
          return;
        }
        SplitsToStep(rules, tokens, i, j, k + 1);
        k := k + 1;
      }
      FilledNext(rules, tokens, table, i, j);
      ok := true;
    }

    /** The loop over the rules for split point k of cell (i, j). */
    method AddSplit(table: array2<Cell>, ghost n: nat, i: nat, k: nat, j: nat) returns (ok: bool)
      requires Shaped(table, n) && i < k < j <= n && HasRight(rules)
      modifies table[i, j]
      ensures ok <==> !Clash(rules, table[i, k].tags, table[k, j].tags)
      ensures ok ==> table[i, j].tags == old(table[i, j].tags) + ForRules(rules, i, k, j, table[i, k].tags, table[k, j].tags)
    {
      ghost var bs, cs := table[i, k].tags, table[k, j].tags;
      var ri := 0;
      while ri < |rules|
        invariant ri <= |rules|
        invariant table[i, j].tags == old(table[i, j].tags) + ForRules(rules[..ri], i, k, j, bs, cs)
        invariant !Clash(rules[..ri], bs, cs)
      {
        ok := AddForB(table, n, rules[ri], i, k, j);
        if !ok {
          return;
        }
        assert rules[..ri + 1] == rules[..ri] + [rules[ri]];
        ri := ri + 1;
      }
      assert rules[..ri] == rules;
      ok := true;
    }

    /** The loop over the b cell (i, k) for one rule. */
    method AddForB(table: array2<Cell>, ghost n: nat, r: Rule, i: nat, k: nat, j: nat) returns (ok: bool)
      requires Shaped(table, n) && i < k < j <= n && |r.right| > 0
      modifies table[i, j]
      ensures ok <==> !RuleClash(r, table[i, k].tags, table[k, j].tags)
      ensures ok ==> table[i, j].tags == old(table[i, j].tags) + ForB(r, i, k, j, table[i, k].tags, table[k, j].tags, |table[i, k].tags|)
    {
      ghost var bs, cs := table[i, k].tags, table[k, j].tags;
      var bIdx := 0;
      while bIdx < |table[i, k].tags|
        invariant bIdx <= |bs|
        invariant table[i, j].tags == old(table[i, j].tags) + ForB(r, i, k, j, bs, cs, bIdx)
        invariant !(cs != [] && |r.right| == 1 && exists b | 0 <= b < bIdx :: r.right[0] == bs[b].name)
      {
        if r.right[0] == table[i, k].tags[bIdx].name {
          ok := AddJoins(table, n, r, i, k, j, bIdx);
          if !ok {
            return;
          }
        }
        bIdx := bIdx + 1;
      }
      ok := true;
    }

    /** The loop over the c cell (k, j) for one rule and b-cell entry bIdx. */
    method AddJoins(table: array2<Cell>, ghost n: nat, r: Rule, i: nat, k: nat, j: nat, bIdx: nat) returns (ok: bool)
      requires Shaped(table, n) && i < k < j <= n && bIdx < |table[i, k].tags|
      requires |r.right| > 0 && r.right[0] == table[i, k].tags[bIdx].name
      modifies table[i, j]
      ensures ok <==> table[k, j].tags == [] || |r.right| >= 2
      ensures ok ==>
        table[i, j].tags == old(table[i, j].tags) + ForC(r, i, k, j, table[i, k].tags, bIdx, table[k, j].tags, |table[k, j].tags|)
    {
      assert table[k, j].at != table[i, j].at;
      ghost var bs, cs := table[i, k].tags, table[k, j].tags;
      var cIdx := 0;
      while cIdx < |table[k, j].tags|
        invariant cIdx <= |cs| && table[k, j].tags == cs && (cIdx > 0 ==> |r.right| >= 2)
        invariant table[i, j].tags == old(table[i, j].tags) + ForC(r, i, k, j, bs, bIdx, cs, cIdx)
      {
        if |r.right| < 2 {
          return false;
        }
        if r.right[1] == table[k, j].tags[cIdx].name {
          table[i, j].AddTag(Entry(r.left, [Pointer(i, k, bIdx), Pointer(k, j, cIdx)]));
        }
        cIdx := cIdx + 1;
      }
      ok := true;
    }

    /** _buildStrings: one string per tag of the root cell named TOP, in cell order. */
    method BuildStrings(table: array2<Cell>, tokens: seq<string>) returns (strings: seq<string>)
      requires Shaped(table, |tokens|) && Complete(rules, tokens, table)
      ensures strings == ChartSpec.Parse(rules, tokens)
    {
      strings := [];
      var root := table[0, table.Length0 - 1].tags;
      assert root == Root(rules, tokens);
      var m := 0;
      while m < |root|
        invariant m <= |root| && strings == Trees(rules, tokens, m)
      {
        var tag := root[m];
        if tag.name == Grammar.Start {
          var s, rest := AddNodeToString(table, tokens, tag, "", 0, tokens, 0, |tokens|);
          assert s == Render(rules, tokens, 0, |tokens|, tag, 0, tokens).0;
          strings := strings + [s];
        }
        m := m + 1;
      }
    }

    /**
     * _addNodeToString for a tag of cell (i, j): appends the node and its
     * subtree to s, and gives back the tokens it has not printed.
     */
    method AddNodeToString(table: array2<Cell>, ghost tokens: seq<string>, tag: Entry, s: string, depth: nat,
                           toks: seq<string>, ghost i: nat, ghost j: nat) returns (out: string, rest: seq<string>)
      requires Shaped(table, |tokens|) && Complete(rules, tokens, table)
      requires i < j <= |tokens| && tag in Span(rules, tokens, i, j)
      ensures out == s + Render(rules, tokens, i, j, tag, depth, toks).0
      ensures rest == Render(rules, tokens, i, j, tag, depth, toks).1
      decreases j - i, 1
    {
      out := OpenNode(s, tag.name, depth);
      PointersBelow(rules, tokens, i, j, tag);
      out, rest := AddChildren(table, tokens, tag.pointers, out, depth + 1, toks, i, j);
      ghost var kids := RenderAll(rules, tokens, i, j, tag.pointers, depth + 1, toks);
      if |tag.pointers| == 0 && |rest| > 0 {
        out := out + " " + rest[0];
        rest := rest[1..];
        assert out + ")" == s + (Open(tag.name, depth) + kids.0 + " " + kids.1[0] + ")");
      } else {
        assert out + ")" == s + (Open(tag.name, depth) + kids.0 + ")");
      }
      out := out + ")";
    }

    /** The loop of _addNodeToString over a tag's pointers: each child node appended in turn. */
    method AddChildren(table: array2<Cell>, ghost tokens: seq<string>, ps: seq<Pointer>, s: string, depth: nat,
                       toks: seq<string>, ghost i: nat, ghost j: nat) returns (out: string, rest: seq<string>)
      requires Shaped(table, |tokens|) && Complete(rules, tokens, table)
      requires forall p | p in ps :: Below(rules, tokens, i, j, p)
      ensures out == s + RenderAll(rules, tokens, i, j, ps, depth, toks).0
      ensures rest == RenderAll(rules, tokens, i, j, ps, depth, toks).1
      decreases j - i, 0
    {
      out, rest := s, toks;
      var idx := 0;
      while idx < |ps|
        invariant idx <= |ps|
        invariant forall p | p in ps[idx..] :: Below(rules, tokens, i, j, p)
        invariant out + RenderAll(rules, tokens, i, j, ps[idx..], depth, rest).0 == s + RenderAll(rules, tokens, i, j, ps, depth, toks).0
        invariant RenderAll(rules, tokens, i, j, ps[idx..], depth, rest).1 == RenderAll(rules, tokens, i, j, ps, depth, toks).1
      {
        var p := ps[idx];
        RenderAllFirst(rules, tokens, i, j, ps[idx..], depth, rest);
        assert ps[idx..][0] == p && ps[idx..][1..] == ps[idx + 1..];
        var child := table[p.i, p.j].tags[p.tagIdx];
        out, rest := AddNodeToString(table, tokens, child, out, depth, rest, p.i, p.j);
        idx := idx + 1;
      }
      assert ps[idx..] == [];
    }

    /** The start of _addNodeToString: newline, two spaces per level of depth, "(" and the name. */
    method OpenNode(s: string, name: string, depth: nat) returns (out: string)
      ensures out == s + Open(name, depth)
    {
      out := s + "\n";
      var x := 0;
      while x < depth
        invariant x <= depth && out == s + "\n" + Indent(x)
      {
        out := out + "  ";
        x := x + 1;
      }
      out := out + "(" + name;
    }
  }
}
