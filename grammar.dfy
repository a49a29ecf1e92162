// The pure parts of class Grammar in hw2.py: reading one rule line
// (parseRule), the line filter of load, the names the fresh-tag allocator
// hands out, and the order in which writeToFile lists the rules.
module Grammar {
  import opened Wrappers
  import opened Text
  import opened Rules
  import opened Lists

  /** Grammar.start. */
  const Start: string := "TOP"

  // ---------------------------------------------------------------- parseRule

  /** "->" starts at position i of s. */
  predicate SplitterAt(s: string, i: int) {
    0 <= i < |s| - 1 && s[i] == '-' && s[i + 1] == '>'
  }

  /** The line holds "->" somewhere (`Rule.splitter in line`). */
  predicate HasSplitter(s: string) {
    exists i | 0 <= i < |s| - 1 :: SplitterAt(s, i)
  }

  /** Position of the first "->" in s. */
  function FindSplitter(s: string): (p: Option<nat>)
    ensures p.None? <==> !HasSplitter(s)
    ensures p.Some? ==> p.value < |s| - 1 && s[p.value] == '-' && s[p.value + 1] == '>'
    ensures p.Some? ==> !HasSplitter(s[..p.value + 1])
  {
    if |s| < 2 then None
    else if s[0] == '-' && s[1] == '>' then
      assert SplitterAt(s, 0);
      Some(0)
    else
      var q := FindSplitter(s[1..]);
      assert forall i :: SplitterAt(s, i) <==> (i == 0 && SplitterAt(s, 0)) || SplitterAt(s[1..], i - 1);
      if q.None? then None
      else
        var pre, tl := s[..q.value + 2], s[1..][..q.value + 1];
        assert forall i :: SplitterAt(pre, i) ==> SplitterAt(tl, i - 1);
        assert SplitterAt(s, q.value + 1);
        Some(q.value + 1)
  }

  datatype ParseError = MissingSplitter

  /**
   * Grammar.parseRule. `line.split('->')` cuts at every "->"; the left name
   * is the stripped first piece and the right names are the whitespace-separated
   * words of the second piece (anything after a second "->" is dropped).
   * Without any "->", `split[1]` raises IndexError.
   */
  function ParseRule(line: string): (r: Result<Rule, ParseError>)
    ensures r.Ok? <==> HasSplitter(line)
    ensures r.Ok? ==> forall w | w in r.value.right :: w != [] && NoSpace(w)
  {
    match FindSplitter(line)
    case None => Err(MissingSplitter)
    case Some(p) =>
      var rest := line[p + 2..];
      var piece := match FindSplitter(rest) case None => rest case Some(q) => rest[..q];
      Ok(Rule(Strip(line[..p]), SplitWs(piece)))
  }

  /** A rule that Rule.toString writes and parseRule reads back unchanged. */
  predicate WellFormed(r: Rule) {
    r.left != [] && NoSpace(r.left) && !HasSplitter(r.left) &&
    forall w | w in r.right :: w != [] && NoSpace(w) && !HasSplitter(w)
  }

  lemma {:induction false} NoSplitterInSpaceJoin(ws: seq<string>)
    requires forall w | w in ws :: w != [] && NoSpace(w) && !HasSplitter(w)
    ensures !HasSplitter(SpaceJoin(ws))
    decreases |ws|
  {
    if ws != [] {
      var w, tail := ws[0], SpaceJoin(ws[1..]);
      assert forall x | x in ws[1..] :: x in ws;
      NoSplitterInSpaceJoin(ws[1..]);
      var s := " " + w + tail;
      assert tail == [] || tail[0] == ' ';
      assert w in ws;
      forall i ensures !SplitterAt(s, i) {
        if 1 <= i && i + 1 <= |w| {
          assert !SplitterAt(w, i - 1);
        } else if i > |w| {
          assert !SplitterAt(tail, i - 1 - |w|);
        }
      }
    }
  }

  lemma {:induction false} FindSplitterAfter(a: string, b: string)
    requires !HasSplitter(a) && (a == [] || a[|a| - 1] != '-')
    ensures FindSplitter(a + Splitter + b) == Some(|a|)
    decreases |a|
  {
    var s := a + Splitter + b;
    if a == [] {
      assert s[0] == '-' && s[1] == '>';
    } else {
      assert s[0] == a[0];
      if |a| >= 2 {
        assert !SplitterAt(a, 0);
        assert forall i :: SplitterAt(a[1..], i) ==> SplitterAt(a, i + 1);
        assert s[1..] == a[1..] + Splitter + b;
        FindSplitterAfter(a[1..], b);
      } else {
        assert s[1..] == Splitter + b;
        FindSplitterAfter([], b);
      }
    }
  }

  /** Reading back what Rule.toString writes gives the same rule. */
  lemma ParseToString(r: Rule)
    requires WellFormed(r)
    ensures ParseRule(ToString(r)) == Ok(r)
  {
    var a := r.left + " ";
    var tail := SpaceJoin(r.right);
    var line := ToString(r);
    assert line == a + Splitter + tail;
    assert forall i :: SplitterAt(a, i) ==> SplitterAt(r.left, i);
    FindSplitterAfter(a, tail);
    assert line[..|a|] == a;
    assert line[|a| + 2..] == tail;
    NoSplitterInSpaceJoin(r.right);
    assert Strip(a) == r.left by {
      assert TrimLeft(a) == a;
      assert a[..|a| - 1] == r.left;
      assert TrimRight(a) == TrimRight(r.left);
    }
    SplitJoin(r.right);
  }

  // --------------------------------------------------------------------- load

  /** The clean-up load applies before parsing: drop '\n', then collapse double spaces. */
  function CleanLine(line: string): string {
    CollapseSpaces(RemoveChar(line, '\n'))
  }

  lemma {:induction false} RemoveCharKeepsSplitter(s: string, c: char)
    requires c != '-' && c != '>' && HasSplitter(s)
    ensures HasSplitter(RemoveChar(s, c))
    decreases |s|
  {
    var r := RemoveChar(s, c);
    if SplitterAt(s, 0) {
      assert s[1..][1..] == s[2..];
      assert r == [s[0]] + ([s[1]] + RemoveChar(s[2..], c));
      assert SplitterAt(r, 0);
    } else {
      var i :| 0 <= i < |s| - 1 && SplitterAt(s, i);
      assert i >= 1;
      assert s[1..][i - 1] == s[i] && s[1..][i] == s[i + 1];
      assert SplitterAt(s[1..], i - 1);
      RemoveCharKeepsSplitter(s[1..], c);
      var t := RemoveChar(s[1..], c);
      var pre: string := if s[0] == c then [] else [s[0]];
      assert r == pre + t;
      var j :| 0 <= j < |t| - 1 && SplitterAt(t, j);
      assert r[j + |pre|] == t[j] && r[j + |pre| + 1] == t[j + 1];
      assert SplitterAt(r, j + |pre|);
    }
  }

  lemma {:induction false} CollapseKeepsSplitter(s: string)
    requires HasSplitter(s)
    ensures HasSplitter(CollapseSpaces(s))
    decreases |s|
  {
    var r := CollapseSpaces(s);
    if SplitterAt(s, 0) {
      assert s[1..][1..] == s[2..];
      assert r == [s[0]] + CollapseSpaces(s[1..]);
      assert CollapseSpaces(s[1..]) == [s[1]] + CollapseSpaces(s[2..]);
      assert SplitterAt(r, 0);
    } else {
      var i :| 0 <= i < |s| - 1 && SplitterAt(s, i);
      var k := if s[0] == ' ' && s[1] == ' ' then 2 else 1;
      assert i != 0;
      assert k == 2 ==> i != 1;
      assert s[k..][i - k] == s[i] && s[k..][i - k + 1] == s[i + 1];
      assert SplitterAt(s[k..], i - k);
      CollapseKeepsSplitter(s[k..]);
      var t := CollapseSpaces(s[k..]);
      assert r == [s[0]] + t;
      var j :| 0 <= j < |t| - 1 && SplitterAt(t, j);
      assert r[j + 1] == t[j] && r[j + 2] == t[j + 1];
      assert SplitterAt(r, j + 1);
    }
  }

  lemma CleanLineKeepsSplitter(line: string)
    requires HasSplitter(line)
    ensures HasSplitter(CleanLine(line))
  {
    RemoveCharKeepsSplitter(line, '\n');
    CollapseKeepsSplitter(RemoveChar(line, '\n'));
  }

  /** The rule-building part of Grammar.load: lines without "->" are skipped. */
  function LoadRules(lines: seq<string>): (rules: seq<Rule>)
  {
    if lines == [] then []
    else if HasSplitter(lines[0]) then
      CleanLineKeepsSplitter(lines[0]);
      [ParseRule(CleanLine(lines[0])).value] + LoadRules(lines[1..])
    else LoadRules(lines[1..])
  }

  function CountSplitterLines(lines: seq<string>): nat {
    if lines == [] then 0 else (if HasSplitter(lines[0]) then 1 else 0) + CountSplitterLines(lines[1..])
  }

  /** load keeps exactly one rule per line that holds "->", in file order. */
  lemma {:induction false} LoadRulesOnePerLine(lines: seq<string>)
    ensures |LoadRules(lines)| == CountSplitterLines(lines)
    decreases |lines|
  {
    if lines != [] {
      LoadRulesOnePerLine(lines[1..]);
    }
  }

  // ------------------------------------------------------------- fresh names

  /** The name _generateNewTag builds from a counter: 'X' + str(n). */
  function XName(n: nat): string {
    "X" + NatToString(n)
  }

  /** The counter an 'X<digits>' name was built from, if it has that shape. */
  function XIndex(t: string): Option<nat> {
    if |t| >= 2 && t[0] == 'X' && AllDigits(t[1..]) then Some(ParseNat(t[1..])) else None
  }

  lemma XIndexOfXName(n: nat)
    ensures XIndex(XName(n)) == Some(n)
  {
    ParseNatToString(n);
    assert XName(n)[1..] == NatToString(n);
  }

  /** The names already allocated that were built from a counter of at least m. */
  function XNamesFrom(tags: seq<string>, m: nat): set<string> {
    set t | t in tags && XIndex(t).Some? && XIndex(t).value >= m
  }

  /**
   * The least counter value c >= m whose name 'X'+str(c) is not yet in tags:
   * where the while loop of _generateNewTag stops.
   */
  function FreshFrom(tags: seq<string>, m: nat): (c: nat)
    ensures c >= m && XName(c) !in tags
    ensures forall k :: m <= k < c ==> XName(k) in tags
    decreases |XNamesFrom(tags, m)|
  {
    if XName(m) !in tags then m
    else
      XNamesShrink(tags, m);
      FreshFrom(tags, m + 1)
  }

  /** A taken name moves the search on by one. */
  lemma FreshFromSkips(tags: seq<string>, m: nat)
    requires XName(m) in tags
    ensures FreshFrom(tags, m) == FreshFrom(tags, m + 1)
  {
  }

  /** A free name ends the search. */
  lemma FreshFromStops(tags: seq<string>, m: nat)
    requires XName(m) !in tags
    ensures FreshFrom(tags, m) == m
  {
  }

  /** Once 'X'+str(m) is taken, fewer allocated names are built from counters past m. */
  lemma XNamesShrink(tags: seq<string>, m: nat)
    requires XName(m) in tags
    ensures |XNamesFrom(tags, m + 1)| < |XNamesFrom(tags, m)|
  {
    XIndexOfXName(m);
    var d := XName(m);
    assert d in XNamesFrom(tags, m);
    assert XNamesFrom(tags, m + 1) <= XNamesFrom(tags, m) - {d};
    SubsetCard(XNamesFrom(tags, m + 1), XNamesFrom(tags, m) - {d});
  }

  lemma SubsetCard<T>(a: set<T>, b: set<T>)
    requires a <= b
    ensures |a| <= |b|
  {
    assert b == a + (b - a);
  }

  /** The name _generateNewTag returns for the allocated names tags. */
  function GeneratedName(tags: seq<string>): string {
    XName(FreshFrom(tags, |tags| + 1))
  }

  /** The name _getNewTag derives from a terminal: quotes removed, upper-cased, stripped. */
  function Hint(terminal: string): string {
    Strip(Upper(RemoveChar(terminal, '\'')))
  }

  /** The name _getNewTag returns: the hint when it is alphanumeric, else a generated name. */
  function NewTagName(tags: seq<string>, terminal: string): string {
    var h := Hint(terminal);
    if IsAlnum(h) then h else GeneratedName(tags)
  }

  /** A generated name is never among the names allocated so far. */
  lemma GeneratedNameIsFresh(tags: seq<string>)
    ensures GeneratedName(tags) !in tags
    ensures !IsTerminal(GeneratedName(tags))
  {
    var c := FreshFrom(tags, |tags| + 1);
    ParseNatToString(c);
    assert forall k :: 0 <= k < |XName(c)| ==> XName(c)[k] == 'X' || IsDigit(XName(c)[k]) by {
      forall k | 0 <= k < |XName(c)| ensures XName(c)[k] == 'X' || IsDigit(XName(c)[k]) {
        if k > 0 { assert XName(c)[k] == NatToString(c)[k - 1]; }
      }
    }
  }

  lemma {:induction false} UpperKeepsOut(s: string, c: char)
    requires c != UpperChar(c) || !('a' <= c <= 'z')
    requires c !in s && !('A' <= c <= 'Z')
    ensures c !in Upper(s)
  {
    forall k | 0 <= k < |s| ensures Upper(s)[k] != c {
      assert s[k] != c;
    }
  }

  /** Every name _getNewTag hands out is a nonterminal. */
  lemma NewTagNameIsNonterminal(tags: seq<string>, terminal: string)
    ensures !IsTerminal(NewTagName(tags, terminal))
  {
    var u := Upper(RemoveChar(terminal, '\''));
    UpperKeepsOut(RemoveChar(terminal, '\''), '\'');
    TrimLeftKeepsNonSpace(u, '\'');
    TrimRightKeepsNonSpace(TrimLeft(u), '\'');
    GeneratedNameIsFresh(tags);
  }

  /**
   * _getNewTag does not look at what it handed out before: the same terminal
   * always gets the same alphanumeric name.
   */
  lemma NewTagNameRepeats(tags: seq<string>)
    ensures NewTagName(tags, "'dog'") == "DOG"
    ensures NewTagName(tags + ["DOG"], "'dog'") == "DOG"
  {
    HintOfDog();
  }

  /** The alphanumeric name the terminal 'dog' suggests. */
  lemma HintOfDog()
    ensures Hint("'dog'") == "DOG" && IsAlnum("DOG")
  {
    calc {
      RemoveChar("'dog'", '\'');
      [] + RemoveChar("dog'", '\'');
      "d" + RemoveChar("og'", '\'');
      "d" + ("o" + RemoveChar("g'", '\''));
      "d" + ("o" + ("g" + RemoveChar("'", '\'')));
      "d" + ("o" + ("g" + ([] + RemoveChar([], '\''))));
      "dog";
    }
    var u := Upper("dog");
    assert u[0] == 'D' && u[1] == 'O' && u[2] == 'G';
    assert u == "DOG";
    assert !IsSpace(u[0]) && !IsSpace(u[2]);
    assert TrimLeft(u) == u;
    assert TrimRight(u) == u;
    assert IsAlnum(u);
  }

  /** The name _getNewTag gives the one-letter terminal 'c'. */
  lemma NewTagOfLetter(tags: seq<string>, c: char)
    requires 'a' <= c <= 'z'
    ensures NewTagName(tags, ['\'', c, '\'']) == [UpperChar(c)]
  {
    var t: string := ['\'', c, '\''];
    assert t[1..] == [c, '\''] && t[1..][1..] == ['\''] && t[1..][1..][1..] == [];
    calc {
      RemoveChar(t, '\'');
      [] + RemoveChar([c, '\''], '\'');
      [c] + RemoveChar(['\''], '\'');
      [c] + ([] + RemoveChar([], '\''));
      [c];
    }
    var u := [UpperChar(c)];
    assert Upper([c]) == u;
    assert 'A' <= u[0] <= 'Z';
    assert !IsSpace(u[0]);
    assert TrimLeft(u) == u;
    assert TrimRight(u) == u;
    assert Hint(t) == u;
    assert IsAlnum(u);
  }

  // -------------------------------------------------------------- writeToFile

  /** Python 2 string comparison: byte by byte, a proper prefix first. */
  predicate LexLe(a: string, b: string) {
    a == [] || (b != [] && (a[0] < b[0] || (a[0] == b[0] && LexLe(a[1..], b[1..]))))
  }

  lemma {:induction false} LexLeTotal(a: string, b: string)
    ensures LexLe(a, b) || LexLe(b, a)
    decreases |a|
  {
    if a != [] && b != [] && a[0] == b[0] {
      LexLeTotal(a[1..], b[1..]);
    }
  }

  lemma {:induction false} LexLeTrans(a: string, b: string, c: string)
    requires LexLe(a, b) && LexLe(b, c)
    ensures LexLe(a, c)
    decreases |a|
  {
    if a != [] && b != [] && c != [] && a[0] == b[0] == c[0] {
      LexLeTrans(a[1..], b[1..], c[1..]);
    }
  }

  predicate KeyLe(x: Rule, y: Rule) {
    LexLe(ToString(x), ToString(y))
  }

  predicate SortedByKey(s: seq<Rule>) {
    forall p, q :: 0 <= p < q < |s| ==> KeyLe(s[p], s[q])
  }

  lemma SortedCons(h: Rule, t: seq<Rule>)
    requires SortedByKey(t)
    requires forall y | y in t :: KeyLe(h, y)
    ensures SortedByKey([h] + t)
  {
    forall p, q | 0 <= p < q < |[h] + t| ensures KeyLe(([h] + t)[p], ([h] + t)[q]) {
      assert ([h] + t)[q] == t[q - 1];
      if p > 0 {
        assert ([h] + t)[p] == t[p - 1];
      } else {
        assert t[q - 1] in t;
      }
    }
  }

  lemma SortedHeadLe(s: seq<Rule>, y: Rule)
    requires SortedByKey(s) && s != [] && y in s[1..]
    ensures KeyLe(s[0], y)
  {
    var q :| 0 <= q < |s[1..]| && s[1..][q] == y;
    assert s[q + 1] == y;
  }

  lemma InsertBehind(x: Rule, s: seq<Rule>, t: seq<Rule>)
    requires SortedByKey(s) && s != [] && KeyLe(s[0], x)
    requires SortedByKey(t) && multiset(t) == multiset(s[1..]) + multiset{x}
    ensures SortedByKey([s[0]] + t)
    ensures multiset([s[0]] + t) == multiset(s) + multiset{x}
  {
    forall y | y in t ensures KeyLe(s[0], y) {
      assert y in multiset(t);
      if y != x {
        assert y in multiset(s[1..]);
        SortedHeadLe(s, y);
      }
    }
    SortedCons(s[0], t);
    assert s == [s[0]] + s[1..];
  }

  /**
   * Inserts x after every leading rule whose key is not greater. SortByKey
   * inserts the head last, so rules with equal text come out in reverse
   * order, unlike list.sort; equal text means equal rules, so the written
   * lines are the same.
   */
  function Insert(x: Rule, s: seq<Rule>): (r: seq<Rule>)
    requires SortedByKey(s)
    ensures multiset(r) == multiset(s) + multiset{x}
    ensures SortedByKey(r)
  {
    if s == [] then [x]
    else if KeyLe(s[0], x) then
      assert SortedByKey(s[1..]) by {
        forall p, q | 0 <= p < q < |s[1..]| ensures KeyLe(s[1..][p], s[1..][q]) {
          assert s[1..][p] == s[p + 1] && s[1..][q] == s[q + 1];
        }
      }
      var t := Insert(x, s[1..]);
      InsertBehind(x, s, t);
      [s[0]] + t
    else
      InsertFront(x, s);
      [x] + s
  }

  lemma InsertFront(x: Rule, s: seq<Rule>)
    requires SortedByKey(s) && s != [] && !KeyLe(s[0], x)
    ensures SortedByKey([x] + s)
  {
    LexLeTotal(ToString(s[0]), ToString(x));
    forall y | y in s ensures KeyLe(x, y) {
      if y != s[0] {
        assert y in s[1..] by { assert s == [s[0]] + s[1..]; }
        SortedHeadLe(s, y);
        LexLeTrans(ToString(x), ToString(s[0]), ToString(y));
      }
    }
    SortedCons(x, s);
  }

  /** list.sort(key=toString): a permutation of the rules ordered by their text. */
  function SortByKey(s: seq<Rule>): (r: seq<Rule>)
    ensures multiset(r) == multiset(s)
    ensures SortedByKey(r)
  {
    if s == [] then []
    else
      assert s == [s[0]] + s[1..];
      Insert(s[0], SortByKey(s[1..]))
  }

  /** The order in which writeToFile lists the rules. */
  function WriteOrder(rules: seq<Rule>): seq<Rule> {
    SortByKey(Reject(rules, ContainsTerminal)) + SortByKey(Filter(rules, ContainsTerminal))
  }

  /** Two groups laid side by side: the first fails f throughout, the second passes it. */
  lemma SidesApart(a: seq<Rule>, b: seq<Rule>, f: Rule -> bool)
    requires forall x | x in a :: !f(x)
    requires forall x | x in b :: f(x)
    ensures forall p :: 0 <= p < |a| ==> !f((a + b)[p])
    ensures forall p :: |a| <= p < |a + b| ==> f((a + b)[p])
    ensures (a + b)[..|a|] == a && (a + b)[|a|..] == b
  {
    forall p | 0 <= p < |a| ensures !f((a + b)[p]) {
      assert (a + b)[p] == a[p];
    }
    forall p | |a| <= p < |a + b| ensures f((a + b)[p]) {
      assert (a + b)[p] == b[p - |a|];
    }
  }

  /** Sorting a part keeps exactly its elements, so they keep their side of f. */
  lemma SortedPartSide(s: seq<Rule>, f: Rule -> bool, pass: bool)
    requires forall x | x in s :: f(x) == pass
    ensures forall x | x in SortByKey(s) :: f(x) == pass
  {
    var r := SortByKey(s);
    forall x | x in r ensures f(x) == pass {
      assert x in multiset(r);
      assert x in multiset(s);
    }
  }

  /** Sorting each part of a split keeps the sides apart. */
  lemma SortedParts(rules: seq<Rule>, f: Rule -> bool)
    ensures var a, b := SortByKey(Reject(rules, f)), SortByKey(Filter(rules, f));
      multiset(a + b) == multiset(rules) &&
      (forall p :: 0 <= p < |a| ==> !f((a + b)[p])) &&
      (forall p :: |a| <= p < |a + b| ==> f((a + b)[p])) &&
      (a + b)[..|a|] == a && (a + b)[|a|..] == b
  {
    FilterSplit(rules, f);
    SortedPartSide(Reject(rules, f), f, false);
    SortedPartSide(Filter(rules, f), f, true);
    SidesApart(SortByKey(Reject(rules, f)), SortByKey(Filter(rules, f)), f);
  }

  /**
   * writeToFile lists every rule once: first the rules without a terminal,
   * then those with one, each group in the order of its text.
   */
  lemma WriteOrderSpec(rules: seq<Rule>)
    ensures multiset(WriteOrder(rules)) == multiset(rules)
    ensures var m := |Reject(rules, ContainsTerminal)|;
      m <= |WriteOrder(rules)| &&
      (forall p :: 0 <= p < m ==> !ContainsTerminal(WriteOrder(rules)[p])) &&
      (forall p :: m <= p < |WriteOrder(rules)| ==> ContainsTerminal(WriteOrder(rules)[p])) &&
      SortedByKey(WriteOrder(rules)[..m]) && SortedByKey(WriteOrder(rules)[m..])
  {
    SortedParts(rules, ContainsTerminal);
  }
}
