// String helpers with the meaning the grammar tool relies on: Python 2 byte
// strings in the C locale, so "whitespace", "upper case" and "alphanumeric"
// are the ASCII notions.
module Text {

  /** Python's str.isspace for one character: space, \t, \n, \v, \f, \r. */
  predicate IsSpace(c: char) {
    c == ' ' || 9 <= c as int <= 13
  }

  predicate NoSpace(s: string) {
    forall k :: 0 <= k < |s| ==> !IsSpace(s[k])
  }

  predicate IsAlnumChar(c: char) {
    ('a' <= c <= 'z') || ('A' <= c <= 'Z') || ('0' <= c <= '9')
  }

  /** str.isalnum(): non-empty and every character a letter or a digit. */
  predicate IsAlnum(s: string) {
    |s| > 0 && forall k :: 0 <= k < |s| ==> IsAlnumChar(s[k])
  }

  function TrimLeft(s: string): (r: string)
    ensures |r| <= |s| && r == s[|s| - |r|..]
    ensures r == [] || !IsSpace(r[0])
  {
    if |s| > 0 && IsSpace(s[0]) then TrimLeft(s[1..]) else s
  }

  function TrimRight(s: string): (r: string)
    ensures |r| <= |s| && r == s[..|r|]
    ensures r == [] || !IsSpace(r[|r| - 1])
  {
    if |s| > 0 && IsSpace(s[|s| - 1]) then TrimRight(s[..|s| - 1]) else s
  }

  /** str.strip() with no argument. */
  function Strip(s: string): string {
    TrimRight(TrimLeft(s))
  }

  /** The longest prefix of s that holds no whitespace. */
  function Word(s: string): (w: string)
    ensures |w| <= |s| && w == s[..|w|] && NoSpace(w)
    ensures |w| < |s| ==> IsSpace(s[|w|])
    ensures s != [] && !IsSpace(s[0]) ==> w != []
  {
    if s == [] || IsSpace(s[0]) then [] else [s[0]] + Word(s[1..])
  }

  /** str.split() with no argument: the maximal runs of non-whitespace, in order. */
  function SplitWs(s: string): (ws: seq<string>)
    ensures forall w | w in ws :: w != [] && NoSpace(w)
    decreases |s|
  {
    var t := TrimLeft(s);
    if t == [] then []
    else
      var w := Word(t);
      var tail := SplitWs(t[|w|..]);
      assert forall x | x in [w] + tail :: x == w || x in tail;
      [w] + tail
  }

  /** Joins names, each preceded by one space (how Rule._buildString lays out a right side). */
  function SpaceJoin(ws: seq<string>): string {
    if ws == [] then [] else " " + ws[0] + SpaceJoin(ws[1..])
  }

  lemma WordOfPrefix(w: string, u: string)
    requires NoSpace(w)
    requires u == [] || IsSpace(u[0])
    ensures Word(w + u) == w
    decreases |w|
  {
    if w != [] {
      assert (w + u)[1..] == w[1..] + u;
      WordOfPrefix(w[1..], u);
    } else {
      assert w + u == u;
    }
  }

  /** A space, a word and then a space or nothing: the word is split off first. */
  lemma SplitJoinStep(w: string, rest: string)
    requires w != [] && NoSpace(w) && (rest == [] || IsSpace(rest[0]))
    ensures SplitWs(" " + w + rest) == [w] + SplitWs(rest)
  {
    var s := " " + w + rest;
    assert s[1..] == w + rest;
    assert (w + rest)[0] == w[0];
    assert TrimLeft(s) == w + rest;
    WordOfPrefix(w, rest);
    assert (w + rest)[|w|..] == rest;
  }

  /** A non-empty sequence is its head followed by its tail; stated apart to keep callers small. */
  lemma HeadTail<T>(s: seq<T>)
    requires s != []
    ensures s == [s[0]] + s[1..]
  {
  }

  /** Splitting a space-joined list of words gives the words back. */
  lemma {:induction false} SplitJoin(ws: seq<string>)
    requires forall w | w in ws :: w != [] && NoSpace(w)
    ensures SplitWs(SpaceJoin(ws)) == ws
    decreases |ws|
  {
    if ws != [] {
      var w, tail := ws[0], ws[1..];
      var rest := SpaceJoin(tail);
      assert w in ws;
      assert rest == [] || IsSpace(rest[0]);
      assert forall x | x in tail :: x in ws;
      SplitJoinStep(w, rest);
      SplitJoin(tail);
      calc {
        SplitWs(SpaceJoin(ws));
        { assert SpaceJoin(ws) == " " + w + rest; }
        SplitWs(" " + w + rest);
        [w] + tail;
        { HeadTail(ws); }
        ws;
      }
    }
  }

  /** Removes every occurrence of c (str.replace(c, '')). */
  function RemoveChar(s: string, c: char): (r: string)
    ensures c !in r
  {
    if s == [] then [] else (if s[0] == c then [] else [s[0]]) + RemoveChar(s[1..], c)
  }

  function UpperChar(c: char): char {
    if 'a' <= c <= 'z' then (c as int - 'a' as int + 'A' as int) as char else c
  }

  /** str.upper() in the C locale. */
  function Upper(s: string): (r: string)
    ensures |r| == |s|
    ensures forall k :: 0 <= k < |s| ==> r[k] == UpperChar(s[k])
  {
    if s == [] then [] else [UpperChar(s[0])] + Upper(s[1..])
  }

  /** Python's replace('  ', ' '): each non-overlapping pair of spaces, left to right, becomes one. */
  function CollapseSpaces(s: string): string {
    if |s| >= 2 && s[0] == ' ' && s[1] == ' ' then " " + CollapseSpaces(s[2..])
    else if s == [] then []
    else [s[0]] + CollapseSpaces(s[1..])
  }

  function DigitChar(d: nat): char
    requires d < 10
  {
    ('0' as int + d) as char
  }

  predicate IsDigit(c: char) {
    '0' <= c <= '9'
  }

  predicate AllDigits(s: string) {
    forall k :: 0 <= k < |s| ==> IsDigit(s[k])
  }

  /** str(n) for a non-negative int: its decimal digits. */
  function NatToString(n: nat): (s: string)
    ensures |s| >= 1
  {
    if n < 10 then [DigitChar(n)] else NatToString(n / 10) + [DigitChar(n % 10)]
  }

  /** Reads a string of decimal digits back as a number. */
  function ParseNat(s: string): nat
    requires AllDigits(s)
  {
    if s == [] then 0 else ParseNat(s[..|s| - 1]) * 10 + (s[|s| - 1] as int - '0' as int)
  }

  lemma {:induction false} ParseNatToString(n: nat)
    ensures AllDigits(NatToString(n))
    ensures ParseNat(NatToString(n)) == n
  {
    if n >= 10 {
      ParseNatToString(n / 10);
      var s := NatToString(n);
      assert s[..|s| - 1] == NatToString(n / 10);
    }
  }

  lemma {:induction false} NatToStringInjective(m: nat, n: nat)
    requires NatToString(m) == NatToString(n)
    ensures m == n
  {
    ParseNatToString(m);
    ParseNatToString(n);
  }

  function CountChar(s: string, c: char): nat {
    if s == [] then 0 else (if s[0] == c then 1 else 0) + CountChar(s[1..], c)
  }

  lemma {:induction false} CountCharAppend(a: string, b: string, c: char)
    ensures CountChar(a + b, c) == CountChar(a, c) + CountChar(b, c)
    decreases |a|
  {
    if a == [] {
      assert a + b == b;
    } else {
      assert (a + b)[1..] == a[1..] + b;
      CountCharAppend(a[1..], b, c);
    }
  }
}
