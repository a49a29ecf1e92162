// Order-preserving filters over sequences, the shape of hw2.py's loops that
// append each element to one of two lists according to a test.
module Lists {

  /** The elements of s that satisfy f, in their order in s. */
  function Filter<T>(s: seq<T>, f: T -> bool): (r: seq<T>)
    ensures |r| <= |s|
    ensures forall x | x in r :: f(x) && x in s
  {
    if s == [] then []
    else
      var tail := Filter(s[1..], f);
      assert forall x | x in tail :: x in s;
      (if f(s[0]) then [s[0]] else []) + tail
  }

  /** The elements of s that fail f, in their order in s. */
  function Reject<T>(s: seq<T>, f: T -> bool): (r: seq<T>)
    ensures |r| <= |s|
    ensures forall x | x in r :: !f(x) && x in s
  {
    if s == [] then []
    else
      var tail := Reject(s[1..], f);
      assert forall x | x in tail :: x in s;
      (if f(s[0]) then [] else [s[0]]) + tail
  }

  lemma {:induction false} FilterAppend<T>(a: seq<T>, b: seq<T>, f: T -> bool)
    ensures Filter(a + b, f) == Filter(a, f) + Filter(b, f)
    decreases |a|
  {
    if a == [] {
      assert a + b == b;
    } else {
      var h: seq<T> := if f(a[0]) then [a[0]] else [];
      assert (a + b)[0] == a[0] && (a + b)[1..] == a[1..] + b;
      calc {
        Filter(a + b, f);
        h + Filter(a[1..] + b, f);
        { FilterAppend(a[1..], b, f); }
        h + (Filter(a[1..], f) + Filter(b, f));
        (h + Filter(a[1..], f)) + Filter(b, f);
      }
    }
  }

  lemma {:induction false} RejectAppend<T>(a: seq<T>, b: seq<T>, f: T -> bool)
    ensures Reject(a + b, f) == Reject(a, f) + Reject(b, f)
    decreases |a|
  {
    if a == [] {
      assert a + b == b;
    } else {
      var h: seq<T> := if f(a[0]) then [] else [a[0]];
      assert (a + b)[0] == a[0] && (a + b)[1..] == a[1..] + b;
      calc {
        Reject(a + b, f);
        h + Reject(a[1..] + b, f);
        { RejectAppend(a[1..], b, f); }
        h + (Reject(a[1..], f) + Reject(b, f));
        (h + Reject(a[1..], f)) + Reject(b, f);
      }
    }
  }

  /** Every element lands in exactly one of the two parts. */
  lemma {:induction false} FilterSplit<T>(s: seq<T>, f: T -> bool)
    ensures multiset(Filter(s, f)) + multiset(Reject(s, f)) == multiset(s)
    decreases |s|
  {
    if s != [] {
      FilterSplit(s[1..], f);
      assert s == [s[0]] + s[1..];
    }
  }

  lemma FilterAll<T>(s: seq<T>, f: T -> bool)
    requires forall x | x in s :: f(x)
    ensures Filter(s, f) == s && Reject(s, f) == []
  {
    if s != [] {
      assert forall x | x in s[1..] :: x in s;
      FilterAll(s[1..], f);
      assert s == [s[0]] + s[1..];
    }
  }

  /** Every element that satisfies f is kept by Filter. */
  lemma {:induction false} FilterHas<T>(s: seq<T>, f: T -> bool, x: T)
    requires x in s && f(x)
    ensures x in Filter(s, f)
    decreases |s|
  {
    if s[0] != x {
      FilterHas(s[1..], f, x);
    }
  }

  /** Every element that fails f is kept by Reject. */
  lemma {:induction false} RejectHas<T>(s: seq<T>, f: T -> bool, x: T)
    requires x in s && !f(x)
    ensures x in Reject(s, f)
    decreases |s|
  {
    if s[0] != x {
      RejectHas(s[1..], f, x);
    }
  }

  /** Filter over one more element of s. */
  lemma FilterSnoc<T>(s: seq<T>, m: nat, f: T -> bool)
    requires 0 < m <= |s|
    ensures Filter(s[..m], f) == Filter(s[..m - 1], f) + (if f(s[m - 1]) then [s[m - 1]] else [])
  {
    assert s[..m] == s[..m - 1] + [s[m - 1]];
    FilterAppend(s[..m - 1], [s[m - 1]], f);
    assert [s[m - 1]][1..] == [];
  }

  /** Reject over one more element of s. */
  lemma RejectSnoc<T>(s: seq<T>, m: nat, f: T -> bool)
    requires 0 < m <= |s|
    ensures Reject(s[..m], f) == Reject(s[..m - 1], f) + (if f(s[m - 1]) then [] else [s[m - 1]])
  {
    assert s[..m] == s[..m - 1] + [s[m - 1]];
    RejectAppend(s[..m - 1], [s[m - 1]], f);
    assert [s[m - 1]][1..] == [];
  }

  /** Appending after a concatenation; stated apart to keep the callers' proofs small. */
  lemma SnocAssoc<T>(a: seq<T>, b: seq<T>, x: T)
    ensures a + (b + [x]) == (a + b) + [x]
  {
  }

  /**
   * One more element of s sorted by f: it is appended after the kept part
   * when f holds and after the rejected part otherwise.
   */
  lemma PartitionSnoc<T>(rejected: seq<T>, kept: seq<T>, s: seq<T>, k: nat, f: T -> bool)
    requires k < |s|
    ensures f(s[k]) ==> kept + Filter(s[..k + 1], f) == (kept + Filter(s[..k], f)) + [s[k]] &&
                        rejected + Reject(s[..k + 1], f) == rejected + Reject(s[..k], f)
    ensures !f(s[k]) ==> kept + Filter(s[..k + 1], f) == kept + Filter(s[..k], f) &&
                         rejected + Reject(s[..k + 1], f) == (rejected + Reject(s[..k], f)) + [s[k]]
  {
    FilterSnoc(s, k + 1, f);
    RejectSnoc(s, k + 1, f);
    var x := s[k];
    if f(x) {
      assert Filter(s[..k + 1], f) == Filter(s[..k], f) + [x];
      assert Reject(s[..k + 1], f) == Reject(s[..k], f) + [];
      SnocAssoc(kept, Filter(s[..k], f), x);
    } else {
      assert Filter(s[..k + 1], f) == Filter(s[..k], f) + [];
      assert Reject(s[..k + 1], f) == Reject(s[..k], f) + [x];
      SnocAssoc(rejected, Reject(s[..k], f), x);
    }
  }
}
