/** Facts about finite sets of integers that the pixel-set modules share:
    translating a set, its least and greatest element, ascending sequences. */
module IntSets {

  /** A set other than the empty set has a member (stated so that
      `:|` over a non-empty set has a witness to start from). */
  lemma NonEmptyHasMember(s: set<int>)
    requires s != {}
    ensures exists x :: x in s
  {
    if forall x :: x !in s {
      assert false;
    }
  }

  /** Every element of s moved down by c. */
  function Translate(s: set<int>, c: int): set<int>
  {
    set p | p in s :: p - c
  }

  /** Translation is a bijection, so it keeps the size of a set. */
  lemma {:induction false} TranslateCard(s: set<int>, c: int)
    ensures |Translate(s, c)| == |s|
    decreases |s|
  {
    if s == {} {
      assert Translate(s, c) == {};
    } else {
      NonEmptyHasMember(s);
      var a :| a in s;
      var rest := s - {a};
      TranslateCard(rest, c);
      forall p | p in Translate(s, c) ensures p in Translate(rest, c) + {a - c} {
        var q :| q in s && p == q - c;
        if q != a { assert q in rest; }
      }
      assert Translate(s, c) == Translate(rest, c) + {a - c};
      assert a - c !in Translate(rest, c);
    }
  }

  /** A non-empty finite set of integers has a least element. */
  lemma {:induction false} HasMinimum(s: set<int>) returns (m: int)
    requires s != {}
    ensures m in s && forall q :: q in s ==> m <= q
    decreases |s|
  {
    NonEmptyHasMember(s);
    var a :| a in s;
    if s == {a} {
      m := a;
    } else {
      var b := HasMinimum(s - {a});
      m := if a < b then a else b;
      forall q | q in s ensures m <= q {
        if q != a { assert q in s - {a}; }
      }
    }
  }

  /** A non-empty finite set of integers has a greatest element. */
  lemma {:induction false} HasMaximum(s: set<int>) returns (m: int)
    requires s != {}
    ensures m in s && forall q :: q in s ==> q <= m
    decreases |s|
  {
    NonEmptyHasMember(s);
    var a :| a in s;
    if s == {a} {
      m := a;
    } else {
      var b := HasMaximum(s - {a});
      m := if a > b then a else b;
      forall q | q in s ensures q <= m {
        if q != a { assert q in s - {a}; }
      }
    }
  }

  /** Strictly increasing, hence also free of duplicates. */
  predicate Ascending(xs: seq<int>)
  {
    forall i, j :: 0 <= i < j < |xs| ==> xs[i] < xs[j]
  }

  /** Python's `sorted` applied to a set: the members in increasing order.
      It repeatedly takes the least member not yet emitted. */
  method SortedMembers(s: set<int>) returns (r: seq<int>)
    ensures Ascending(r)
    ensures forall x :: x in r <==> x in s
  {
    r := [];
    var rest := s;
    while rest != {}
      invariant rest <= s
      invariant Ascending(r)
      invariant forall x :: x in r <==> x in s && x !in rest
      invariant forall k, q :: 0 <= k < |r| && q in rest ==> r[k] < q
      decreases |rest|
    {
      ghost var least := HasMinimum(rest);
      NonEmptyHasMember(rest);
      var m :| m in rest && forall q :: q in rest ==> m <= q;
      r := r + [m];
      rest := rest - {m};
    }
  }
}
