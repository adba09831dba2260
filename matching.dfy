/**
  The salad search: the overlap between a salad and the selection, the scan over the
  catalog that keeps the first salad with a strictly larger overlap than the best so far,
  the missing ingredients, and the outcome the search reports.
 */
module Matching {
  import opened Wrappers
  import opened Menu

  /** How many of the salad's ingredients the selection holds. */
  function Overlap(s: Salad, sel: set<string>): nat {
    |s.ingredients * sel|
  }

  /** The overlap is bounded by both sets, and is 0 exactly when they are disjoint. */
  lemma OverlapBounds(s: Salad, sel: set<string>)
    ensures Overlap(s, sel) <= |s.ingredients| && Overlap(s, sel) <= |sel|
    ensures Overlap(s, sel) == 0 <==> s.ingredients !! sel
  {
    var common := s.ingredients * sel;
    SubsetSize(common, s.ingredients);
    SubsetSize(common, sel);
    assert common == {} ==> s.ingredients !! sel by {
      if common == {} {
        forall x | x in s.ingredients ensures x !in sel {
          assert x !in common;
        }
      }
    }
  }

  lemma {:induction false} SubsetSize<T>(a: set<T>, b: set<T>)
    requires a <= b
    ensures |a| <= |b|
    decreases |b|
  {
    if a != {} {
      var x :| x in a;
      SubsetSize(a - {x}, b - {x});
    }
  }

  /** The count that goes with a best-so-far position: 0 while there is none. */
  function OverlapOf(c: seq<Salad>, sel: set<string>, best: Option<nat>): nat
    requires best.Some? ==> best.value < |c|
  {
    if best.None? then 0 else Overlap(c[best.value], sel)
  }

  /**
    Among the first n salads, k has a positive overlap that no other salad exceeds,
    and every salad before k has a strictly smaller one.
   */
  ghost predicate IsBestAmong(c: seq<Salad>, sel: set<string>, n: nat, k: nat)
    requires n <= |c|
  {
    && k < n
    && Overlap(c[k], sel) > 0
    && (forall j | 0 <= j < n :: Overlap(c[j], sel) <= Overlap(c[k], sel))
    && (forall j | 0 <= j < k :: Overlap(c[j], sel) < Overlap(c[k], sel))
  }

  ghost predicate IsBestMatch(c: seq<Salad>, sel: set<string>, k: nat) {
    IsBestAmong(c, sel, |c|, k)
  }

  ghost predicate NoOverlap(c: seq<Salad>, sel: set<string>) {
    forall j | 0 <= j < |c| :: Overlap(c[j], sel) == 0
  }

  /**
    The best-so-far position once the first n salads have been looked at. The count
    starts at 0, so a salad with no overlap is never taken, and the comparison is a strict
    `>`, so a later salad with an equal count does not replace an earlier one.
   */
  function BestIn(c: seq<Salad>, sel: set<string>, n: nat): (r: Option<nat>)
    requires n <= |c|
    ensures r.Some? ==> r.value < n
  {
    if n == 0 then None
    else
      var b := BestIn(c, sel, n - 1);
      if Overlap(c[n - 1], sel) > OverlapOf(c, sel, b) then Some(n - 1) else b
  }


  /** The scan over a prefix finds the best match of that prefix, and finds none exactly when no salad of it overlaps. */
  lemma {:induction false} BestInCorrect(c: seq<Salad>, sel: set<string>, n: nat)
    requires n <= |c|
    ensures BestIn(c, sel, n).Some? ==> IsBestAmong(c, sel, n, BestIn(c, sel, n).value)
    ensures BestIn(c, sel, n).None? <==> forall j | 0 <= j < n :: Overlap(c[j], sel) == 0
  {
    if n > 0 {
      BestInCorrect(c, sel, n - 1);
      BestInBelow(c, sel, n - 1);
      var b := BestIn(c, sel, n - 1);
      var last := Overlap(c[n - 1], sel);
      var max := OverlapOf(c, sel, b);
      if last > max {
        forall j | 0 <= j < n ensures Overlap(c[j], sel) < last || j == n - 1 {
          if j < n - 1 { assert Overlap(c[j], sel) <= max; }
        }
        assert IsBestAmong(c, sel, n, n - 1);
      } else if b.Some? {
        assert IsBestAmong(c, sel, n - 1, b.value);
        assert IsBestAmong(c, sel, n, b.value);
      } else {
        assert last == 0;
      }
    }
  }

  /** Every overlap in a prefix is at most the count that goes with the prefix's best-so-far position. */
  lemma BestInBelow(c: seq<Salad>, sel: set<string>, n: nat)
    requires n <= |c|
    requires BestIn(c, sel, n).Some? ==> IsBestAmong(c, sel, n, BestIn(c, sel, n).value)
    requires BestIn(c, sel, n).None? <==> forall j | 0 <= j < n :: Overlap(c[j], sel) == 0
    ensures forall j | 0 <= j < n :: Overlap(c[j], sel) <= OverlapOf(c, sel, BestIn(c, sel, n))
  {
  }

  /** The position the whole scan ends with: the best match, or none when no salad overlaps. */
  function BestMatch(c: seq<Salad>, sel: set<string>): (r: Option<nat>)
    ensures r.Some? ==> r.value < |c| && IsBestMatch(c, sel, r.value)
    ensures r.None? <==> NoOverlap(c, sel)
  {
    BestInCorrect(c, sel, |c|);
    BestIn(c, sel, |c|)
  }

  /** At most one position is the best match of a prefix. */
  lemma BestAmongUnique(c: seq<Salad>, sel: set<string>, n: nat, k1: nat, k2: nat)
    requires n <= |c|
    requires IsBestAmong(c, sel, n, k1) && IsBestAmong(c, sel, n, k2)
    ensures k1 == k2
  {
  }

  /** The scan's result is the best match, both ways round. */
  lemma BestMatchIff(c: seq<Salad>, sel: set<string>, k: nat)
    ensures BestMatch(c, sel) == Some(k) <==> IsBestMatch(c, sel, k)
    ensures BestMatch(c, sel).None? <==> NoOverlap(c, sel)
  {
    BestInCorrect(c, sel, |c|);
    if IsBestMatch(c, sel, k) {
      BestAmongUnique(c, sel, |c|, k, BestMatch(c, sel).value);
    }
  }

  /** The search loop: walk the catalog in order, keep the first strictly larger overlap. */
  method FindBestMatch(c: seq<Salad>, sel: set<string>) returns (best: Option<nat>)
    ensures best == BestMatch(c, sel)
    ensures best.Some? ==> IsBestMatch(c, sel, best.value)
    ensures best.None? <==> NoOverlap(c, sel)
  {
    best := None;
    var maxMatchCount := 0;
    var i := 0;
    while i < |c|
      invariant 0 <= i <= |c|
      invariant best == BestIn(c, sel, i)
      invariant maxMatchCount == OverlapOf(c, sel, best)
    {
      var matchCount := Overlap(c[i], sel);
      if matchCount > maxMatchCount {
        best := Some(i);
        maxMatchCount := matchCount;
      }
      i := i + 1;
    }
    BestInCorrect(c, sel, |c|);
  }

  /** The ingredients of the salad that the selection lacks. */
  function Missing(s: Salad, sel: set<string>): (m: set<string>)
    ensures m <= s.ingredients
    ensures m !! sel
    ensures s.ingredients == m + (s.ingredients * sel)
    ensures m == {} <==> s.ingredients <= sel
  {
    var m := s.ingredients - sel;
    assert m == {} ==> s.ingredients <= sel by {
      if m == {} {
        forall x | x in s.ingredients ensures x in sel {
          assert x !in m;
        }
      }
    }
    m
  }

  /** What the search reports. */
  datatype SearchOutcome =
    | NoSelection
    | NoMatch
    | Recommended(name: string, price: int, missing: set<string>)

  /**
    The search on a selection list. The test on the best salad is a truthiness test on its
    name, so a best salad whose name is the empty string is reported as no match.
   */
  function Recommend(c: seq<Salad>, valda: seq<string>): (o: SearchOutcome)
    ensures o.NoSelection? <==> valda == []
  {
    if valda == [] then NoSelection
    else
      var sel := Elems(valda);
      match BestMatch(c, sel)
      case None => NoMatch
      case Some(k) =>
        if c[k].name == "" then NoMatch
        else Recommended(c[k].name, c[k].price, Missing(c[k], sel))
  }

  /** The outcome of a search whose best match is k. */
  ghost predicate RecommendsAt(c: seq<Salad>, valda: seq<string>, k: nat, o: SearchOutcome) {
    && IsBestMatch(c, Elems(valda), k)
    && o == Recommended(c[k].name, c[k].price, Missing(c[k], Elems(valda)))
  }

  /** A recommended salad is the best match: no salad overlaps more, and every earlier one overlaps less. */
  lemma RecommendSound(c: seq<Salad>, valda: seq<string>)
    requires Recommend(c, valda).Recommended?
    ensures exists k :: RecommendsAt(c, valda, k, Recommend(c, valda))
  {
    var k := BestMatch(c, Elems(valda)).value;
    BestMatchIff(c, Elems(valda), k);
    assert RecommendsAt(c, valda, k, Recommend(c, valda));
  }

  /** The best match of a non-empty selection is recommended, unless its name is the empty string. */
  lemma RecommendComplete(c: seq<Salad>, valda: seq<string>, k: nat)
    requires valda != [] && IsBestMatch(c, Elems(valda), k)
    ensures Recommend(c, valda) ==
      if c[k].name == "" then NoMatch
      else Recommended(c[k].name, c[k].price, Missing(c[k], Elems(valda)))
  {
    BestMatchIff(c, Elems(valda), k);
  }

  /**
    A non-empty selection that overlaps no salad gets no recommendation; when no salad
    has the empty name, that is the only way to get none.
   */
  lemma RecommendNoMatch(c: seq<Salad>, valda: seq<string>)
    requires valda != []
    ensures NoOverlap(c, Elems(valda)) ==> Recommend(c, valda) == NoMatch
    ensures (forall j | 0 <= j < |c| :: c[j].name != "") ==>
      (Recommend(c, valda) == NoMatch <==> NoOverlap(c, Elems(valda)))
  {
    BestMatchIff(c, Elems(valda), 0);
  }

  /**
    A selection equal to some salad's ingredients does not make that salad the
    recommendation: an earlier salad holding the same ingredients and more ties with it
    and wins, and the missing set is then not empty.
   */
  lemma ExactSelectionCanLoseTie(c: seq<Salad>, valda: seq<string>)
    requires c == [Salad("A", 70, {"x", "y", "z"}), Salad("B", 60, {"x", "y"})]
    requires valda == ["x", "y"]
    ensures c[1].ingredients == Elems(valda)
    ensures Recommend(c, valda) == Recommended("A", 70, {"z"})
  {
    var sel := Elems(valda);
    assert sel == {"x", "y"};
    assert Overlap(c[0], sel) == 2 by {
      assert c[0].ingredients * sel == {"x", "y"};
    }
    assert Overlap(c[1], sel) == 2 by {
      assert c[1].ingredients * sel == {"x", "y"};
    }
    assert IsBestMatch(c, sel, 0);
    RecommendComplete(c, valda, 0);
    assert Missing(c[0], sel) == {"z"} by {
      assert c[0].ingredients - sel == {"z"};
    }
  }
}
