/**
 The priority among the sprites found at a pixel: the loop that keeps a current best, against
 the rule it is meant to follow (opaque sprites only, smaller X first, then earlier in OAM).
 */
module SpritePriority {

  /** A candidate: its place in OAM, its X and the colour index it has at the pixel. */
  datatype Candidate = Candidate(a: int, x: int, color: int)

  /** One turn of the loop: the current best `cur` meets the next candidate `c`. */
  function Turn(cur: Candidate, c: Candidate): Candidate {
    if cur.color == 0 || c.x <= cur.x then
      if cur.color != 0 && c.x == cur.x then if c.a <= cur.a then c else cur
      else if c.color != 0 then c
      else cur
    else cur
  }

  function Fold(cs: seq<Candidate>): Candidate
    requires cs != []
  {
    if |cs| == 1 then cs[0] else Turn(Fold(cs[..|cs| - 1]), cs[|cs| - 1])
  }

  lemma FoldSnoc(cs: seq<Candidate>, i: nat)
    requires 0 < i < |cs|
    ensures Fold(cs[..i + 1]) == Turn(Fold(cs[..i]), cs[i])
  {
    assert cs[..i + 1][..i] == cs[..i];
  }

  predicate DistinctSprites(cs: seq<Candidate>) { forall i, j | 0 <= i < j < |cs| :: cs[i].a != cs[j].a }

  predicate Before(p: Candidate, q: Candidate) { p.x < q.x || (p.x == q.x && p.a < q.a) }

  /** Candidate k is the one the rule chooses: opaque, and before every other opaque one. */
  ghost predicate Chosen(cs: seq<Candidate>, k: nat) {
    && k < |cs| && cs[k].color != 0
    && forall i | 0 <= i < |cs| && i != k && cs[i].color != 0 :: Before(cs[k], cs[i])
  }

  /**
   A transparent candidate at j that displaces candidate k: it is listed later, although it has
   the same X and comes earlier in OAM.
   */
  predicate Displaces(cs: seq<Candidate>, k: nat, j: nat)
    requires k < |cs|
  {
    k < j < |cs| && cs[j].color == 0 && cs[j].x == cs[k].x && cs[j].a <= cs[k].a
  }

  lemma {:induction false} FoldIsListed(cs: seq<Candidate>) returns (i: nat)
    requires cs != []
    ensures i < |cs| && Fold(cs) == cs[i]
  {
    if |cs| == 1 {
      i := 0;
    } else {
      i := FoldIsListed(cs[..|cs| - 1]);
      if Fold(cs) == cs[|cs| - 1] { i := |cs| - 1; }
    }
  }

  /** Without an opaque candidate the result is colour 0. */
  lemma {:induction false} AllTransparent(cs: seq<Candidate>)
    requires cs != [] && forall i | 0 <= i < |cs| :: cs[i].color == 0
    ensures Fold(cs).color == 0 && Fold(cs) == cs[0]
  {
    if |cs| > 1 {
      AllTransparent(cs[..|cs| - 1]);
    }
  }

  /** Up to its own turn nothing stops the chosen candidate, and then it is the current best. */
  lemma ChosenTakesOver(cs: seq<Candidate>, k: nat)
    requires Chosen(cs, k)
    ensures Fold(cs[..k + 1]) == cs[k]
  {
    if k == 0 {
      assert cs[..1] == [cs[0]];
    } else {
      var i := FoldIsListed(cs[..k]);
      assert cs[..k + 1][..k] == cs[..k];
    }
  }

  lemma {:induction false} ChosenStays(cs: seq<Candidate>, k: nat, m: nat)
    requires DistinctSprites(cs) && Chosen(cs, k) && k < m <= |cs|
    requires forall j | k < j < m :: !Displaces(cs, k, j)
    ensures Fold(cs[..m]) == cs[k]
    decreases m
  {
    if m == k + 1 {
      ChosenTakesOver(cs, k);
    } else {
      ChosenStays(cs, k, m - 1);
      assert cs[..m][..m - 1] == cs[..m - 1];
      assert !Displaces(cs, k, m - 1);
    }
  }

  /** Once displaced, the chosen candidate never comes back. */
  lemma {:induction false} DisplacedForGood(cs: seq<Candidate>, k: nat, j: nat, m: nat)
    requires DistinctSprites(cs) && Chosen(cs, k) && Displaces(cs, k, j) && j < m <= |cs|
    ensures Fold(cs[..m]) != cs[k]
    decreases m
  {
    assert cs[..m][..m - 1] == cs[..m - 1];
    assert cs[m - 1] != cs[k];
    if m > j + 1 {
      DisplacedForGood(cs, k, j, m - 1);
    }
  }

  /**
   The loop returns the sprite the rule chooses exactly when no transparent candidate displaces
   it, in lists of any length and order.
   */
  lemma PriorityExact(cs: seq<Candidate>, k: nat)
    requires DistinctSprites(cs) && Chosen(cs, k)
    ensures Fold(cs) == cs[k] <==> forall j | k < j < |cs| :: !Displaces(cs, k, j)
  {
    assert cs[..|cs|] == cs;
    if j :| k < j < |cs| && Displaces(cs, k, j) {
      DisplacedForGood(cs, k, j, |cs|);
    } else {
      ChosenStays(cs, k, |cs|);
    }
  }

  /** Listed in OAM order, or with pairwise distinct X in any order, the rule is always met. */
  lemma PriorityMet(cs: seq<Candidate>, k: nat)
    requires Chosen(cs, k)
    requires || (forall i, j | 0 <= i < j < |cs| :: cs[i].a < cs[j].a)
             || (DistinctSprites(cs) && forall i, j | 0 <= i < j < |cs| :: cs[i].x != cs[j].x)
    ensures Fold(cs) == cs[k]
  {
    PriorityExact(cs, k);
  }

  /** With distinct X the order of the list does not matter. */
  lemma OrderIrrelevant(cs: seq<Candidate>, ds: seq<Candidate>)
    requires multiset(cs) == multiset(ds) && cs != []
    requires forall i, j | 0 <= i < j < |cs| :: cs[i].x != cs[j].x && cs[i].a != cs[j].a
    requires forall i, j | 0 <= i < j < |ds| :: ds[i].x != ds[j].x && ds[i].a != ds[j].a
    ensures Fold(cs).color == Fold(ds).color
    ensures Fold(cs).color != 0 ==> Fold(cs) == Fold(ds)
  {
    if exists i :: 0 <= i < |cs| && cs[i].color != 0 {
      var k := LeastOpaque(cs);
      assert cs[k] in multiset(ds);
      var l :| 0 <= l < |ds| && ds[l] == cs[k];
      forall i | 0 <= i < |ds| && i != l && ds[i].color != 0
        ensures Before(ds[l], ds[i])
      {
        assert ds[i] in multiset(cs);
        var j :| 0 <= j < |cs| && cs[j] == ds[i];
      }
      PriorityMet(cs, k);
      PriorityMet(ds, l);
    } else {
      AllTransparent(cs);
      forall i | 0 <= i < |ds|
        ensures ds[i].color == 0
      {
        assert ds[i] in multiset(cs);
      }
      assert |ds| == |multiset(ds)| == |cs|;
      AllTransparent(ds);
    }
  }

  lemma {:induction false} LeastOpaque(cs: seq<Candidate>) returns (k: nat)
    requires exists i :: 0 <= i < |cs| && cs[i].color != 0
    requires DistinctSprites(cs)
    ensures Chosen(cs, k)
  {
    var last := |cs| - 1;
    var front := cs[..last];
    if i :| 0 <= i < |front| && front[i].color != 0 {
      k := LeastOpaque(front);
      if cs[last].color != 0 && Before(cs[last], cs[k]) { k := last; }
    } else {
      k := last;
    }
  }

  /** With distinct X the loop returns the opaque candidate of least X, if there is one. */
  lemma FoldIsLeastX(cs: seq<Candidate>)
    requires cs != [] && DistinctSprites(cs)
    requires forall i, j | 0 <= i < j < |cs| :: cs[i].x != cs[j].x
    ensures Fold(cs) in cs
    ensures if Fold(cs).color == 0 then forall i | 0 <= i < |cs| :: cs[i].color == 0
            else forall i | 0 <= i < |cs| && cs[i].color != 0 && cs[i] != Fold(cs) :: Fold(cs).x < cs[i].x
  {
    if exists i :: 0 <= i < |cs| && cs[i].color != 0 {
      var k := LeastOpaque(cs);
      PriorityMet(cs, k);
      forall i | 0 <= i < |cs| && cs[i].color != 0 && cs[i] != cs[k]
        ensures cs[k].x < cs[i].x
      {
        assert Before(cs[k], cs[i]);
        assert i < k || k < i;
      }
    } else {
      AllTransparent(cs);
    }
  }

  /** The code's departure from the rule, on two sprites: the transparent one wins. */
  lemma RuleBroken()
    ensures var cs := [Candidate(4, 10, 1), Candidate(0, 10, 0)];
            Chosen(cs, 0) && Fold(cs) == cs[1] && Fold(cs).color == 0
  {
    var cs := [Candidate(4, 10, 1), Candidate(0, 10, 0)];
    assert cs[..1] == [cs[0]];
  }
}
