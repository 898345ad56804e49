/** The GrowCut update rule as functions of a snapshot of the strength
    buffer (`s`, one signed value per pixel) and of the affinity buffer
    (`g`, eight weights per pixel). These are the specifications the
    imperative traversals in module Automaton are proved against. */
module GrowCut {
  import opened Grid

  function Abs(r: real): real {
    if r < 0.0 then -r else r
  }

  /** The dimensions and buffer sizes one iteration works on. */
  predicate Shaped(w: int, h: int, s: seq<real>, g: seq<real>) {
    1 <= w && 1 <= h && |s| == w * h && |g| == w * h * 8
  }

  /** The attack of the neighbour in direction i on pixel (x, y): the
      neighbour's strength attenuated by the pixel's affinity towards it. */
  function Attack(w: int, h: int, s: seq<real>, g: seq<real>, x: int, y: int, i: int): real
    requires Shaped(w, h, s, g) && InGrid(w, h, x, y)
    requires 0 <= i < 8 && NeighborInGrid(w, h, x, y, i)
  {
    SlotInRange(w, h, x, y, i);
    IndexInRange(w, h, x + NX8[i], y + NY8[i]);
    g[Slot(w, x, y, i)] * s[Index(w, x + NX8[i], y + NY8[i])]
  }

  /** One comparison of the rule: an attack replaces the current value only
      when it is strictly stronger in absolute value. */
  function Conquer(current: real, attack: real): real {
    if Abs(attack) > Abs(current) then attack else current
  }

  /** The strength of pixel (x, y) once directions 0 .. n-1 have been tried,
      starting from its own previous strength. */
  function CellAfter(w: int, h: int, s: seq<real>, g: seq<real>, x: int, y: int, n: int): real
    requires Shaped(w, h, s, g) && InGrid(w, h, x, y) && 0 <= n <= 8
    decreases n
  {
    if n == 0 then
      IndexInRange(w, h, x, y);
      s[Index(w, x, y)]
    else
      var v := CellAfter(w, h, s, g, x, y, n - 1);
      if NeighborInGrid(w, h, x, y, n - 1) then Conquer(v, Attack(w, h, s, g, x, y, n - 1)) else v
  }

  /** The new strength of pixel (x, y) after one iteration. */
  function CellNext(w: int, h: int, s: seq<real>, g: seq<real>, x: int, y: int): real
    requires Shaped(w, h, s, g) && InGrid(w, h, x, y)
  {
    CellAfter(w, h, s, g, x, y, 8)
  }

  /** The new strength of the pixel at flat index k. */
  function CellAt(w: int, h: int, s: seq<real>, g: seq<real>, k: int): real
    requires Shaped(w, h, s, g) && 0 <= k < w * h
  {
    IndexOfFlat(w, h, k);
    CellNext(w, h, s, g, k % w, k / w)
  }

  /** One synchronous iteration: every pixel is updated from the previous
      buffer only. */
  function Step(w: int, h: int, s: seq<real>, g: seq<real>): (r: seq<real>)
    requires Shaped(w, h, s, g)
    ensures |r| == |s|
  {
    seq(w * h, k requires 0 <= k < w * h => CellAt(w, h, s, g, k))
  }

  lemma StepAt(w: int, h: int, s: seq<real>, g: seq<real>, x: int, y: int)
    requires Shaped(w, h, s, g) && InGrid(w, h, x, y)
    ensures 0 <= Index(w, x, y) < w * h
    ensures Step(w, h, s, g)[Index(w, x, y)] == CellNext(w, h, s, g, x, y)
  {
    IndexInRange(w, h, x, y);
    CoordsOfIndex(w, x, y);
  }

  // ---------------------------------------------------------------------
  // The per-pixel rule: maximum by magnitude, earliest direction on ties.

  /** r is what the rule promises after directions 0 .. n-1: at least as
      strong as the pixel's own value and every attack tried; and either the
      pixel's own value, or the first attack of that strength, strictly
      stronger than the pixel's own value. */
  ghost predicate StrongestAfter(w: int, h: int, s: seq<real>, g: seq<real>, x: int, y: int, n: int, r: real)
    requires Shaped(w, h, s, g) && InGrid(w, h, x, y) && 0 <= n <= 8
  {
    IndexInRange(w, h, x, y);
    var own := s[Index(w, x, y)];
    Abs(own) <= Abs(r) &&
    (forall i :: 0 <= i < n && NeighborInGrid(w, h, x, y, i) ==> Abs(Attack(w, h, s, g, x, y, i)) <= Abs(r)) &&
    (r == own ||
     exists i :: 0 <= i < n && NeighborInGrid(w, h, x, y, i) && r == Attack(w, h, s, g, x, y, i) &&
       Abs(own) < Abs(r) &&
       forall j :: 0 <= j < i && NeighborInGrid(w, h, x, y, j) ==> Abs(Attack(w, h, s, g, x, y, j)) < Abs(r))
  }

  lemma {:induction false} CellAfterStrongest(w: int, h: int, s: seq<real>, g: seq<real>, x: int, y: int, n: int)
    requires Shaped(w, h, s, g) && InGrid(w, h, x, y) && 0 <= n <= 8
    ensures StrongestAfter(w, h, s, g, x, y, n, CellAfter(w, h, s, g, x, y, n))
  {
    IndexInRange(w, h, x, y);
    if n > 0 {
      CellAfterStrongest(w, h, s, g, x, y, n - 1);
      var v := CellAfter(w, h, s, g, x, y, n - 1);
      var r := CellAfter(w, h, s, g, x, y, n);
      var own := s[Index(w, x, y)];
      if NeighborInGrid(w, h, x, y, n - 1) && Abs(Attack(w, h, s, g, x, y, n - 1)) > Abs(v) {
        assert r == Attack(w, h, s, g, x, y, n - 1);
        assert forall j :: 0 <= j < n - 1 && NeighborInGrid(w, h, x, y, j) ==>
          Abs(Attack(w, h, s, g, x, y, j)) < Abs(r);
      } else {
        assert r == v;
        if v != own {
          var i :| 0 <= i < n - 1 && NeighborInGrid(w, h, x, y, i) && v == Attack(w, h, s, g, x, y, i) &&
            Abs(own) < Abs(v) &&
            forall j :: 0 <= j < i && NeighborInGrid(w, h, x, y, j) ==> Abs(Attack(w, h, s, g, x, y, j)) < Abs(v);
          assert 0 <= i < n;
        }
      }
    }
  }

  /** The per-pixel rule of one iteration: the new value is the strongest of
      the pixel's own value and its in-grid neighbours' attacks, the pixel's
      own value or the earliest direction winning ties. */
  lemma CellNextStrongest(w: int, h: int, s: seq<real>, g: seq<real>, x: int, y: int)
    requires Shaped(w, h, s, g) && InGrid(w, h, x, y)
    ensures StrongestAfter(w, h, s, g, x, y, 8, CellNext(w, h, s, g, x, y))
  {
    CellAfterStrongest(w, h, s, g, x, y, 8);
  }

  /** StrongestAfter pins the value down: it is a complete specification of
      the per-pixel rule. */
  lemma StrongestUnique(w: int, h: int, s: seq<real>, g: seq<real>, x: int, y: int, r1: real, r2: real)
    requires Shaped(w, h, s, g) && InGrid(w, h, x, y)
    requires StrongestAfter(w, h, s, g, x, y, 8, r1) && StrongestAfter(w, h, s, g, x, y, 8, r2)
    ensures r1 == r2
  {
    IndexInRange(w, h, x, y);
    var own := s[Index(w, x, y)];
    if r1 != own {
      var i1 :| 0 <= i1 < 8 && NeighborInGrid(w, h, x, y, i1) && r1 == Attack(w, h, s, g, x, y, i1) &&
        Abs(own) < Abs(r1) &&
        forall j :: 0 <= j < i1 && NeighborInGrid(w, h, x, y, j) ==> Abs(Attack(w, h, s, g, x, y, j)) < Abs(r1);
      if r2 != own {
        var i2 :| 0 <= i2 < 8 && NeighborInGrid(w, h, x, y, i2) && r2 == Attack(w, h, s, g, x, y, i2) &&
          Abs(own) < Abs(r2) &&
          forall j :: 0 <= j < i2 && NeighborInGrid(w, h, x, y, j) ==> Abs(Attack(w, h, s, g, x, y, j)) < Abs(r2);
        assert Abs(r1) == Abs(r2);
      }
    }
  }

  /** A pixel's value changes only by growing strictly in magnitude. */
  lemma {:induction false} CellAfterGrows(w: int, h: int, s: seq<real>, g: seq<real>, x: int, y: int, n: int)
    requires Shaped(w, h, s, g) && InGrid(w, h, x, y) && 0 <= n <= 8
    ensures 0 <= Index(w, x, y) < w * h
    ensures var r := CellAfter(w, h, s, g, x, y, n);
      r == s[Index(w, x, y)] || Abs(s[Index(w, x, y)]) < Abs(r)
  {
    IndexInRange(w, h, x, y);
    if n > 0 {
      CellAfterGrows(w, h, s, g, x, y, n - 1);
    }
  }

  /** The convergence test of one pixel: its value is unchanged exactly when
      its magnitude did not grow. */
  lemma CellNextUnchanged(w: int, h: int, s: seq<real>, g: seq<real>, x: int, y: int)
    requires Shaped(w, h, s, g) && InGrid(w, h, x, y)
    ensures 0 <= Index(w, x, y) < w * h
    ensures CellNext(w, h, s, g, x, y) == s[Index(w, x, y)] <==>
            Abs(CellNext(w, h, s, g, x, y)) <= Abs(s[Index(w, x, y)])
    ensures CellNext(w, h, s, g, x, y) == s[Index(w, x, y)] <==>
            forall i :: 0 <= i < 8 && NeighborInGrid(w, h, x, y, i) ==>
              Abs(Attack(w, h, s, g, x, y, i)) <= Abs(s[Index(w, x, y)])
  {
    CellAfterGrows(w, h, s, g, x, y, 8);
    CellNextStrongest(w, h, s, g, x, y);
  }

  // ---------------------------------------------------------------------
  // Bounds and seeds.

  /** Every strength has magnitude at most 1. */
  ghost predicate UnitBounded(s: seq<real>) {
    forall k :: 0 <= k < |s| ==> Abs(s[k]) <= 1.0
  }

  /** Every affinity that the rule reads has magnitude at most 1. */
  ghost predicate AffinitiesBounded(w: int, h: int, g: seq<real>)
    requires 1 <= w && 1 <= h && |g| == w * h * 8
  {
    forall x, y, i {:trigger Slot(w, x, y, i)} :: InGrid(w, h, x, y) && 0 <= i < 8 && NeighborInGrid(w, h, x, y, i) ==>
      (SlotInRange(w, h, x, y, i); Abs(g[Slot(w, x, y, i)]) <= 1.0)
  }

  lemma AbsMul(a: real, b: real)
    ensures Abs(a * b) == Abs(a) * Abs(b)
  {
  }

  lemma AttackBounded(w: int, h: int, s: seq<real>, g: seq<real>, x: int, y: int, i: int)
    requires Shaped(w, h, s, g) && UnitBounded(s) && AffinitiesBounded(w, h, g)
    requires InGrid(w, h, x, y) && 0 <= i < 8 && NeighborInGrid(w, h, x, y, i)
    ensures Abs(Attack(w, h, s, g, x, y, i)) <= 1.0
  {
    SlotInRange(w, h, x, y, i);
    IndexInRange(w, h, x + NX8[i], y + NY8[i]);
    var a, b := g[Slot(w, x, y, i)], s[Index(w, x + NX8[i], y + NY8[i])];
    assert Attack(w, h, s, g, x, y, i) == a * b;
    assert Abs(a) <= 1.0 && Abs(b) <= 1.0;
    AbsMul(a, b);
    UnitProduct(Abs(a), Abs(b));
  }

  lemma UnitProduct(p: real, q: real)
    requires 0.0 <= p <= 1.0 && 0.0 <= q <= 1.0
    ensures p * q <= 1.0
  {
    ProductNonNegative(1.0 - p, q);
    assert (1.0 - p) * q == q - p * q;
  }

  lemma ProductNonNegative(a: real, b: real)
    requires 0.0 <= a && 0.0 <= b
    ensures 0.0 <= a * b
  {
  }

  /** With strengths and affinities of magnitude at most 1, a pixel's new
      strength has magnitude at most 1 too, and a seed of magnitude exactly 1
      keeps its value: no attack can be strictly stronger. */
  lemma CellNextBounded(w: int, h: int, s: seq<real>, g: seq<real>, x: int, y: int)
    requires Shaped(w, h, s, g) && UnitBounded(s) && AffinitiesBounded(w, h, g)
    requires InGrid(w, h, x, y)
    ensures 0 <= Index(w, x, y) < w * h
    ensures Abs(CellNext(w, h, s, g, x, y)) <= 1.0
    ensures Abs(s[Index(w, x, y)]) == 1.0 ==> CellNext(w, h, s, g, x, y) == s[Index(w, x, y)]
  {
    IndexInRange(w, h, x, y);
    CellNextStrongest(w, h, s, g, x, y);
    var r := CellNext(w, h, s, g, x, y);
    var own := s[Index(w, x, y)];
    if r != own {
      var i :| 0 <= i < 8 && NeighborInGrid(w, h, x, y, i) && r == Attack(w, h, s, g, x, y, i) &&
        Abs(own) < Abs(r);
      AttackBounded(w, h, s, g, x, y, i);
    }
  }

  lemma StepBounded(w: int, h: int, s: seq<real>, g: seq<real>)
    requires Shaped(w, h, s, g) && UnitBounded(s) && AffinitiesBounded(w, h, g)
    ensures UnitBounded(Step(w, h, s, g))
    ensures forall k :: 0 <= k < |s| && Abs(s[k]) == 1.0 ==> Step(w, h, s, g)[k] == s[k]
  {
    forall k | 0 <= k < |s|
      ensures Abs(Step(w, h, s, g)[k]) <= 1.0
      ensures Abs(s[k]) == 1.0 ==> Step(w, h, s, g)[k] == s[k]
    {
      IndexOfFlat(w, h, k);
      CellNextBounded(w, h, s, g, k % w, k / w);
    }
  }

  /** No pixel's magnitude ever shrinks in an iteration. */
  lemma StepGrows(w: int, h: int, s: seq<real>, g: seq<real>)
    requires Shaped(w, h, s, g)
    ensures forall k :: 0 <= k < |s| ==> Abs(s[k]) <= Abs(Step(w, h, s, g)[k])
  {
    forall k | 0 <= k < |s|
      ensures Abs(s[k]) <= Abs(Step(w, h, s, g)[k])
    {
      IndexOfFlat(w, h, k);
      CellAfterGrows(w, h, s, g, k % w, k / w, 8);
    }
  }

  // ---------------------------------------------------------------------
  // Affinity slots for out-of-grid directions are never read.

  /** g1 and g2 agree on every slot the rule can read. */
  ghost predicate AgreeOnUsed(w: int, h: int, g1: seq<real>, g2: seq<real>)
    requires 1 <= w && 1 <= h && |g1| == w * h * 8 && |g2| == w * h * 8
  {
    forall x, y, i {:trigger Slot(w, x, y, i)} :: InGrid(w, h, x, y) && 0 <= i < 8 && NeighborInGrid(w, h, x, y, i) ==>
      (SlotInRange(w, h, x, y, i); g1[Slot(w, x, y, i)] == g2[Slot(w, x, y, i)])
  }

  /** g1 and g2 agree on the slots of the in-grid directions of (x, y). */
  ghost predicate AgreeAt(w: int, h: int, g1: seq<real>, g2: seq<real>, x: int, y: int)
    requires 1 <= w && 1 <= h && |g1| == w * h * 8 && |g2| == w * h * 8 && InGrid(w, h, x, y)
  {
    forall i :: 0 <= i < 8 && NeighborInGrid(w, h, x, y, i) ==>
      (SlotInRange(w, h, x, y, i); g1[Slot(w, x, y, i)] == g2[Slot(w, x, y, i)])
  }

  lemma AttackAgrees(w: int, h: int, s: seq<real>, g1: seq<real>, g2: seq<real>, x: int, y: int, i: int)
    requires Shaped(w, h, s, g1) && Shaped(w, h, s, g2)
    requires InGrid(w, h, x, y) && 0 <= i < 8 && NeighborInGrid(w, h, x, y, i)
    requires 0 <= Slot(w, x, y, i) < w * h * 8 && g1[Slot(w, x, y, i)] == g2[Slot(w, x, y, i)]
    ensures Attack(w, h, s, g1, x, y, i) == Attack(w, h, s, g2, x, y, i)
  {
  }

  lemma {:induction false} CellAfterUsesUsedSlots(w: int, h: int, s: seq<real>, g1: seq<real>, g2: seq<real>, x: int, y: int, n: int)
    requires Shaped(w, h, s, g1) && Shaped(w, h, s, g2)
    requires InGrid(w, h, x, y) && AgreeAt(w, h, g1, g2, x, y) && 0 <= n <= 8
    ensures CellAfter(w, h, s, g1, x, y, n) == CellAfter(w, h, s, g2, x, y, n)
  {
    if n > 0 {
      CellAfterUsesUsedSlots(w, h, s, g1, g2, x, y, n - 1);
      var v := CellAfter(w, h, s, g1, x, y, n - 1);
      assert v == CellAfter(w, h, s, g2, x, y, n - 1);
      if NeighborInGrid(w, h, x, y, n - 1) {
        SlotInRange(w, h, x, y, n - 1);
        AttackAgrees(w, h, s, g1, g2, x, y, n - 1);
        var a := Attack(w, h, s, g1, x, y, n - 1);
        assert CellAfter(w, h, s, g1, x, y, n) == Conquer(v, a) == CellAfter(w, h, s, g2, x, y, n);
      } else {
        assert CellAfter(w, h, s, g1, x, y, n) == v == CellAfter(w, h, s, g2, x, y, n);
      }
    }
  }

  /** An iteration reads only the affinity slots of in-grid directions, so
      whatever the other slots hold does not matter. */
  lemma StepUsesUsedSlots(w: int, h: int, s: seq<real>, g1: seq<real>, g2: seq<real>)
    requires Shaped(w, h, s, g1) && Shaped(w, h, s, g2) && AgreeOnUsed(w, h, g1, g2)
    ensures Step(w, h, s, g1) == Step(w, h, s, g2)
  {
    forall k | 0 <= k < w * h
      ensures Step(w, h, s, g1)[k] == Step(w, h, s, g2)[k]
    {
      IndexOfFlat(w, h, k);
      var x, y := k % w, k / w;
      assert AgreeAt(w, h, g1, g2, x, y) by {
        forall i | 0 <= i < 8 && NeighborInGrid(w, h, x, y, i)
          ensures g1[Slot(w, x, y, i)] == g2[Slot(w, x, y, i)]
        {
          SlotInRange(w, h, x, y, i);
        }
      }
      CellAfterUsesUsedSlots(w, h, s, g1, g2, x, y, 8);
    }
  }

  // ---------------------------------------------------------------------
  // Repeated iterations.

  /** The buffer after n iterations. */
  function StepN(w: int, h: int, s: seq<real>, g: seq<real>, n: nat): (r: seq<real>)
    requires Shaped(w, h, s, g)
    ensures |r| == |s|
    decreases n
  {
    if n == 0 then s else Step(w, h, StepN(w, h, s, g, n - 1), g)
  }

  /** A pixel none of whose neighbours has any strength keeps its own:
      an attack `g * 0` is never strictly stronger. */
  lemma {:induction false} CellAfterNoStrength(w: int, h: int, s: seq<real>, g: seq<real>, x: int, y: int, n: int)
    requires Shaped(w, h, s, g) && InGrid(w, h, x, y) && 0 <= n <= 8
    requires forall k :: 0 <= k < |s| ==> s[k] == 0.0
    ensures CellAfter(w, h, s, g, x, y, n) == 0.0
  {
    IndexInRange(w, h, x, y);
    if n > 0 {
      CellAfterNoStrength(w, h, s, g, x, y, n - 1);
      if NeighborInGrid(w, h, x, y, n - 1) {
        IndexInRange(w, h, x + NX8[n - 1], y + NY8[n - 1]);
        assert Attack(w, h, s, g, x, y, n - 1) == 0.0;
      }
    }
  }

  /** Without any seed nothing ever grows: the all-zero buffer is a fixed
      point of the iteration. */
  lemma NoStrengthFixed(w: int, h: int, s: seq<real>, g: seq<real>)
    requires Shaped(w, h, s, g)
    requires forall k :: 0 <= k < |s| ==> s[k] == 0.0
    ensures Step(w, h, s, g) == s
  {
    forall k | 0 <= k < w * h
      ensures Step(w, h, s, g)[k] == s[k]
    {
      IndexOfFlat(w, h, k);
      CellAfterNoStrength(w, h, s, g, k % w, k / w, 8);
    }
  }

  /** Once an iteration changes nothing, no later iteration does. */
  lemma {:induction false} FixedPointStays(w: int, h: int, s: seq<real>, g: seq<real>, n: nat)
    requires Shaped(w, h, s, g) && Step(w, h, s, g) == s
    ensures StepN(w, h, s, g, n) == s
  {
    if n > 0 {
      FixedPointStays(w, h, s, g, n - 1);
    }
  }

  /** Magnitudes stay within 1 along a whole run, and seeds of magnitude 1
      keep their exact value. */
  lemma {:induction false} RunBounded(w: int, h: int, s: seq<real>, g: seq<real>, n: nat)
    requires Shaped(w, h, s, g) && UnitBounded(s) && AffinitiesBounded(w, h, g)
    ensures UnitBounded(StepN(w, h, s, g, n))
    ensures forall k :: 0 <= k < |s| && Abs(s[k]) == 1.0 ==> StepN(w, h, s, g, n)[k] == s[k]
  {
    if n > 0 {
      RunBounded(w, h, s, g, n - 1);
      StepBounded(w, h, StepN(w, h, s, g, n - 1), g);
    }
  }

  lemma {:induction false} StepNUsesUsedSlots(w: int, h: int, s: seq<real>, g1: seq<real>, g2: seq<real>, n: nat)
    requires Shaped(w, h, s, g1) && Shaped(w, h, s, g2) && AgreeOnUsed(w, h, g1, g2)
    ensures StepN(w, h, s, g1, n) == StepN(w, h, s, g2, n)
  {
    if n > 0 {
      StepNUsesUsedSlots(w, h, s, g1, g2, n - 1);
      StepUsesUsedSlots(w, h, StepN(w, h, s, g1, n - 1), g1, g2);
    }
  }
}
