/** Coverage-guided selection of golden inputs: the greedy set cover of
    `scripts/ci/adequacy_receipt.py` over the branch arcs each candidate exercised. */
module CoverageSelection {
  import Sets

  /** One branch arc of the handler module, as coverage.py reports it. */
  datatype Arc = Arc(file: string, start: int, end: int)

  type Arcs = set<Arc>

  /** The arcs measured for candidate `i`. */
  function At(per: seq<Arcs>, i: int): Arcs {
    if 0 <= i < |per| then per[i] else {}
  }

  /** How many arcs candidate `i` would add to those already covered. */
  function Gain(per: seq<Arcs>, covered: Arcs, i: int): nat {
    |At(per, i) - covered|
  }

  predicate Below(i: int, n: nat) { 0 <= i < n }

  /** The candidate indices 0 .. n-1. */
  function Indices(n: nat): set<int> {
    set i {:trigger Below(i, n)} | 0 <= i < n && Below(i, n)
  }

  /** The arcs of the candidates listed in `picks`. */
  ghost function ArcsOf(per: seq<Arcs>, picks: seq<int>): Arcs {
    if picks == [] then {} else At(per, picks[0]) + ArcsOf(per, picks[1..])
  }

  /** All arcs that any candidate reaches. */
  ghost function AllArcs(per: seq<Arcs>): Arcs {
    if per == [] then {} else per[0] + AllArcs(per[1..])
  }

  /** `i` is what one round of the loop picks: the largest positive gain, lowest index on a tie. */
  ghost predicate IsBest(per: seq<Arcs>, covered: Arcs, remaining: set<int>, i: int) {
    && i in remaining
    && Gain(per, covered, i) > 0
    && (forall j | j in remaining :: Gain(per, covered, j) <= Gain(per, covered, i))
    && (forall j | j in remaining && j < i :: Gain(per, covered, j) < Gain(per, covered, i))
  }

  /** What the while loop does from the state (`covered`, `remaining`) to its end. */
  ghost predicate GreedyRun(per: seq<Arcs>, covered: Arcs, remaining: set<int>, picks: seq<int>, final: Arcs)
    decreases |picks|
  {
    if picks == [] then
      final == covered && forall j | j in remaining :: Gain(per, covered, j) == 0
    else
      && IsBest(per, covered, remaining, picks[0])
      && GreedyRun(per, covered + At(per, picks[0]), remaining - {picks[0]}, picks[1..], final)
  }

  /** A run of the whole selection on the measured arcs `per`. */
  ghost predicate SelectionOf(per: seq<Arcs>, picks: seq<int>, covered: Arcs) {
    GreedyRun(per, {}, Indices(|per|), picks, covered)
  }

  /** The rounds done so far, ending in (`covered'`, `remaining'`). */
  ghost predicate Rounds(per: seq<Arcs>, covered: Arcs, remaining: set<int>,
                         picks: seq<int>, covered': Arcs, remaining': set<int>)
    decreases |picks|
  {
    if picks == [] then covered' == covered && remaining' == remaining
    else
      && IsBest(per, covered, remaining, picks[0])
      && Rounds(per, covered + At(per, picks[0]), remaining - {picks[0]}, picks[1..], covered', remaining')
  }

  lemma {:induction false} OneMoreRound(per: seq<Arcs>, c: Arcs, r: set<int>, picks: seq<int>,
                                        c': Arcs, r': set<int>, i: int)
    requires Rounds(per, c, r, picks, c', r') && IsBest(per, c', r', i)
    ensures Rounds(per, c, r, picks + [i], c' + At(per, i), r' - {i})
    decreases |picks|
  {
    if picks == [] {
      assert (picks + [i])[1..] == [];
    } else {
      OneMoreRound(per, c + At(per, picks[0]), r - {picks[0]}, picks[1..], c', r', i);
      assert (picks + [i])[1..] == picks[1..] + [i];
    }
  }

  lemma {:induction false} RoundsEnd(per: seq<Arcs>, c: Arcs, r: set<int>, picks: seq<int>, c': Arcs, r': set<int>)
    requires Rounds(per, c, r, picks, c', r')
    requires forall j | j in r' :: Gain(per, c', j) == 0
    ensures GreedyRun(per, c, r, picks, c')
    decreases |picks|
  {
    if picks != [] {
      RoundsEnd(per, c + At(per, picks[0]), r - {picks[0]}, picks[1..], c', r');
    }
  }

  /** The inner scan's running answer after looking at indices below `idx`. */
  ghost predicate BestBelow(per: seq<Arcs>, covered: Arcs, remaining: set<int>, idx: int, bestIdx: int, bestGain: int) {
    && (if bestIdx < 0 then bestGain == 0
        else bestIdx in remaining && bestIdx < idx && bestGain == Gain(per, covered, bestIdx) && bestGain > 0)
    && forall j | j in remaining && j < idx ::
         Gain(per, covered, j) <= bestGain && (j < bestIdx ==> Gain(per, covered, j) < bestGain)
  }

  /** One round's scan over the remaining indices in ascending order; -1 when nothing gains. */
  method BestCandidate(per: seq<Arcs>, covered: Arcs, remaining: set<int>) returns (bestIdx: int)
    requires remaining <= Indices(|per|)
    ensures bestIdx >= 0 ==> IsBest(per, covered, remaining, bestIdx)
    ensures bestIdx < 0 ==> forall j | j in remaining :: Gain(per, covered, j) == 0
  {
    bestIdx := -1;
    var bestGain := 0;
    for idx := 0 to |per|
      invariant BestBelow(per, covered, remaining, idx, bestIdx, bestGain)
    {
      if idx in remaining {
        var gain := |per[idx] - covered|;
        if gain > bestGain {
          bestIdx, bestGain := idx, gain;
        }
      }
    }
    assert forall j | j in remaining :: Below(j, |per|);
  }

  /** The selection loop. */
  method SelectCovering(per: seq<Arcs>) returns (selected: seq<int>, covered: Arcs)
    ensures SelectionOf(per, selected, covered)
  {
    covered := {};
    selected := [];
    var remaining := Indices(|per|);
    while remaining != {}
      invariant remaining <= Indices(|per|)
      invariant Rounds(per, {}, Indices(|per|), selected, covered, remaining)
    {
      var bestIdx := BestCandidate(per, covered, remaining);
      if bestIdx < 0 {
        break;
      }
      OneMoreRound(per, {}, Indices(|per|), selected, covered, remaining, bestIdx);
      selected := selected + [bestIdx];
      covered := covered + At(per, bestIdx);
      remaining := remaining - {bestIdx};
    }
    RoundsEnd(per, {}, Indices(|per|), selected, covered, remaining);
  }

  // ---------- What is covered, and that every pick earns its place ----------

  lemma {:induction false} AllArcsMember(per: seq<Arcs>, i: int)
    requires 0 <= i < |per|
    ensures per[i] <= AllArcs(per)
  {
    if i > 0 { AllArcsMember(per[1..], i - 1); }
  }

  lemma {:induction false} AllArcsWitness(per: seq<Arcs>, a: Arc) returns (i: int)
    requires a in AllArcs(per)
    ensures 0 <= i < |per| && a in per[i]
  {
    if a in per[0] { i := 0; } else {
      i := AllArcsWitness(per[1..], a);
      i := i + 1;
    }
  }

  lemma {:induction false} ArcsOfMember(per: seq<Arcs>, picks: seq<int>, i: int)
    requires 0 <= i < |picks|
    ensures At(per, picks[i]) <= ArcsOf(per, picks)
  {
    if i > 0 { ArcsOfMember(per, picks[1..], i - 1); }
  }

  lemma {:induction false} ArcsOfWithin(per: seq<Arcs>, picks: seq<int>)
    ensures ArcsOf(per, picks) <= AllArcs(per)
  {
    if picks != [] {
      if 0 <= picks[0] < |per| { AllArcsMember(per, picks[0]); }
      ArcsOfWithin(per, picks[1..]);
    }
  }

  /** The picks are distinct candidates still available. */
  lemma {:induction false} RunPicksDistinct(per: seq<Arcs>, c: Arcs, r: set<int>, picks: seq<int>, final: Arcs)
    requires GreedyRun(per, c, r, picks, final)
    ensures forall i | 0 <= i < |picks| :: picks[i] in r
    ensures forall i, j | 0 <= i < j < |picks| :: picks[i] != picks[j]
    decreases |picks|
  {
    if picks != [] {
      RunPicksDistinct(per, c + At(per, picks[0]), r - {picks[0]}, picks[1..], final);
      assert forall i | 0 < i < |picks| :: picks[i] == picks[1..][i - 1];
    }
  }

  lemma FirstRound(per: seq<Arcs>, c: Arcs, r: set<int>, picks: seq<int>, final: Arcs)
    requires GreedyRun(per, c, r, picks, final) && picks != []
    ensures IsBest(per, c, r, picks[0]) && picks[0] in r
    ensures GreedyRun(per, c + At(per, picks[0]), r - {picks[0]}, picks[1..], final)
  {
  }

  lemma {:induction false} RunCoversPicks(per: seq<Arcs>, c: Arcs, r: set<int>, picks: seq<int>, final: Arcs)
    requires GreedyRun(per, c, r, picks, final)
    ensures final == c + ArcsOf(per, picks)
    decreases |picks|
  {
    if picks != [] {
      RunCoversPicks(per, c + At(per, picks[0]), r - {picks[0]}, picks[1..], final);
    }
  }

  lemma {:induction false} RunCovers(per: seq<Arcs>, c: Arcs, r: set<int>, picks: seq<int>, final: Arcs, j: int)
    requires GreedyRun(per, c, r, picks, final) && j in r
    ensures At(per, j) <= final
    decreases |picks|
  {
    if picks == [] {
      assert Gain(per, c, j) == 0;
      assert forall a | a in At(per, j) :: a in At(per, j) - c || a in c;
    } else if j == picks[0] {
      RunCoversPicks(per, c + At(per, j), r - {j}, picks[1..], final);
    } else {
      RunCovers(per, c + At(per, picks[0]), r - {picks[0]}, picks[1..], final, j);
    }
  }

  /** The arcs of the picks are exactly the arcs any candidate reaches. */
  lemma SelectionCoversEverything(per: seq<Arcs>, picks: seq<int>, covered: Arcs)
    requires SelectionOf(per, picks, covered)
    ensures covered == AllArcs(per)
    ensures covered == ArcsOf(per, picks)
  {
    RunCoversPicks(per, {}, Indices(|per|), picks, covered);
    ArcsOfWithin(per, picks);
    forall a | a in AllArcs(per) ensures a in covered {
      var i := AllArcsWitness(per, a);
      assert Below(i, |per|) && At(per, i) == per[i];
      RunCovers(per, {}, Indices(|per|), picks, covered, i);
    }
  }

  /** The arcs that pick number `k` added, given those picked before it. */
  ghost function GainAt(per: seq<Arcs>, picks: seq<int>, k: int): nat
    requires 0 <= k < |picks|
  {
    Gain(per, ArcsOf(per, picks[..k]), picks[k])
  }

  /** Just before pick `k` no candidate picked later offered more than it. */
  lemma {:induction false} PickIsBest(per: seq<Arcs>, c: Arcs, r: set<int>, picks: seq<int>, final: Arcs, k: int)
    requires GreedyRun(per, c, r, picks, final)
    requires 0 <= k < |picks|
    ensures Gain(per, c + ArcsOf(per, picks[..k]), picks[k]) > 0
    ensures forall j | k < j < |picks| ::
              Gain(per, c + ArcsOf(per, picks[..k]), picks[j]) <= Gain(per, c + ArcsOf(per, picks[..k]), picks[k])
    decreases |picks|
  {
    if k == 0 {
      assert c + ArcsOf(per, picks[..0]) == c;
      RunPicksDistinct(per, c, r, picks, final);
    } else {
      var c' := c + At(per, picks[0]);
      PickIsBest(per, c', r - {picks[0]}, picks[1..], final, k - 1);
      assert forall j | k < j < |picks| :: picks[j] == picks[1..][j - 1];
      assert picks[..k][1..] == picks[1..][..k - 1];
      assert c + ArcsOf(per, picks[..k]) == c' + ArcsOf(per, picks[1..][..k - 1]);
    }
  }

  lemma {:induction false} ArcsOfSnoc(per: seq<Arcs>, picks: seq<int>, i: int)
    ensures ArcsOf(per, picks + [i]) == ArcsOf(per, picks) + At(per, i)
  {
    if picks == [] {
      assert [i][1..] == [];
    } else {
      assert (picks + [i])[1..] == picks[1..] + [i];
      ArcsOfSnoc(per, picks[1..], i);
    }
  }

  /** Every pick adds at least one arc, and a later pick never adds more than the one before it. */
  lemma GainsPositiveAndDecreasing(per: seq<Arcs>, picks: seq<int>, covered: Arcs, k: int)
    requires SelectionOf(per, picks, covered) && 0 <= k < |picks|
    ensures GainAt(per, picks, k) > 0
    ensures k + 1 < |picks| ==> GainAt(per, picks, k + 1) <= GainAt(per, picks, k)
  {
    PickIsBest(per, {}, Indices(|per|), picks, covered, k);
    assert {} + ArcsOf(per, picks[..k]) == ArcsOf(per, picks[..k]);
    if k + 1 < |picks| {
      assert picks[..k + 1] == picks[..k] + [picks[k]];
      ArcsOfSnoc(per, picks[..k], picks[k]);
      var next := At(per, picks[k + 1]);
      Sets.SubsetSize(next - ArcsOf(per, picks[..k + 1]), next - ArcsOf(per, picks[..k]));
    }
  }

  // ---------- The approximation bound ----------

  /** The harmonic number 1 + 1/2 + ... + 1/n. */
  ghost function Harmonic(n: nat): real {
    if n == 0 then 0.0 else Harmonic(n - 1) + 1.0 / n as real
  }

  lemma ReciprocalShrinks(a: real, g: real)
    requires 0.0 < a <= g
    ensures 1.0 / a >= 1.0 / g
  {
    assert (1.0 / g) * g == 1.0;
    assert (1.0 / g) * a <= 1.0;
    assert 1.0 / a * a == 1.0;
  }

  lemma FractionSum(x: real, y: real, g: real)
    requires g > 0.0
    ensures x / g + y / g == (x + y) / g
  {
  }

  /** Shrinking from `a` to `b` elements costs at least (a-b)/g, for any g no smaller than a. */
  lemma {:induction false} HarmonicDrop(a: nat, b: nat, g: nat)
    requires b <= a <= g && g > 0
    ensures Harmonic(a) - Harmonic(b) >= (a - b) as real / g as real
    decreases a - b
  {
    if b < a {
      HarmonicDrop(a - 1, b, g);
      ReciprocalShrinks(a as real, g as real);
      FractionSum((a - 1 - b) as real, 1.0, g as real);
    }
  }

  lemma {:induction false} HarmonicMonotone(a: nat, b: nat)
    requires a <= b
    ensures Harmonic(a) <= Harmonic(b)
    decreases b - a
  {
    if a < b { HarmonicMonotone(a, b - 1); }
  }

  /** The harmonic price of what is still uncovered of each set of a competing cover. */
  ghost function Price(cover: seq<Arcs>, covered: Arcs): real {
    if cover == [] then 0.0 else Harmonic(|cover[0] - covered|) + Price(cover[1..], covered)
  }

  /** The arcs of `added`, counted once for each set of the cover that holds them. */
  ghost function Shares(cover: seq<Arcs>, added: Arcs): nat {
    if cover == [] then 0 else |cover[0] * added| + Shares(cover[1..], added)
  }

  lemma {:induction false} SharesMonotone(cover: seq<Arcs>, a: Arcs, b: Arcs)
    requires a <= b
    ensures Shares(cover, a) <= Shares(cover, b)
  {
    if cover != [] {
      Sets.SubsetSize(cover[0] * a, cover[0] * b);
      SharesMonotone(cover[1..], a, b);
    }
  }

  lemma {:induction false} SharesCover(cover: seq<Arcs>, added: Arcs)
    requires added <= AllArcs(cover)
    ensures |added| <= Shares(cover, added)
  {
    if cover != [] {
      var rest := added - cover[0];
      SharesCover(cover[1..], rest);
      SharesMonotone(cover[1..], rest, added);
      assert added == rest + (cover[0] * added);
    }
  }

  lemma {:induction false} PriceDrop(cover: seq<Arcs>, covered: Arcs, pick: Arcs, g: nat)
    requires g == |pick - covered| && g > 0
    requires forall i | 0 <= i < |cover| :: |cover[i] - covered| <= g
    ensures Price(cover, covered) - Price(cover, covered + pick) >= Shares(cover, pick - covered) as real / g as real
  {
    if cover != [] {
      var added := pick - covered;
      PriceDrop(cover[1..], covered, pick, g);
      var a, b := cover[0] - covered, cover[0] - (covered + pick);
      assert a == b + cover[0] * added;
      HarmonicDrop(|a|, |b|, g);
      FractionSum(|cover[0] * added| as real, Shares(cover[1..], added) as real, g as real);
    }
  }

  lemma {:induction false} PriceNonNegative(cover: seq<Arcs>, covered: Arcs)
    ensures Price(cover, covered) >= 0.0
  {
    if cover != [] {
      HarmonicMonotone(0, |cover[0] - covered|);
      PriceNonNegative(cover[1..], covered);
    }
  }

  lemma AtLeastOne(t: nat, g: nat)
    requires 0 < g <= t
    ensures t as real / g as real >= 1.0
  {
  }

  /** Each pick takes at least one off the price of any cover made of candidates. */
  lemma {:induction false} PicksWithinPrice(per: seq<Arcs>, c: Arcs, r: set<int>, picks: seq<int>, final: Arcs,
                                            rival: seq<int>, cover: seq<Arcs>)
    requires GreedyRun(per, c, r, picks, final)
    requires |cover| == |rival| && forall i | 0 <= i < |rival| :: cover[i] == At(per, rival[i])
    requires forall j | j in r :: At(per, j) <= AllArcs(cover)
    requires forall i | 0 <= i < |rival| :: rival[i] in r || At(per, rival[i]) <= c
    ensures |picks| as real <= Price(cover, c)
    decreases |picks|
  {
    if picks == [] {
      PriceNonNegative(cover, c);
    } else {
      var pick, g := At(per, picks[0]), Gain(per, c, picks[0]);
      PicksWithinPrice(per, c + pick, r - {picks[0]}, picks[1..], final, rival, cover);
      forall i | 0 <= i < |cover| ensures |cover[i] - c| <= g {
        if rival[i] in r {
          assert Gain(per, c, rival[i]) <= g;
        } else {
          assert cover[i] - c == {};
        }
      }
      PriceDrop(cover, c, pick, g);
      SharesCover(cover, pick - c);
      AtLeastOne(Shares(cover, pick - c), g);
    }
  }

  lemma {:induction false} PriceAtMost(cover: seq<Arcs>, d: nat, k: nat)
    requires |cover| == k
    requires forall i | 0 <= i < |cover| :: |cover[i]| <= d
    ensures Price(cover, {}) <= k as real * Harmonic(d)
  {
    if cover != [] {
      PriceAtMost(cover[1..], d, k - 1);
      assert cover[0] - {} == cover[0];
      HarmonicMonotone(|cover[0]|, d);
      assert k as real * Harmonic(d) == (k - 1) as real * Harmonic(d) + Harmonic(d);
    }
  }

  lemma {:induction false} AllArcsOfList(per: seq<Arcs>, rival: seq<int>, cover: seq<Arcs>)
    requires |cover| == |rival| && forall i | 0 <= i < |rival| :: cover[i] == At(per, rival[i])
    ensures AllArcs(cover) == ArcsOf(per, rival)
  {
    if rival != [] { AllArcsOfList(per, rival[1..], cover[1..]); }
  }

  /** `rival` lists candidates that together reach every arc. */
  ghost predicate Reaches(per: seq<Arcs>, rival: seq<int>) {
    && (forall i | 0 <= i < |rival| :: 0 <= rival[i] < |per|)
    && ArcsOf(per, rival) == AllArcs(per)
  }

  lemma RivalIsCover(per: seq<Arcs>, rival: seq<int>) returns (cover: seq<Arcs>)
    requires Reaches(per, rival)
    ensures |cover| == |rival| && forall i | 0 <= i < |rival| :: cover[i] == At(per, rival[i])
    ensures forall j | j in Indices(|per|) :: At(per, j) <= AllArcs(cover)
    ensures forall i | 0 <= i < |rival| :: rival[i] in Indices(|per|)
  {
    cover := seq(|rival|, i requires 0 <= i < |rival| => At(per, rival[i]));
    AllArcsOfList(per, rival, cover);
    forall j | j in Indices(|per|) ensures At(per, j) <= AllArcs(cover) {
      AllArcsMember(per, j);
    }
    assert forall i | 0 <= i < |rival| :: Below(rival[i], |per|);
  }

  /** Any k candidates that reach every arc, none with more than `d` arcs, bound the number of picks by k * H(d). */
  lemma HarmonicBound(per: seq<Arcs>, picks: seq<int>, covered: Arcs, rival: seq<int>, d: nat)
    requires SelectionOf(per, picks, covered)
    requires Reaches(per, rival)
    requires forall i | 0 <= i < |rival| :: |At(per, rival[i])| <= d
    ensures |picks| as real <= |rival| as real * Harmonic(d)
  {
    hide AllArcs, ArcsOf, IsBest, Price, Harmonic;
    var cover := RivalIsCover(per, rival);
    assert |picks| as real <= Price(cover, {}) by {
      PicksWithinPrice(per, {}, Indices(|per|), picks, covered, rival, cover);
    }
    PriceAtMost(cover, d, |rival|);
  }

  /** The same bound in terms of the number of arcs reached at all. */
  lemma HarmonicBoundByArcs(per: seq<Arcs>, picks: seq<int>, covered: Arcs, rival: seq<int>)
    requires SelectionOf(per, picks, covered)
    requires Reaches(per, rival)
    ensures |picks| as real <= |rival| as real * Harmonic(|AllArcs(per)|)
  {
    hide GreedyRun, AllArcs, ArcsOf, Harmonic;
    forall i | 0 <= i < |rival| ensures |At(per, rival[i])| <= |AllArcs(per)| {
      AllArcsMember(per, rival[i]);
      Sets.SubsetSize(At(per, rival[i]), AllArcs(per));
    }
    HarmonicBound(per, picks, covered, rival, |AllArcs(per)|);
  }

  function Power2(m: nat): nat { if m == 0 then 1 else 2 * Power2(m - 1) }

  lemma {:induction false} HarmonicGrowth(a: nat, b: nat)
    requires 1 <= b <= a
    ensures Harmonic(a) - Harmonic(b) <= (a - b) as real / b as real
    decreases a - b
  {
    if b < a {
      HarmonicGrowth(a - 1, b);
      ReciprocalShrinks(b as real, a as real);
      assert (a - b) as real / b as real == (a - 1 - b) as real / b as real + 1.0 / b as real;
    }
  }

  lemma {:induction false} HarmonicIsLogarithmic(m: nat)
    ensures Power2(m) >= 1 && Harmonic(Power2(m)) <= (m + 1) as real
  {
    if m == 0 {
      assert Harmonic(1) == Harmonic(0) + 1.0 / 1 as real;
    } else {
      HarmonicIsLogarithmic(m - 1);
      var half := Power2(m - 1);
      HarmonicGrowth(2 * half, half);
      assert (2 * half - half) as real / half as real == 1.0;
    }
  }

  /** So against any k candidates that reach everything, none with more than 2 to the m arcs, at most k * (m + 1) are
      picked. */
  lemma LogarithmicBound(per: seq<Arcs>, picks: seq<int>, covered: Arcs, rival: seq<int>, m: nat)
    requires SelectionOf(per, picks, covered) && Reaches(per, rival)
    requires forall i | 0 <= i < |rival| :: |At(per, rival[i])| <= Power2(m)
    ensures |picks| <= |rival| * (m + 1)
  {
    hide *;
    HarmonicIsLogarithmic(m);
    HarmonicBound(per, picks, covered, rival, Power2(m));
    Scaled(|rival|, Harmonic(Power2(m)), (m + 1) as real);
    WholeProduct(|rival|, m + 1);
  }

  lemma Scaled(k: nat, x: real, y: real)
    requires x <= y
    ensures k as real * x <= k as real * y
  {
  }

  lemma {:induction false} WholeProduct(k: nat, n: nat)
    ensures k as real * n as real == (k * n) as real
  {
    if k > 0 {
      WholeProduct(k - 1, n);
      assert k * n == (k - 1) * n + n;
      assert k as real * n as real == (k - 1) as real * n as real + n as real;
    }
  }

  // ---------- "Minimal": where the docstring holds and where it does not ----------

  lemma {:induction false} EqualSizeSubset(a: Arcs, b: Arcs)
    requires a <= b && |b| <= |a|
    ensures a == b
  {
    if x :| x in b && x !in a {
      Sets.SubsetSize(a, b - {x});
    }
  }

  /** A selection of at most two candidates is a smallest one. */
  lemma MinimalUpToTwo(per: seq<Arcs>, picks: seq<int>, covered: Arcs, rival: seq<int>)
    requires SelectionOf(per, picks, covered) && |picks| <= 2
    requires Reaches(per, rival)
    ensures |picks| <= |rival|
  {
    HarmonicBoundByArcs(per, picks, covered, rival);
    if |picks| == 2 && |rival| == 1 {
      GainsPositiveAndDecreasing(per, picks, covered, 1);
      var only, first := rival[0], picks[0];
      assert rival == [only] && rival[1..] == [];
      assert ArcsOf(per, rival[1..]) == {};
      assert At(per, only) == AllArcs(per);
      assert only in Indices(|per|);
      assert Gain(per, {}, only) <= Gain(per, {}, first);
      assert At(per, only) - {} == At(per, only) && At(per, first) - {} == At(per, first);
      ArcsOfWithin(per, picks);
      ArcsOfMember(per, picks, 0);
      ArcsOfMember(per, picks, 1);
      EqualSizeSubset(At(per, first), AllArcs(per));
    }
  }

  // Nested or disjoint arc sets: then the selection is always a smallest one.

  /** Any two candidates reach disjoint sets of arcs, or one reaches all that the other does. */
  predicate Laminar(per: seq<Arcs>) {
    forall i, j | 0 <= i < |per| && 0 <= j < |per| :: per[i] <= per[j] || per[j] <= per[i] || per[i] !! per[j]
  }

  /** Every remaining candidate is covered or untouched. */
  ghost predicate Untouched(per: seq<Arcs>, c: Arcs, r: set<int>) {
    forall j | j in r :: 0 <= j < |per| && (per[j] <= c || per[j] !! c)
  }

  /** What is picked contains whatever remaining candidate it meets. */
  lemma PickIsMaximal(per: seq<Arcs>, c: Arcs, r: set<int>, p: int, j: int)
    requires Laminar(per) && Untouched(per, c, r) && IsBest(per, c, r, p) && j in r
    ensures per[j] <= c + per[p] || per[j] !! c + per[p]
    ensures !(per[j] <= c) && !(per[j] !! per[p]) ==> per[j] <= per[p]
  {
    assert At(per, p) - c != {};
    assert per[p] !! c && per[p] - c == per[p];
    if !(per[j] <= c) {
      assert per[j] - c == per[j];
      assert Gain(per, c, j) <= Gain(per, c, p);
      if per[p] <= per[j] { EqualSizeSubset(per[p], per[j]); }
    }
  }

  function Dropped(rival: seq<int>, t: nat): seq<int>
    requires t < |rival|
  {
    rival[..t] + rival[t + 1..]
  }

  lemma {:induction false} ArcsOfAppend(per: seq<Arcs>, a: seq<int>, b: seq<int>)
    ensures ArcsOf(per, a + b) == ArcsOf(per, a) + ArcsOf(per, b)
  {
    if a == [] {
      assert a + b == b;
    } else {
      assert (a + b)[1..] == a[1..] + b;
      ArcsOfAppend(per, a[1..], b);
    }
  }

  lemma ArcsOfDropped(per: seq<Arcs>, rival: seq<int>, t: nat)
    requires t < |rival|
    ensures ArcsOf(per, rival) == ArcsOf(per, Dropped(rival, t)) + At(per, rival[t])
  {
    ArcsOfAppend(per, rival[..t], rival[t + 1..]);
    ArcsOfAppend(per, rival[..t], rival[t..]);
    assert rival == rival[..t] + rival[t..] && rival[t..][1..] == rival[t + 1..];
  }

  lemma {:induction false} ArcsOfWitness(per: seq<Arcs>, picks: seq<int>, a: Arc) returns (t: nat)
    requires a in ArcsOf(per, picks)
    ensures t < |picks| && a in At(per, picks[t])
  {
    if a in At(per, picks[0]) {
      t := 0;
    } else {
      t := ArcsOfWitness(per, picks[1..], a);
      t := t + 1;
    }
  }

  /** The rival covers what is left, with candidates that are still there or no longer needed. */
  ghost predicate StillCovers(per: seq<Arcs>, c: Arcs, r: set<int>, rival: seq<int>) {
    && (forall j | j in r :: At(per, j) <= c + ArcsOf(per, rival))
    && forall t | 0 <= t < |rival| :: rival[t] in r || At(per, rival[t]) <= c
  }

  lemma UntouchedAfter(per: seq<Arcs>, c: Arcs, r: set<int>, p: int)
    requires Laminar(per) && Untouched(per, c, r) && IsBest(per, c, r, p)
    ensures Untouched(per, c + At(per, p), r - {p})
  {
    hide IsBest, Gain, Laminar;
    forall j | j in r { PickIsMaximal(per, c, r, p, j); }
  }

  /** The rival candidate that reaches some arc of the pick reaches nothing else that is left. */
  lemma ChargedRival(per: seq<Arcs>, c: Arcs, r: set<int>, p: int, rival: seq<int>) returns (t: nat)
    requires Laminar(per) && Untouched(per, c, r) && IsBest(per, c, r, p) && StillCovers(per, c, r, rival)
    ensures t < |rival| && At(per, rival[t]) <= At(per, p)
  {
    var a :| a in At(per, p) - c;
    t := ArcsOfWitness(per, rival, a);
    PickIsMaximal(per, c, r, p, rival[t]);
  }

  /** A round is charged to one rival candidate, and the others cover what is then left. */
  lemma ChargeRound(per: seq<Arcs>, c: Arcs, r: set<int>, p: int, rival: seq<int>) returns (rest: seq<int>)
    requires Laminar(per) && Untouched(per, c, r) && IsBest(per, c, r, p) && StillCovers(per, c, r, rival)
    ensures Untouched(per, c + At(per, p), r - {p}) && StillCovers(per, c + At(per, p), r - {p}, rest)
    ensures |rest| == |rival| - 1
  {
    var t := ChargedRival(per, c, r, p, rival);
    UntouchedAfter(per, c, r, p);
    rest := Dropped(rival, t);
    hide IsBest, Laminar, Untouched;
    OthersStillCover(per, c, r, p, rival, t);
  }

  lemma OthersStillCover(per: seq<Arcs>, c: Arcs, r: set<int>, p: int, rival: seq<int>, t: nat)
    requires StillCovers(per, c, r, rival) && t < |rival| && At(per, rival[t]) <= At(per, p)
    ensures StillCovers(per, c + At(per, p), r - {p}, Dropped(rival, t))
  {
    ArcsOfDropped(per, rival, t);
    hide ArcsOf, At;
    var rest := Dropped(rival, t);
    forall i | 0 <= i < |rest| ensures rest[i] in r - {p} || At(per, rest[i]) <= c + At(per, p) {
      assert rest[i] == rival[if i < t then i else i + 1];
    }
  }

  /** Each round can be charged to a candidate of its own among those of any rival. */
  lemma {:induction false} LaminarRun(per: seq<Arcs>, c: Arcs, r: set<int>, picks: seq<int>, final: Arcs,
                                      rival: seq<int>)
    requires Laminar(per) && GreedyRun(per, c, r, picks, final) && Untouched(per, c, r)
    requires StillCovers(per, c, r, rival)
    ensures |picks| <= |rival|
    decreases |picks|
  {
    if picks != [] {
      FirstRound(per, c, r, picks, final);
      hide GreedyRun, IsBest, StillCovers, Untouched, Laminar, At;
      var rest := ChargeRound(per, c, r, picks[0], rival);
      LaminarRun(per, c + At(per, picks[0]), r - {picks[0]}, picks[1..], final, rest);
    }
  }

  /** If any two candidates are nested or disjoint - in particular if all are disjoint, or none reaches more than one
      arc - the selection is a smallest covering one. */
  lemma MinimalIfLaminar(per: seq<Arcs>, picks: seq<int>, covered: Arcs, rival: seq<int>)
    requires SelectionOf(per, picks, covered) && Laminar(per)
    requires Reaches(per, rival)
    ensures |picks| <= |rival|
  {
    forall j | j in Indices(|per|) ensures At(per, j) <= {} + ArcsOf(per, rival) { AllArcsMember(per, j); }
    assert forall t | 0 <= t < |rival| :: Below(rival[t], |per|);
    hide GreedyRun, ArcsOf;
    LaminarRun(per, {}, Indices(|per|), picks, covered, rival);
  }

  function Line(n: int): Arc { Arc("handler.py", n, n + 1) }

  /** The first candidate straddles the other two, and the tie-break takes it first. */
  function Straddle(): seq<Arcs> {
    [{Line(2), Line(3)}, {Line(1), Line(2)}, {Line(3), Line(4)}]
  }

  /** The arcs covered before round `i`. */
  ghost function StraddleCovered(i: nat): Arcs {
    if i == 0 then {} else if i == 1 then {Line(2), Line(3)}
    else if i == 2 then {Line(1), Line(2), Line(3)} else {Line(1), Line(2), Line(3), Line(4)}
  }

  /** What each candidate still offers before round `i`. */
  lemma StraddleGains(i: nat)
    requires i < 3
    ensures Gain(Straddle(), StraddleCovered(i), i) == if i == 0 then 2 else 1
    ensures forall j | i <= j < 3 :: Gain(Straddle(), StraddleCovered(i), j) == if i == 0 then 2 else 1
  {
    var per, c := Straddle(), StraddleCovered(i);
    if i == 0 {
      assert forall j | 0 <= j < 3 :: At(per, j) - c == per[j] && |per[j]| == 2;
    } else {
      assert i == 1 ==> At(per, 1) - c == {Line(1)};
      assert At(per, 2) - c == {Line(4)};
    }
  }

  lemma StraddlePick(i: nat, r: set<int>)
    requires i < 3
    requires forall j :: j in r <==> i <= j < 3
    ensures IsBest(Straddle(), StraddleCovered(i), r, i)
  {
    var per, c := Straddle(), StraddleCovered(i);
    hide Line, At;
    StraddleGains(i);
    assert forall j | j in r :: j in {0, 1, 2};
  }

  lemma StraddleRound(i: nat, r: set<int>, rest: seq<int>)
    requires i < 3
    requires forall j :: j in r <==> i <= j < 3
    requires GreedyRun(Straddle(), StraddleCovered(i + 1), r - {i}, rest, StraddleCovered(3))
    ensures GreedyRun(Straddle(), StraddleCovered(i), r, [i] + rest, StraddleCovered(3))
  {
    hide GreedyRun, IsBest, Gain;
    StraddlePick(i, r);
    assert StraddleCovered(i) + At(Straddle(), i) == StraddleCovered(i + 1);
    PrependRound(Straddle(), StraddleCovered(i), r, i, rest, StraddleCovered(3));
  }

  lemma PrependRound(per: seq<Arcs>, c: Arcs, r: set<int>, i: int, rest: seq<int>, final: Arcs)
    requires IsBest(per, c, r, i) && GreedyRun(per, c + At(per, i), r - {i}, rest, final)
    ensures GreedyRun(per, c, r, [i] + rest, final)
  {
    assert ([i] + rest)[1..] == rest;
  }

  lemma StraddleRun()
    ensures SelectionOf(Straddle(), [0, 1, 2], StraddleCovered(3))
  {
    var end: set<int> := {};
    NothingLeft(Straddle(), StraddleCovered(3));
    IndicesOfThree();
    hide GreedyRun, StraddleCovered, Indices;
    StraddleRounds(end);
  }

  lemma NothingLeft(per: seq<Arcs>, c: Arcs)
    ensures GreedyRun(per, c, {}, [], c)
  {
  }

  lemma IndicesOfThree()
    ensures Indices(3) == {0, 1, 2}
  {
    assert Below(0, 3) && Below(1, 3) && Below(2, 3);
  }

  lemma StraddleRounds(end: set<int>)
    requires end == {} && GreedyRun(Straddle(), StraddleCovered(3), end, [], StraddleCovered(3))
    ensures GreedyRun(Straddle(), {}, {0, 1, 2}, [0, 1, 2], StraddleCovered(3))
  {
    hide GreedyRun, Straddle;
    assert {2} - {2} == end && {1, 2} - {1} == {2} && {0, 1, 2} - {0} == {1, 2};
    StraddleRound(2, {2}, []);
    assert [2] + [] == [2];
    StraddleRound(1, {1, 2}, [2]);
    assert [1] + [2] == [1, 2];
    StraddleRound(0, {0, 1, 2}, [1, 2]);
    assert [0] + [1, 2] == [0, 1, 2];
  }

  lemma StraddleRival()
    ensures Reaches(Straddle(), [1, 2])
  {
    var per := Straddle();
    hide Line;
    assert [1, 2][1..] == [2] && [2][1..] == [];
    assert ArcsOf(per, [1, 2]) == per[1] + (per[2] + {});
    assert per[1..] == [per[1], per[2]] && per[1..][1..] == [per[2]] && per[1..][1..][1..] == [];
    assert AllArcs(per) == per[0] + (per[1] + (per[2] + {}));
  }

  /** Three picks where two candidates suffice: the candidate taken first ends up redundant. */
  lemma NotAlwaysMinimal()
    ensures exists per, picks, covered, rival ::
              SelectionOf(per, picks, covered) && Reaches(per, rival) && |picks| == 3 && |rival| == 2
  {
    StraddleRun();
    StraddleRival();
    hide SelectionOf, Reaches, Straddle, StraddleCovered;
    assert SelectionOf(Straddle(), [0, 1, 2], StraddleCovered(3)) && Reaches(Straddle(), [1, 2]);
  }

  // ---------- Re-selection ----------

  /** Among the candidates still to be re-picked, the next one in line is the best again. */
  lemma SameGains(per: seq<Arcs>, c: Arcs, r: set<int>, picks: seq<int>, sub: seq<Arcs>, k: nat)
    requires picks != [] && IsBest(per, c, r, picks[0])
    requires |sub| == k + |picks|
    requires forall i | 0 <= i < |picks| :: picks[i] in r && sub[k + i] == At(per, picks[i])
    ensures IsBest(sub, c, Indices(|sub|) - Indices(k), k)
  {
    var rest := Indices(|sub|) - Indices(k);
    assert Below(k, |sub|);
    assert sub[k + 0] == At(per, picks[0]);
    forall j | j in rest ensures Gain(sub, c, j) <= Gain(sub, c, k) && j >= k {
      assert !Below(j, k);
      assert picks[j - k] in r && sub[k + (j - k)] == At(per, picks[j - k]);
      assert Gain(per, c, picks[j - k]) <= Gain(per, c, picks[0]);
    }
  }

  lemma NothingToReselect(sub: seq<Arcs>, c: Arcs, k: nat)
    requires |sub| == k
    ensures GreedyRun(sub, c, Indices(|sub|) - Indices(k), [], c)
  {
  }

  /** Candidates `k`, `k + 1`, ... of `sub` are the picks, and `order` lists their numbers. */
  ghost predicate Lists(per: seq<Arcs>, picks: seq<int>, sub: seq<Arcs>, k: nat, order: seq<int>) {
    && |order| == |picks| && |sub| == k + |picks|
    && forall i | 0 <= i < |picks| :: order[i] == k + i && sub[k + i] == At(per, picks[i])
  }

  lemma ListsTail(per: seq<Arcs>, picks: seq<int>, sub: seq<Arcs>, k: nat, order: seq<int>)
    requires Lists(per, picks, sub, k, order) && picks != []
    ensures order != [] && order == [k] + order[1..] && At(sub, k) == At(per, picks[0])
    ensures Lists(per, picks[1..], sub, k + 1, order[1..])
  {
    assert sub[k + 0] == At(per, picks[0]) && order[0] == k;
    forall i | 0 <= i < |picks[1..]| ensures order[1..][i] == k + 1 + i && sub[k + 1 + i] == At(per, picks[1..][i]) {
      assert picks[1..][i] == picks[i + 1] && order[1..][i] == order[i + 1]
          && sub[k + (i + 1)] == At(per, picks[i + 1]);
    }
  }

  /** One round of the re-selection, given the rest of it. */
  lemma ReselectRound(per: seq<Arcs>, c: Arcs, r: set<int>, picks: seq<int>, final: Arcs, sub: seq<Arcs>, k: nat,
                      order: seq<int>)
    requires picks != [] && IsBest(per, c, r, picks[0]) && Lists(per, picks, sub, k, order)
    requires forall i | 0 <= i < |picks| :: picks[i] in r
    requires order != [] && GreedyRun(sub, c + At(per, picks[0]), Indices(|sub|) - Indices(k + 1), order[1..], final)
    ensures GreedyRun(sub, c, Indices(|sub|) - Indices(k), order, final)
  {
    SameGains(per, c, r, picks, sub, k);
    ListsTail(per, picks, sub, k, order);
    DropIndex(|sub|, k);
    hide GreedyRun, IsBest, Gain, Indices, At, Lists;
    PrependRound(sub, c, Indices(|sub|) - Indices(k), k, order[1..], final);
  }

  lemma DropIndex(n: nat, k: nat)
    requires k < n
    ensures Indices(n) - Indices(k) - {k} == Indices(n) - Indices(k + 1)
  {
    forall i: int ensures i in Indices(n) - Indices(k) - {k} <==> i in Indices(n) - Indices(k + 1) {
      assert (Below(i, n) <==> 0 <= i < n) && (Below(i, k) <==> 0 <= i < k) && (Below(i, k + 1) <==> 0 <= i < k + 1);
    }
  }

  lemma {:induction false} ReselectFrom(per: seq<Arcs>, c: Arcs, r: set<int>, picks: seq<int>, final: Arcs,
                                        sub: seq<Arcs>, k: nat, order: seq<int>)
    requires GreedyRun(per, c, r, picks, final) && Lists(per, picks, sub, k, order)
    ensures GreedyRun(sub, c, Indices(|sub|) - Indices(k), order, final)
    decreases |picks|
  {
    if picks == [] {
      assert order == [] && |sub| == k;
      NothingToReselect(sub, c, k);
    } else {
      FirstRound(per, c, r, picks, final);
      RunPicksDistinct(per, c, r, picks, final);
      ListsTail(per, picks, sub, k, order);
      hide GreedyRun, IsBest, Indices, Lists, At;
      ReselectFrom(per, c + At(per, picks[0]), r - {picks[0]}, picks[1..], final, sub, k + 1, order[1..]);
      ReselectRound(per, c, r, picks, final, sub, k, order);
    }
  }

  /** The tie-break leaves one possible run. */
  lemma {:induction false} RunIsDeterministic(per: seq<Arcs>, c: Arcs, r: set<int>, picks: seq<int>, final: Arcs,
                                              picks': seq<int>, final': Arcs)
    requires GreedyRun(per, c, r, picks, final) && GreedyRun(per, c, r, picks', final')
    ensures picks == picks' && final == final'
    decreases |picks|
  {
    if picks != [] && picks' != [] {
      assert Gain(per, c, picks[0]) == Gain(per, c, picks'[0]);
      assert picks[0] == picks'[0];
      RunIsDeterministic(per, c + At(per, picks[0]), r - {picks[0]}, picks[1..], final, picks'[1..], final');
      assert picks == [picks[0]] + picks[1..] && picks' == [picks'[0]] + picks'[1..];
    }
  }

  /** Selection is a fixpoint: run on its own result it returns all of it, in the same order, with the same arcs. */
  lemma ReselectionIsFixpoint(per: seq<Arcs>, picks: seq<int>, covered: Arcs,
                              sub: seq<Arcs>, again: seq<int>, covered': Arcs)
    requires SelectionOf(per, picks, covered)
    requires |sub| == |picks| && forall i | 0 <= i < |picks| :: sub[i] == At(per, picks[i])
    requires SelectionOf(sub, again, covered')
    ensures |again| == |picks| && forall i | 0 <= i < |again| :: again[i] == i
    ensures covered' == covered
  {
    var order := seq(|picks|, i requires 0 <= i < |picks| => i);
    ReselectFrom(per, {}, Indices(|per|), picks, covered, sub, 0, order);
    assert Indices(|sub|) - Indices(0) == Indices(|sub|);
    RunIsDeterministic(sub, {}, Indices(|sub|), order, covered, again, covered');
  }

  // ---------- The receipt built from a selection ----------

  datatype Receipt = Receipt(candidateCount: nat, selectedHashes: seq<string>, selectedCount: nat,
                             pct: real, target: real, meetsTarget: bool, hasWaiver: bool)

  /** The bounds on the percentages, and the model validator's cross-field checks. */
  predicate Check(r: Receipt) {
    && 0.0 <= r.pct <= 100.0 && 0.0 <= r.target <= 100.0
    && r.selectedCount <= r.candidateCount
    && r.selectedCount == |r.selectedHashes|
    && r.meetsTarget == (r.pct >= r.target)
    && !(r.meetsTarget && r.hasWaiver)
    && !(!r.meetsTarget && !r.hasWaiver)
    && !(r.meetsTarget && r.selectedCount == 0)
  }

  /** The receipt filled in from a selection; `pct` is coverage.py's answer for the chosen inputs. */
  function BuildReceipt(hashes: seq<string>, picks: seq<int>, pct: real, target: real): Receipt
    requires forall i | 0 <= i < |picks| :: 0 <= picks[i] < |hashes|
  {
    var meets := pct >= target;
    Receipt(|hashes|, seq(|picks|, i requires 0 <= i < |picks| => hashes[picks[i]]),
            |picks|, pct, target, meets, !meets)
  }

  lemma {:induction false} DistinctFit(picks: seq<int>, r: set<int>)
    requires forall i | 0 <= i < |picks| :: picks[i] in r
    requires forall i, j | 0 <= i < j < |picks| :: picks[i] != picks[j]
    ensures |picks| <= |r|
    decreases |picks|
  {
    if picks != [] {
      assert forall i | 0 < i < |picks| :: picks[i] == picks[1..][i - 1];
      DistinctFit(picks[1..], r - {picks[0]});
    }
  }

  lemma {:induction false} IndicesSize(n: nat)
    ensures |Indices(n)| == n
  {
    if n == 0 {
      assert Indices(0) == {};
    } else {
      IndicesSize(n - 1);
      assert Below(n - 1, n) && forall i :: Below(i, n) <==> Below(i, n - 1) || i == n - 1;
      assert Indices(n) == Indices(n - 1) + {n - 1};
    }
  }

  /** Building the receipt succeeds exactly when the percentages are in bounds and the target does not count as met
      although no candidate reached a single arc. */
  lemma ReceiptAccepted(per: seq<Arcs>, picks: seq<int>, covered: Arcs, hashes: seq<string>, pct: real, target: real)
    requires SelectionOf(per, picks, covered) && |hashes| == |per|
    ensures forall i | 0 <= i < |picks| :: 0 <= picks[i] < |hashes|
    ensures Check(BuildReceipt(hashes, picks, pct, target))
       <==> && 0.0 <= pct <= 100.0 && 0.0 <= target <= 100.0
            && !(pct >= target && forall i | 0 <= i < |per| :: per[i] == {})
  {
    SelectionCoversEverything(per, picks, covered);
    hide GreedyRun, ArcsOf;
    RunPicksDistinct(per, {}, Indices(|per|), picks, covered);
    DistinctFit(picks, Indices(|per|));
    IndicesSize(|per|);
    if picks == [] {
      forall i | 0 <= i < |per| ensures per[i] == {} {
        AllArcsMember(per, i);
      }
    } else {
      var p := picks[0];
      assert Gain(per, {}, p) > 0;
      assert At(per, p) != {};
    }
  }

  /** Distinct candidates, at least one if the target counts as met. */
  ghost predicate PlausiblePicks(picks: seq<int>, candidates: nat, meets: bool) {
    && (forall i | 0 <= i < |picks| :: 0 <= picks[i] < candidates)
    && (forall i, j | 0 <= i < j < |picks| :: picks[i] != picks[j])
    && (meets ==> picks != [])
  }

  ghost predicate BuiltFrom(r: Receipt, hashes: seq<string>, picks: seq<int>) {
    && PlausiblePicks(picks, |hashes|, r.meetsTarget)
    && r == BuildReceipt(hashes, picks, r.pct, r.target)
  }

  /** The receipts that pass are exactly those that building can give: with percentages in bounds, for some candidates
      and some distinct picks among them. */
  lemma PassingAreBuildable(r: Receipt)
    ensures Check(r)
       <==> 0.0 <= r.pct <= 100.0 && 0.0 <= r.target <= 100.0 && exists hashes, picks :: BuiltFrom(r, hashes, picks)
  {
    if Check(r) {
      var n := |r.selectedHashes|;
      var hashes := r.selectedHashes + seq(r.candidateCount - n, i => "");
      var picks := seq(n, i requires 0 <= i < n => i);
      assert BuildReceipt(hashes, picks, r.pct, r.target).selectedHashes == r.selectedHashes;
      assert BuiltFrom(r, hashes, picks);
    }
    if hashes, picks :| BuiltFrom(r, hashes, picks) {
      forall i | 0 <= i < |picks| ensures picks[i] in Indices(|hashes|) { assert Below(picks[i], |hashes|); }
      DistinctFit(picks, Indices(|hashes|));
      IndicesSize(|hashes|);
    }
  }

  /** The receipt lists the hash of each pick, in pick order, and counts all candidates; and with `traced` giving the
      arcs of the input behind a hash, the listed inputs reach every arc that any candidate reaches. */
  lemma ReceiptListsPicks(per: seq<Arcs>, picks: seq<int>, covered: Arcs, hashes: seq<string>, pct: real, target: real,
                          traced: string -> Arcs)
    requires SelectionOf(per, picks, covered) && |hashes| == |per|
    requires forall i | 0 <= i < |per| :: traced(hashes[i]) == per[i]
    ensures forall i | 0 <= i < |picks| :: 0 <= picks[i] < |hashes|
    ensures var r := BuildReceipt(hashes, picks, pct, target);
            && r.candidateCount == |per| && |r.selectedHashes| == r.selectedCount == |picks|
            && (forall i | 0 <= i < |picks| :: r.selectedHashes[i] == hashes[picks[i]])
            && (r.meetsTarget <==> target <= pct) && (r.hasWaiver <==> pct < target)
            && r.pct == pct && r.target == target
            && forall a :: a in AllArcs(per) <==> exists h :: h in r.selectedHashes && a in traced(h)
  {
    hide GreedyRun;
    RunPicksDistinct(per, {}, Indices(|per|), picks, covered);
    SelectionCoversEverything(per, picks, covered);
    var r := BuildReceipt(hashes, picks, pct, target);
    forall i | 0 <= i < |picks| ensures r.selectedHashes[i] == hashes[picks[i]] && At(per, picks[i]) == per[picks[i]] {}
    hide BuildReceipt;
    forall a ensures a in AllArcs(per) <==> exists h :: h in r.selectedHashes && a in traced(h) {
      if a in AllArcs(per) {
        var k := PickReaching(per, picks, a);
        assert r.selectedHashes[k] in r.selectedHashes;
      }
      if h :| h in r.selectedHashes && a in traced(h) {
        var k :| 0 <= k < |picks| && r.selectedHashes[k] == h;
        AllArcsMember(per, picks[k]);
      }
    }
  }

  lemma {:induction false} PickReaching(per: seq<Arcs>, picks: seq<int>, a: Arc) returns (k: int)
    requires a in ArcsOf(per, picks)
    ensures 0 <= k < |picks| && a in At(per, picks[k])
    decreases |picks|
  {
    if a in At(per, picks[0]) {
      k := 0;
    } else {
      k := PickReaching(per, picks[1..], a);
      k := k + 1;
    }
  }
}
