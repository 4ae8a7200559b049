// The view that draws a playlist at random: how many draws choose each playlist.

module Selection {
  import opened Options

  /**
   * A playlist as the view sees it, in order of PlaylistID: its weight, whether any of its tracks exist,
   * and its place in the order the database uses among equal weights.
   */
  datatype Choice = Choice(weight: nat, hasTracks: bool, rank: int)

  predicate Ranked(ps: seq<Choice>) {
    forall i, j :: 0 <= i < j < |ps| ==> ps[i].rank != ps[j].rank
  }

  /** The sum of the weights of the first `n` playlists, empty ones included. */
  function Prefix(ps: seq<Choice>, n: nat): nat
    requires n <= |ps|
  {
    if n == 0 then 0 else Prefix(ps, n - 1) + ps[n - 1].weight
  }

  /** Whether `a` comes before `b` when ordered by descending weight. */
  predicate Before(a: Choice, b: Choice) {
    a.weight > b.weight || (a.weight == b.weight && a.rank < b.rank)
  }

  /** The first of the eligible playlists among the first `n`, ordered by descending weight. */
  function Heaviest(ps: seq<Choice>, eligible: set<int>, n: nat): (h: Option<nat>)
    requires n <= |ps|
    ensures h.Some? ==> h.value < n && h.value in eligible
    ensures h.None? ==> (forall i :: 0 <= i < n ==> i !in eligible)
  {
    if n == 0 then None
    else
      var h := Heaviest(ps, eligible, n - 1);
      if n - 1 in eligible && (h.None? || Before(ps[n - 1], ps[h.value])) then Some(n - 1) else h
  }

  /** The weights up to and including position `i` reach the draw `r`. */
  predicate Reaches(ps: seq<Choice>, i: int, r: int)
    requires 0 <= i < |ps|
  {
    r <= Prefix(ps, i + 1)
  }

  /** What the view returns for a draw `r`: a playlist with tracks whose weight, with all before it, reaches `r`. */
  function Select(ps: seq<Choice>, r: int): Option<nat> {
    Heaviest(ps, set i | 0 <= i < |ps| && ps[i].hasTracks && Reaches(ps, i, r), |ps|)
  }

  /** The heaviest playlist with tracks from position `k` on. */
  function HeaviestFrom(ps: seq<Choice>, k: nat): Option<nat> {
    Heaviest(ps, set i | k <= i < |ps| && ps[i].hasTracks, |ps|)
  }

  // ---- Counting draws ------------------------------------------------------------------------

  /** How many of the draws 1..n choose `o`. */
  function Draws(ps: seq<Choice>, o: Option<nat>, n: nat): nat {
    if n == 0 then 0 else Draws(ps, o, n - 1) + if Select(ps, n) == o then 1 else 0
  }

  /** The summed weights of those of the first `n` positions from which `o` is the heaviest. */
  function Share(ps: seq<Choice>, o: Option<nat>, n: nat): nat
    requires n <= |ps|
  {
    if n == 0 then 0 else Share(ps, o, n - 1) + if HeaviestFrom(ps, n - 1) == o then ps[n - 1].weight else 0
  }

  lemma {:induction false} PrefixMonotone(ps: seq<Choice>, m: nat, n: nat)
    requires m <= n <= |ps|
    ensures Prefix(ps, m) <= Prefix(ps, n)
    decreases n - m
  {
    if m < n {
      PrefixMonotone(ps, m, n - 1);
    }
  }

  /** A draw that falls on the weight of position `k` makes exactly the positions from `k` on eligible. */
  lemma SelectInBucket(ps: seq<Choice>, k: nat, r: int)
    requires k < |ps| && Prefix(ps, k) < r <= Prefix(ps, k + 1)
    ensures Select(ps, r) == HeaviestFrom(ps, k)
  {
    forall i | 0 <= i < |ps| ensures Reaches(ps, i, r) <==> k <= i {
      if k <= i {
        PrefixMonotone(ps, k + 1, i + 1);
      } else {
        PrefixMonotone(ps, i + 1, k);
      }
    }
    var a := set i | 0 <= i < |ps| && ps[i].hasTracks && Reaches(ps, i, r);
    var b := set i | k <= i < |ps| && ps[i].hasTracks;
    assert forall i :: i in a <==> i in b;
    assert a == b;
  }

  lemma {:induction false} DrawsInBucket(ps: seq<Choice>, o: Option<nat>, k: nat, r: nat)
    requires k < |ps| && Prefix(ps, k) <= r <= Prefix(ps, k + 1)
    ensures Draws(ps, o, r) == Draws(ps, o, Prefix(ps, k)) + if HeaviestFrom(ps, k) == o then r - Prefix(ps, k) else 0
    decreases r
  {
    if r > Prefix(ps, k) {
      SelectInBucket(ps, k, r);
      DrawsInBucket(ps, o, k, r - 1);
    }
  }

  /**
   * Of the draws 1..S, S the sum of all weights, a playlist is chosen by as many as the weights of the
   * positions from which it is the heaviest add up to; nothing is chosen by as many as the weights after
   * the last playlist with tracks add up to.
   */
  lemma {:induction false} DrawsAreShares(ps: seq<Choice>, o: Option<nat>, n: nat)
    requires n <= |ps|
    ensures Draws(ps, o, Prefix(ps, n)) == Share(ps, o, n)
  {
    if n > 0 {
      DrawsAreShares(ps, o, n - 1);
      DrawsInBucket(ps, o, n - 1, Prefix(ps, n));
    }
  }

  // ---- When the choice is fair ---------------------------------------------------------------

  /** The documented promise: every playlist is chosen by as many draws as its weight. */
  ghost predicate Fair(ps: seq<Choice>) {
    forall i :: 0 <= i < |ps| ==> Draws(ps, Some(i), Prefix(ps, |ps|)) == ps[i].weight
  }

  /** Every playlist with a positive weight has tracks and comes, by weight, before all with a larger id that have. */
  predicate HeavierFirst(ps: seq<Choice>) {
    forall k :: 0 <= k < |ps| && ps[k].weight > 0 ==>
      ps[k].hasTracks && forall j :: k < j < |ps| && ps[j].hasTracks ==> Before(ps[k], ps[j])
  }

  lemma {:induction false} HeaviestIsFirst(ps: seq<Choice>, eligible: set<int>, n: nat)
    requires n <= |ps| && Ranked(ps)
    ensures var h := Heaviest(ps, eligible, n);
            h.Some? ==> forall i :: 0 <= i < n && i in eligible && i != h.value ==> Before(ps[h.value], ps[i])
  {
    if n > 0 {
      HeaviestIsFirst(ps, eligible, n - 1);
    }
  }

  lemma HeaviestFromIs(ps: seq<Choice>, k: nat, j: nat)
    requires Ranked(ps) && k <= j < |ps|
    ensures HeaviestFrom(ps, k) == Some(j) <==>
            ps[j].hasTracks && forall i :: k <= i < |ps| && i != j && ps[i].hasTracks ==> Before(ps[j], ps[i])
  {
    var eligible := set i | k <= i < |ps| && ps[i].hasTracks;
    HeaviestIsFirst(ps, eligible, |ps|);
    assert ps[j].hasTracks ==> j in eligible;
  }

  /** The heaviest of a tail is the heaviest of its own tail. */
  lemma HeaviestFromItself(ps: seq<Choice>, k: nat)
    requires Ranked(ps) && k < |ps| && HeaviestFrom(ps, k).Some?
    ensures var j := HeaviestFrom(ps, k).value; k <= j && ps[j].hasTracks && HeaviestFrom(ps, j) == Some(j)
  {
    var j := HeaviestFrom(ps, k).value;
    HeaviestFromIs(ps, k, j);
    HeaviestFromIs(ps, j, j);
  }

  lemma {:induction false} ShareAtLeast(ps: seq<Choice>, o: Option<nat>, k: nat, n: nat)
    requires k < n <= |ps| && HeaviestFrom(ps, k) == o
    ensures Share(ps, o, n) >= ps[k].weight
    decreases n
  {
    if k < n - 1 {
      ShareAtLeast(ps, o, k, n - 1);
    }
  }

  lemma {:induction false} ShareAtLeastBoth(ps: seq<Choice>, o: Option<nat>, k: nat, j: nat, n: nat)
    requires k < j < n <= |ps| && HeaviestFrom(ps, k) == o && HeaviestFrom(ps, j) == o
    ensures Share(ps, o, n) >= ps[k].weight + ps[j].weight
    decreases n
  {
    if j < n - 1 {
      ShareAtLeastBoth(ps, o, k, j, n - 1);
    } else {
      ShareAtLeast(ps, o, k, n - 1);
    }
  }

  lemma {:induction false} ShareOfOwn(ps: seq<Choice>, i: nat, n: nat)
    requires i < |ps| && n <= |ps|
    requires forall k :: 0 <= k < |ps| && ps[k].weight > 0 ==> HeaviestFrom(ps, k) == Some(k)
    ensures Share(ps, Some(i), n) == if i < n then ps[i].weight else 0
  {
    if n > 0 {
      ShareOfOwn(ps, i, n - 1);
    }
  }

  lemma {:induction false} ShareOfTrackless(ps: seq<Choice>, i: nat, n: nat)
    requires i < |ps| && n <= |ps| && !ps[i].hasTracks
    ensures Share(ps, Some(i), n) == 0
  {
    if n > 0 {
      ShareOfTrackless(ps, i, n - 1);
    }
  }

  /** A fair choice leaves no positive weight to a playlist other than its owner. */
  lemma FairKeepsOwn(ps: seq<Choice>, k: nat)
    requires Ranked(ps) && Fair(ps) && k < |ps| && ps[k].weight > 0
    ensures HeaviestFrom(ps, k) == Some(k)
  {
    var h := HeaviestFrom(ps, k);
    if h.None? {
      var eligible := set i | k <= i < |ps| && ps[i].hasTracks;
      assert k !in eligible;
      DrawsAreShares(ps, Some(k), |ps|);
      ShareOfTrackless(ps, k, |ps|);
    } else if h != Some(k) {
      var j := h.value;
      HeaviestFromItself(ps, k);
      DrawsAreShares(ps, Some(j), |ps|);
      ShareAtLeastBoth(ps, Some(j), k, j, |ps|);
    }
  }

  /**
   * The documented probabilities hold if and only if every playlist that carries weight has tracks and is
   * heavier than all playlists with tracks and a larger id: the view orders by weight, not by id.
   */
  lemma FairIffHeavierFirst(ps: seq<Choice>)
    requires Ranked(ps)
    ensures Fair(ps) <==> HeavierFirst(ps)
  {
    if HeavierFirst(ps) {
      forall k | 0 <= k < |ps| && ps[k].weight > 0 ensures HeaviestFrom(ps, k) == Some(k) {
        HeaviestFromIs(ps, k, k);
      }
      forall i | 0 <= i < |ps| ensures Draws(ps, Some(i), Prefix(ps, |ps|)) == ps[i].weight {
        DrawsAreShares(ps, Some(i), |ps|);
        ShareOfOwn(ps, i, |ps|);
      }
    }
    if Fair(ps) {
      forall k | 0 <= k < |ps| && ps[k].weight > 0
        ensures ps[k].hasTracks && forall j :: k < j < |ps| && ps[j].hasTracks ==> Before(ps[k], ps[j])
      {
        FairKeepsOwn(ps, k);
        HeaviestFromIs(ps, k, k);
      }
    }
  }

  /** If the playlist with the largest id has tracks, every draw chooses some playlist. */
  lemma EveryDrawChooses(ps: seq<Choice>, r: int)
    requires ps != [] && ps[|ps| - 1].hasTracks && 1 <= r <= Prefix(ps, |ps|)
    ensures Select(ps, r).Some?
  {
  }

  /** A draw chooses nothing if and only if the weights up to every playlist with tracks fall short of it. */
  lemma DrawFailsIff(ps: seq<Choice>, r: int)
    ensures Select(ps, r).None? <==> forall i :: 0 <= i < |ps| && ps[i].hasTracks ==> !Reaches(ps, i, r)
  {
    var eligible := set i | 0 <= i < |ps| && ps[i].hasTracks && Reaches(ps, i, r);
    if Select(ps, r).None? {
      forall i | 0 <= i < |ps| && ps[i].hasTracks ensures !Reaches(ps, i, r) {
        assert i !in eligible;
      }
    }
  }

  /** No draw chooses anything if and only if no playlist with tracks has weight, its own or before it. */
  lemma NoDrawChoosesIff(ps: seq<Choice>)
    requires Prefix(ps, |ps|) > 0
    ensures (forall r :: 1 <= r <= Prefix(ps, |ps|) ==> Select(ps, r).None?) <==>
              forall i :: 0 <= i < |ps| && ps[i].hasTracks ==> Prefix(ps, i + 1) == 0
  {
    DrawFailsIff(ps, 1);
    if forall i :: 0 <= i < |ps| && ps[i].hasTracks ==> Prefix(ps, i + 1) == 0 {
      forall r | 1 <= r <= Prefix(ps, |ps|) ensures Select(ps, r).None? {
        DrawFailsIff(ps, r);
      }
    } else {
      assert Select(ps, 1).Some?;
    }
  }

  /** Every draw chooses something if and only if the weights up to some playlist with tracks are all there are. */
  lemma EveryDrawChoosesIff(ps: seq<Choice>)
    requires Prefix(ps, |ps|) > 0
    ensures (forall r :: 1 <= r <= Prefix(ps, |ps|) ==> Select(ps, r).Some?) <==>
              exists i :: 0 <= i < |ps| && ps[i].hasTracks && Reaches(ps, i, Prefix(ps, |ps|))
  {
    var total := Prefix(ps, |ps|);
    DrawFailsIff(ps, total);
    forall r | 1 <= r <= total && Select(ps, r).None? ensures Select(ps, total).None? {
      DrawFailsIff(ps, r);
      assert forall i :: 0 <= i < |ps| && Reaches(ps, i, total) ==> Reaches(ps, i, r);
    }
  }

  lemma {:induction false} HeaviestIs(ps: seq<Choice>, eligible: set<int>, n: nat)
    requires n <= |ps| && Ranked(ps)
    ensures var h := Heaviest(ps, eligible, n);
            h.Some? ==> forall i :: 0 <= i < n && i in eligible && i != h.value ==> Before(ps[h.value], ps[i])
  {
    if n > 0 {
      HeaviestIs(ps, eligible, n - 1);
    }
  }

  /**
   * A draw chooses `k` if and only if `k` has tracks, the weights up to it reach the draw, and every other such
   * playlist is lighter, or as heavy and later in the order among equals.
   */
  lemma SelectIff(ps: seq<Choice>, r: int, k: nat)
    requires Ranked(ps) && k < |ps|
    ensures Select(ps, r) == Some(k) <==>
              && ps[k].hasTracks && Reaches(ps, k, r)
              && forall i :: 0 <= i < |ps| && i != k && ps[i].hasTracks && Reaches(ps, i, r) ==>
                   ps[k].weight > ps[i].weight || (ps[k].weight == ps[i].weight && ps[k].rank < ps[i].rank)
  {
    var eligible := set i | 0 <= i < |ps| && ps[i].hasTracks && Reaches(ps, i, r);
    HeaviestIs(ps, eligible, |ps|);
    assert k in eligible ==> Select(ps, r).Some?;
  }
}
