/** The best-match loop of `main`: over the gallery's (label, distance) pairs in
    iteration order it keeps a running smallest distance and its label. The running
    distance starts at 0 and 0 also stands for "nothing kept yet", so the entry
    after a zero distance always replaces it; otherwise a strictly smaller
    distance is needed, so among equal distances the earliest wins. */
module Select {

  /** A gallery label with the distance of the query from that label's image. */
  type Score = (string, nat)

  /** Entry `k` is the one kept after the first `n` entries: nothing after it among
      them replaces it (it is not 0 and nothing later is smaller), and each entry
      before it either has a larger distance or is wiped out by a zero distance at
      or after it. */
  ghost predicate Leads(d: seq<Score>, n: int, k: int) {
    0 <= k < n <= |d| &&
    (forall j :: k < j < n ==> d[k].1 != 0 && d[k].1 <= d[j].1) &&
    (forall j :: 0 <= j < k ==> d[k].1 < d[j].1 || ZeroIn(d, j, k))
  }

  /** Entry `k` is the one the loop ends on. */
  ghost predicate Winner(d: seq<Score>, k: int) {
    Leads(d, |d|, k)
  }

  /** Some entry in positions lo .. hi - 1 has distance 0. */
  ghost predicate ZeroIn(d: seq<Score>, lo: int, hi: int) {
    exists i :: lo <= i < hi && 0 <= i < |d| && d[i].1 == 0
  }

  /** How entry `n` moves the kept entry: it takes over when the kept distance is 0
      or larger than its own, and otherwise the kept entry stays. */
  lemma LeadsStep(d: seq<Score>, n: int, k: int)
    requires Leads(d, n, k) && n < |d|
    ensures d[k].1 == 0 || d[n].1 < d[k].1 ==> Leads(d, n + 1, n)
    ensures !(d[k].1 == 0 || d[n].1 < d[k].1) ==> Leads(d, n + 1, k)
  {
    if d[k].1 == 0 || d[n].1 < d[k].1 {
      // a kept 0 is always the last entry seen
      assert k < n - 1 ==> d[k].1 != 0 && d[k].1 <= d[n - 1].1;
      forall j | 0 <= j < n
        ensures d[n].1 < d[j].1 || ZeroIn(d, j, n)
      {
        if d[k].1 == 0 {
          assert j <= k && d[k].1 == 0;
        } else if j >= k {
          assert d[k].1 <= d[j].1;
        } else if d[k].1 >= d[j].1 {
          var i :| j <= i < k && 0 <= i < |d| && d[i].1 == 0;
          assert j <= i < n;
        }
      }
    }
  }

  lemma {:induction false} LeadsExists(d: seq<Score>, n: int)
    requires 0 < n <= |d|
    ensures exists k :: Leads(d, n, k)
  {
    if n == 1 {
      assert Leads(d, 1, 0);
    } else {
      LeadsExists(d, n - 1);
      var k :| Leads(d, n - 1, k);
      LeadsStep(d, n - 1, k);
    }
  }

  /** Every non-empty gallery has a winner. */
  lemma WinnerExists(d: seq<Score>)
    requires d != []
    ensures exists k :: Winner(d, k)
  {
    LeadsExists(d, |d|);
    var k :| Leads(d, |d|, k);
    assert Winner(d, k);
  }

  /** Everything after a winner is at least as far and no zero lies between. */
  lemma WinnerBefore(d: seq<Score>, a: int, b: int)
    requires Winner(d, a) && a < b < |d|
    ensures 0 < d[a].1 <= d[b].1 && !ZeroIn(d, a, b)
  {
    assert d[a].1 <= d[b].1;
    forall i | a <= i < b ensures d[i].1 != 0 {
      if i > a {
        assert d[a].1 <= d[i].1;
      }
    }
  }

  /** At most one entry is the winner, so Winner determines the loop's result. */
  lemma WinnerUnique(d: seq<Score>, k1: int, k2: int)
    requires Winner(d, k1) && Winner(d, k2)
    ensures k1 == k2
  {
    if k1 < k2 {
      WinnerBefore(d, k1, k2);
      assert false;
    } else if k2 < k1 {
      WinnerBefore(d, k2, k1);
      assert false;
    }
  }

  /** With every distance positive the winner is exactly the earliest entry of
      least distance. */
  lemma WinnerAllPositive(d: seq<Score>, k: int)
    requires forall j :: 0 <= j < |d| ==> d[j].1 > 0
    ensures Winner(d, k) <==>
      0 <= k < |d| && (forall j :: 0 <= j < |d| ==> d[k].1 <= d[j].1) &&
      (forall j :: 0 <= j < k ==> d[k].1 < d[j].1)
  {
    forall j | 0 <= j < k ensures !ZeroIn(d, j, k) {
    }
  }

  /** A winner that is not in last place has a positive distance: a zero distance
      is always replaced by the next entry. */
  lemma WinnerBeforeLastPositive(d: seq<Score>, k: int)
    requires Winner(d, k) && k < |d| - 1
    ensures d[k].1 > 0
  {
    assert d[k].1 <= d[k + 1].1;
  }

  /** main.go:181-191, over the (label, distance) pairs in iteration order. An empty
      gallery leaves the empty label and distance 0. */
  method SelectBest(scores: seq<Score>) returns (rightLetter: string, lowerDistance: nat)
    ensures scores == [] ==> rightLetter == "" && lowerDistance == 0
    ensures scores != [] ==> exists k :: Winner(scores, k) && scores[k] == (rightLetter, lowerDistance)
  {
    lowerDistance, rightLetter := 0, "";
    ghost var k := 0;
    for n := 0 to |scores|
      invariant n == 0 ==> rightLetter == "" && lowerDistance == 0
      invariant n > 0 ==> Leads(scores, n, k) && scores[k] == (rightLetter, lowerDistance)
    {
      var (letter, distance) := scores[n];
      if n > 0 {
        LeadsStep(scores, n, k);
      }
      if lowerDistance == 0 || distance < lowerDistance {
        lowerDistance, rightLetter := distance, letter;
        k := n;
      }
    }
  }
}
