/**
 * The metrics ledger of the phase orchestrator (sequential.py:76-81): the
 * phase-scoped counters that a phase transition resets and the lifetime
 * totals that it never touches, with the metric getters of lines 153-166.
 */
module Metrics {

  /** Python's `sum(xs)`, accumulated left to right. */
  function Sum(xs: seq<real>): real
  {
    if xs == [] then 0.0 else Sum(xs[..|xs| - 1]) + xs[|xs| - 1]
  }

  datatype Ledger = Ledger(
    nSteps: int,
    totalSteps: int,
    nEpisodes: int,
    totalEpisodes: int,
    episodeReturns: seq<real>)
  {
    /**
     * What the bookkeeping keeps true: one return per phase episode, and the
     * phase episode count never exceeds the lifetime count.
     */
    ghost predicate Valid()
    {
      0 <= nEpisodes <= totalEpisodes && |episodeReturns| == nEpisodes
    }

    /** `_get_steps`. */
    function Steps(): real
    {
      nSteps as real
    }

    /** `_get_episodes`. */
    function Episodes(): real
    {
      nEpisodes as real
    }

    /** `_get_episode_return`: the mean phase return, 0 when there is none. */
    function EpisodeReturn(): (r: real)
      ensures |episodeReturns| == 0 ==> r == 0.0
      ensures |episodeReturns| > 0 ==> r * (|episodeReturns| as real) == Sum(episodeReturns)
    {
      if |episodeReturns| > 0 then Sum(episodeReturns) / (|episodeReturns| as real) else 0.0
    }

    /** The bookkeeping of one finished episode (lines 191-195). */
    function Record(episodeReturn: real, episodeLen: int): (r: Ledger)
      ensures Valid() ==> r.Valid()
      ensures r.Steps() == Steps() + episodeLen as real && r.Episodes() == Episodes() + 1.0
      ensures r.totalSteps - r.nSteps == totalSteps - nSteps
      ensures r.totalEpisodes - r.nEpisodes == totalEpisodes - nEpisodes
      ensures r.EpisodeReturn() * (|r.episodeReturns| as real)
           == EpisodeReturn() * (|episodeReturns| as real) + episodeReturn
    {
      Ledger(nSteps + episodeLen, totalSteps + episodeLen, nEpisodes + 1, totalEpisodes + 1,
             episodeReturns + [episodeReturn])
    }

    /** The reset of the phase-scoped fields at a transition (lines 199-201). */
    function ResetPhase(): (r: Ledger)
      ensures 0 <= totalEpisodes ==> r.Valid()
      ensures r.Steps() == 0.0 && r.Episodes() == 0.0 && r.EpisodeReturn() == 0.0
      ensures r.totalSteps == totalSteps && r.totalEpisodes == totalEpisodes
    {
      Ledger(0, totalSteps, 0, totalEpisodes, [])
    }
  }

  /** The ledger of a freshly constructed orchestrator (lines 77-81). */
  const Initial := Ledger(0, 0, 0, 0, [])

  lemma {:induction false} SumBounds(xs: seq<real>, lo: real, hi: real)
    requires forall i :: 0 <= i < |xs| ==> lo <= xs[i] <= hi
    ensures (|xs| as real) * lo <= Sum(xs) <= (|xs| as real) * hi
  {
    if xs != [] {
      SumBounds(xs[..|xs| - 1], lo, hi);
    }
  }

  /** The mean phase return lies between the smallest and largest return. */
  lemma MeanWithinBounds(l: Ledger, lo: real, hi: real)
    requires |l.episodeReturns| > 0
    requires forall i :: 0 <= i < |l.episodeReturns| ==> lo <= l.episodeReturns[i] <= hi
    ensures lo <= l.EpisodeReturn() <= hi
  {
    var n := |l.episodeReturns| as real;
    var r := l.EpisodeReturn();
    SumBounds(l.episodeReturns, lo, hi);
    assert r * n >= lo * n;
    assert r * n <= hi * n;
  }
}
