/**
 The randomised pacing the crawler uses. The random source is made an
 explicit input: a `draw` is any natural number the caller supplies, and
 the model maps it into the configured bounds.
 */
module Timing {

  /** `random.randint(lo, hi)` driven by a supplied draw. */
  function Uniform(lo: int, hi: int, draw: nat): (d: int)
    requires lo <= hi
    ensures lo <= d <= hi
  {
    lo + draw % (hi - lo + 1)
  }

  /** Every value in the bounds is produced by some draw, so the bounds are not narrower than stated. */
  lemma UniformCovers(lo: int, hi: int, d: int)
    requires lo <= d <= hi
    ensures Uniform(lo, hi, d - lo) == d
  {
  }

  const ScrollMin := 300
  const ScrollMax := 700

  /** One scroll increment of the pagination loop, `random.randint(300, 700)` pixels. */
  function ScrollAmount(draw: nat): (px: int)
    ensures ScrollMin <= px <= ScrollMax
  {
    Uniform(ScrollMin, ScrollMax, draw)
  }

  /** The two random values one pause between listings consumes. */
  datatype PauseDraw = PauseDraw(coin: nat, draw: nat)

  /** Out of 100 equally likely `coin` values, this many choose the long pause between listings. */
  const LongPausePercent := 20

  /**
   The pause taken after a listing: a long pause of 8 to 15 seconds with
   probability one in five, otherwise a short one of 3 to 6 seconds. The
   float `random.random() < 0.2` is modelled by a percentile `coin`.
   */
  function ListingPause(coin: nat, draw: nat): (ms: int)
    ensures coin % 100 < LongPausePercent ==> 8000 <= ms <= 15000
    ensures LongPausePercent <= coin % 100 ==> 3000 <= ms <= 6000
  {
    if coin % 100 < LongPausePercent then Uniform(8000, 15000, draw) else Uniform(3000, 6000, draw)
  }
}
