/**
 * Tag ratings: a profile's `tagsRate` record from tag to integer score. A tag that has
 * no entry reads as 0, because the stores replace a falsy rating (`undefined` or 0) by 0
 * before changing it.
 */
module Ratings {

  const MinRating := -100
  const MaxRating := 100

  /** The rating a tag is treated as having. */
  function Rate(m: map<string, int>, tag: string): int {
    if tag in m then m[tag] else 0
  }

  function Min(a: int, b: int): int { if a <= b then a else b }
  function Max(a: int, b: int): int { if a >= b then a else b }

  /** `Math.max(-100, Math.min(100, v))`: the nearest value inside [-100, 100]. */
  function Clamp(v: int): (r: int)
    ensures MinRating <= r <= MaxRating
    ensures MinRating <= v <= MaxRating ==> r == v
    ensures v > MaxRating ==> r == MaxRating
    ensures v < MinRating ==> r == MinRating
  {
    Max(MinRating, Min(MaxRating, v))
  }

  /** Every stored rating lies in [-100, 100]. */
  ghost predicate InRange(m: map<string, int>) {
    forall t :: t in m ==> MinRating <= m[t] <= MaxRating
  }

  /**
   * `resetTagRating`: a tag that has an entry is set to 0; a tag without one is left
   * without one. No key is ever added or removed.
   */
  function ResetRate(m: map<string, int>, tag: string): (r: map<string, int>)
    ensures r.Keys == m.Keys
    ensures tag in m ==> r[tag] == 0
    ensures forall t :: t in m && t != tag ==> r[t] == m[t]
    ensures InRange(m) ==> InRange(r)
  {
    if tag in m then m[tag := 0] else m
  }

  /** `setTagRating`: the tag's rating becomes the clamped value; every other rating stays. */
  function SetRate(m: map<string, int>, tag: string, rating: int): (r: map<string, int>)
    ensures r.Keys == m.Keys + {tag}
    ensures MinRating <= r[tag] <= MaxRating
    ensures MinRating <= rating <= MaxRating ==> r[tag] == rating
    ensures rating > MaxRating ==> r[tag] == MaxRating
    ensures rating < MinRating ==> r[tag] == MinRating
    ensures forall t :: t in m && t != tag ==> r[t] == m[t]
    ensures InRange(m) ==> InRange(r)
  {
    m[tag := Clamp(rating)]
  }
}
