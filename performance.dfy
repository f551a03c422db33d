/** How much animation the site runs, chosen from the device and the user's motion preference. */
module Performance {
  import opened Wrappers

  datatype AnimationConfig = AnimationConfig(particleCount: nat, animationDuration: real,
                                             enableComplexAnimations: bool, enableParallax: bool)

  /**
   * `navigator.hardwareConcurrency <= 4`. A browser that leaves the count `undefined`
   * compares false, so it counts as a capable device.
   */
  predicate IsLowEndDevice(hardwareConcurrency: Option<int>) {
    hardwareConcurrency.Some? && hardwareConcurrency.value <= 4
  }

  /**
   * The decision table: reduced motion turns everything off; otherwise a low-end device
   * gets 3 particles at half duration and a capable one 6 particles at full duration, and
   * only a capable device without reduced motion gets complex animations and parallax.
   * `prefersReduced` is the `(prefers-reduced-motion: reduce)` media query.
   */
  function OptimizedAnimationConfig(hardwareConcurrency: Option<int>, prefersReduced: bool): (c: AnimationConfig)
    ensures prefersReduced ==> c.particleCount == 0 && c.animationDuration == 0.0
    ensures !prefersReduced && IsLowEndDevice(hardwareConcurrency) ==>
              c.particleCount == 3 && c.animationDuration == 0.5
    ensures !prefersReduced && !IsLowEndDevice(hardwareConcurrency) ==>
              c.particleCount == 6 && c.animationDuration == 1.0
    ensures c.enableComplexAnimations == c.enableParallax == (!prefersReduced && !IsLowEndDevice(hardwareConcurrency))
  {
    var isLowEndDevice := IsLowEndDevice(hardwareConcurrency);
    AnimationConfig(
      if prefersReduced then 0 else if isLowEndDevice then 3 else 6,
      if prefersReduced then 0.0 else if isLowEndDevice then 0.5 else 1.0,
      !prefersReduced && !isLowEndDevice,
      !prefersReduced && !isLowEndDevice)
  }

  /** Six particles exactly when complex animations are on; no duration exactly under reduced motion. */
  lemma ConfigConsistency(hardwareConcurrency: Option<int>, prefersReduced: bool)
    ensures var c := OptimizedAnimationConfig(hardwareConcurrency, prefersReduced);
            && (c.particleCount == 6 <==> c.enableComplexAnimations)
            && (c.animationDuration == 0.0 <==> prefersReduced)
            && (c.particleCount == 0 <==> c.animationDuration == 0.0)
  {
  }

  /** Fewer cores never means more animation. */
  lemma ConfigMonotone(fewer: int, more: int, prefersReduced: bool)
    requires fewer <= more
    ensures OptimizedAnimationConfig(Some(fewer), prefersReduced).particleCount
            <= OptimizedAnimationConfig(Some(more), prefersReduced).particleCount
    ensures OptimizedAnimationConfig(Some(fewer), prefersReduced).animationDuration
            <= OptimizedAnimationConfig(Some(more), prefersReduced).animationDuration
  {
  }
}
