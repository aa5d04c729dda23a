/**
 * The pure rules of main/artwork.c: choosing a pole variant from a random
 * draw, the colour a pole is drawn in, and the remaining-life fraction that
 * sets a particle's opacity.
 */
module Artwork {
  import opened Types

  /** A visual theme for poles (struct variant). */
  datatype Variant = Variant(color: Color, filename: Option<string>)

  /** The static table of pole variants: green, orange, blue, purple. */
  const Variants: seq<Variant> := [
    Variant(0xff00b000, None),
    Variant(0xfff09000, None),
    Variant(0xff0000f0, None),
    Variant(0xffa000f0, None)
  ]

  const NumVariants: nat := 4

  /** The colour of a pole whose variant is not in the table. */
  const FallbackColor: Color := 0xff00ff00

  /** Number of values of one 32-bit esp_random draw. */
  const DrawRange: nat := 0x1_0000_0000

  /** `(draw * max) >> 32` on a 64-bit product: scales a 32-bit draw into [0, max). */
  function Scale(draw: nat, max: nat): (n: nat)
    requires draw < DrawRange && max > 0
    ensures n < max
  {
    ScaleBelow(draw, max);
    draw * max / DrawRange
  }

  lemma ScaleBelow(draw: nat, max: nat)
    requires draw < DrawRange && max > 0
    ensures draw * max / DrawRange < max
  {
    assert draw * max < DrawRange * max by {
      assert (DrawRange - draw) * max > 0;
    }
  }

  /**
   * random_variant: a variant index from one 32-bit draw, skipping
   * `notThis`. With `notThis == -1` nothing is skipped.
   */
  function RandomVariant(notThis: int, draw: nat): (v: int)
    requires draw < DrawRange
    ensures 0 <= v < NumVariants
    ensures 0 <= notThis < NumVariants ==> v != notThis
  {
    var max := if notThis == -1 then NumVariants else NumVariants - 1;
    var nombre := Scale(draw, max);
    if notThis != -1 && nombre >= notThis then nombre + 1 else nombre
  }

  lemma ScaleMonotone(d1: nat, d2: nat, max: nat)
    requires d1 <= d2 < DrawRange && max > 0
    ensures Scale(d1, max) <= Scale(d2, max)
  {
    assert d1 * max <= d2 * max by {
      assert (d2 - d1) * max >= 0;
    }
  }

  /** A larger draw never yields a smaller variant: the draw-to-variant map is monotone. */
  lemma RandomVariantMonotone(notThis: int, d1: nat, d2: nat)
    requires d1 <= d2 < DrawRange
    ensures RandomVariant(notThis, d1) <= RandomVariant(notThis, d2)
  {
    var max := if notThis == -1 then NumVariants else NumVariants - 1;
    ScaleMonotone(d1, d2, max);
  }

  /** The smallest draw that `Scale` maps to `k`. */
  function FirstDraw(k: nat, max: nat): (d: nat)
    requires 3 <= max <= 4 && k < max
    ensures d < DrawRange && Scale(d, max) == k
  {
    if max == 4 then
      assert k * 0x4000_0000 * 4 == k * DrawRange;
      k * 0x4000_0000
    else if k == 0 then 0
    else if k == 1 then 1431655766
    else 2863311531
  }

  /**
   * Every variant other than `notThis` is drawn by some 32-bit value: with
   * the range and exclusion facts of RandomVariant, the variants reachable
   * are exactly the table indices except `notThis`.
   */
  lemma RandomVariantOnto(notThis: int, v: int)
    requires -1 <= notThis < NumVariants
    requires 0 <= v < NumVariants && v != notThis
    ensures exists d :: 0 <= d < DrawRange && RandomVariant(notThis, d) == v
  {
    var max := if notThis == -1 then NumVariants else NumVariants - 1;
    var k := if notThis != -1 && v > notThis then v - 1 else v;
    var d := FirstDraw(k, max);
    assert RandomVariant(notThis, d) == v;
  }

  /** The colour draw_pole fills a pole with: the variant's colour, else the fallback. */
  function PoleColor(variant: int): (c: Color)
    ensures 0 <= variant < NumVariants ==> c == Variants[variant].color
    ensures c == FallbackColor <==> !(0 <= variant < NumVariants)
  {
    if 0 <= variant < NumVariants then Variants[variant].color else FallbackColor
  }

  /**
   * A freshly drawn variant that excludes the current one is drawn in a
   * table colour, and in a colour different from the current one.
   */
  lemma NewVariantChangesColor(current: int, draw: nat)
    requires 0 <= current < NumVariants && draw < DrawRange
    ensures PoleColor(RandomVariant(current, draw)) != FallbackColor
    ensures PoleColor(RandomVariant(current, draw)) != PoleColor(current)
  {
  }

  /**
   * The fraction of life left that draw_particles uses as opacity:
   * `age > lifespan ? 0 : (lifespan - age) / (float) lifespan`.
   * None stands for the float division by zero (NaN or infinity) that a
   * zero lifespan with an age of at most zero produces.
   */
  function LifeFraction(age: int, lifespan: int): (f: Option<real>)
    ensures f.None? <==> lifespan == 0 && age <= 0
    ensures lifespan > 0 && age >= 0 ==> f.Some? && 0.0 <= f.value <= 1.0
    ensures lifespan > 0 && age >= 0 ==> (f.value == 0.0 <==> age >= lifespan)
  {
    if age > lifespan then Some(0.0)
    else if lifespan == 0 then None
    else Some((lifespan - age) as real / lifespan as real)
  }

  /** A newborn particle is fully opaque. */
  lemma LifeFractionAtBirth(lifespan: int)
    requires lifespan > 0
    ensures LifeFraction(0, lifespan) == Some(1.0)
  {
    var l := lifespan as real;
    assert l / l == 1.0;
  }

  /** An older particle is never more opaque than a younger one of the same lifespan. */
  lemma LifeFractionMonotone(a1: int, a2: int, lifespan: int)
    requires lifespan > 0 && 0 <= a1 <= a2
    ensures LifeFraction(a2, lifespan).value <= LifeFraction(a1, lifespan).value
  {
    if a2 <= lifespan {
      var l := lifespan as real;
      assert (lifespan - a2) as real <= (lifespan - a1) as real;
      assert (lifespan - a2) as real / l <= (lifespan - a1) as real / l;
    }
  }
}
