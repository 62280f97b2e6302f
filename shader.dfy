/**
 * The card's fragment shader: per fragment, it samples the photo, shifts
 * the overlay coordinate by the pointer, samples the hologram and
 * ultra-rare overlays there, and blends by rarity tier. The rarity
 * uniform is a float compared for equality against 0.0 .. 3.0; any other
 * value keeps the photo's colour.
 */
module CardShader {
  import opened Glsl

  /** Rarity tiers, as the values the `uRarity` uniform is compared with. */
  const Normal: real := 0.0
  const Holo: real := 1.0
  const Gold: real := 2.0
  const UltraRare: real := 3.0

  /** Luma weights of the brightness used by the hologram tier. */
  const LumaWeights := Vec3(0.299, 0.587, 0.114)

  /** Channel-wise tint applied to the photo by the gold tier. */
  const GoldTint := Vec3(1.0, 0.8, 0.0)

  /** The three textures the shader samples, as functions from UV to colour. */
  datatype Textures = Textures(
    color: Vec2 -> Vec4,
    holo: Vec2 -> Vec4,
    ultraRare: Vec2 -> Vec4)

  /**
   * The overlay coordinate: the UV moved by half the pointer, y flipped.
   * The pointer can be read back from the shift.
   */
  function HoloUv(vUv: Vec2, uMouse: Vec2): (h: Vec2)
    ensures uMouse == Vec2(2.0 * (h.x - vUv.x), 2.0 * (vUv.y - h.y))
  {
    Vec2(vUv.x + uMouse.x * 0.5, vUv.y - uMouse.y * 0.5)
  }

  /**
   * Brightness of a colour: its dot product with the luma weights. The
   * weights sum to one, so a colour of [0,1]^3 has brightness in [0,1],
   * white exactly 1 and black 0.
   */
  function Brightness(c: Vec3): (l: real)
    ensures UnitRgb(c) ==> InUnit(l)
    ensures c == Vec3(1.0, 1.0, 1.0) ==> l == 1.0
    ensures c == Vec3(0.0, 0.0, 0.0) ==> l == 0.0
  {
    Dot(c, LumaWeights)
  }

  /**
   * Weight of the hologram overlay in the hologram tier; for a photo
   * colour of [0,1]^3 it lies in [0.3, 0.5].
   */
  function HoloWeight(base: Vec3): (w: real)
    ensures UnitRgb(base) ==> 0.3 <= w <= 0.5
  {
    0.3 + Brightness(base) * 0.2
  }

  /**
   * The colour chosen by the rarity dispatch, from the three samples. It
   * starts as the photo's colour, which every rarity value outside
   * {1,2,3} keeps.
   */
  function FinalColor(baseColor: Vec4, holoColor: Vec4, ultraRareColor: Vec4, uRarity: real): (f: Vec3)
    ensures uRarity != Holo && uRarity != Gold && uRarity != UltraRare ==> f == baseColor.Rgb()
  {
    var base := baseColor.Rgb();
    if uRarity == Normal then base
    else if uRarity == Holo then Mix3(base, holoColor.Rgb(), HoloWeight(base))
    else if uRarity == Gold then Mix3(Mul3(base, GoldTint), holoColor.Rgb(), 0.5)
    else if uRarity == UltraRare then Mix3(base, ultraRareColor.Rgb(), 0.6)
    else base
  }

  /** gl_FragColor for given samples: the chosen colour, fully opaque. */
  function Fragment(baseColor: Vec4, holoColor: Vec4, ultraRareColor: Vec4, uRarity: real): (c: Vec4)
    ensures c.a == 1.0
  {
    var f := FinalColor(baseColor, holoColor, ultraRareColor, uRarity);
    Vec4(f.r, f.g, f.b, 1.0)
  }

  /** The shader's `main`: sample the textures and shade one fragment. */
  function Shade(tex: Textures, uMouse: Vec2, uRarity: real, vUv: Vec2): (c: Vec4)
    ensures c.a == 1.0
  {
    var baseColor := tex.color(vUv);
    var holoUv := HoloUv(vUv, uMouse);
    Fragment(baseColor, tex.holo(holoUv), tex.ultraRare(holoUv), uRarity)
  }

  /** A pointer at the centre leaves the overlay coordinate unchanged. */
  lemma HoloUvCentredPointer(vUv: Vec2)
    ensures HoloUv(vUv, Vec2(0.0, 0.0)) == vUv
  {
  }

  /**
   * Shifting by one pointer and then another equals shifting by their sum;
   * in particular the opposite pointer undoes the shift.
   */
  lemma HoloUvCompose(vUv: Vec2, m1: Vec2, m2: Vec2)
    ensures HoloUv(HoloUv(vUv, m1), m2) == HoloUv(vUv, Vec2(m1.x + m2.x, m1.y + m2.y))
    ensures HoloUv(HoloUv(vUv, m1), Vec2(-m1.x, -m1.y)) == vUv
  {
  }

  /** A pointer in [-1,1]^2 moves the overlay by at most half a texture. */
  lemma HoloUvShiftBound(vUv: Vec2, uMouse: Vec2)
    requires -1.0 <= uMouse.x <= 1.0 && -1.0 <= uMouse.y <= 1.0
    ensures Abs(HoloUv(vUv, uMouse).x - vUv.x) <= 0.5
    ensures Abs(HoloUv(vUv, uMouse).y - vUv.y) <= 0.5
  {
  }

  /**
   * The fragment depends only on the photo at the UV and on both overlays
   * at the one shifted coordinate: textures that agree there shade alike.
   */
  lemma ShadeSamplesAtHoloUv(t1: Textures, t2: Textures, uMouse: Vec2, uRarity: real, vUv: Vec2)
    requires t1.color(vUv) == t2.color(vUv)
    requires t1.holo(HoloUv(vUv, uMouse)) == t2.holo(HoloUv(vUv, uMouse))
    requires t1.ultraRare(HoloUv(vUv, uMouse)) == t2.ultraRare(HoloUv(vUv, uMouse))
    ensures Shade(t1, uMouse, uRarity, vUv) == Shade(t2, uMouse, uRarity, vUv)
  {
  }

  /** With the pointer at the centre all three textures are read at the UV. */
  lemma ShadeCentredPointer(tex: Textures, uRarity: real, vUv: Vec2)
    ensures Shade(tex, Vec2(0.0, 0.0), uRarity, vUv)
         == Fragment(tex.color(vUv), tex.holo(vUv), tex.ultraRare(vUv), uRarity)
  {
    HoloUvCentredPointer(vUv);
  }

  /**
   * The normal tier, and every rarity value outside {0,1,2,3}, outputs the
   * photo's colour unchanged, whatever the overlays hold.
   */
  lemma NormalKeepsBase(baseColor: Vec4, holoColor: Vec4, ultraRareColor: Vec4, uRarity: real)
    requires uRarity != Holo && uRarity != Gold && uRarity != UltraRare
    ensures Fragment(baseColor, holoColor, ultraRareColor, uRarity)
         == Vec4(baseColor.r, baseColor.g, baseColor.b, 1.0)
  {
  }

  /** Outside the overlay tiers the pointer has no effect on the fragment. */
  lemma NormalIgnoresPointer(tex: Textures, m1: Vec2, m2: Vec2, uRarity: real, vUv: Vec2)
    requires uRarity != Holo && uRarity != Gold && uRarity != UltraRare
    ensures Shade(tex, m1, uRarity, vUv) == Shade(tex, m2, uRarity, vUv)
  {
    var h1, h2 := HoloUv(vUv, m1), HoloUv(vUv, m2);
    NormalKeepsBase(tex.color(vUv), tex.holo(h1), tex.ultraRare(h1), uRarity);
    NormalKeepsBase(tex.color(vUv), tex.holo(h2), tex.ultraRare(h2), uRarity);
  }

  /**
   * The hologram weight grows with brightness; it is 0.3 for black and
   * 0.5 for white, the ends of its range.
   */
  lemma HoloWeightRange(c: Vec3, d: Vec3)
    ensures c == Vec3(1.0, 1.0, 1.0) ==> HoloWeight(c) == 0.5
    ensures c == Vec3(0.0, 0.0, 0.0) ==> HoloWeight(c) == 0.3
    ensures Brightness(c) <= Brightness(d) ==> HoloWeight(c) <= HoloWeight(d)
  {
  }

  /**
   * The hologram tier moves each channel of the photo toward the overlay
   * by the brightness-derived weight; for colours of [0,1] every output
   * channel lies between the photo's channel and the overlay's.
   */
  lemma HoloBlend(baseColor: Vec4, holoColor: Vec4, ultraRareColor: Vec4)
    ensures var c := Fragment(baseColor, holoColor, ultraRareColor, Holo);
            var w := HoloWeight(baseColor.Rgb());
            && c.r - baseColor.r == w * (holoColor.r - baseColor.r)
            && c.g - baseColor.g == w * (holoColor.g - baseColor.g)
            && c.b - baseColor.b == w * (holoColor.b - baseColor.b)
    ensures UnitRgb(baseColor.Rgb()) ==>
            var c := Fragment(baseColor, holoColor, ultraRareColor, Holo);
            && Min(baseColor.r, holoColor.r) <= c.r <= Max(baseColor.r, holoColor.r)
            && Min(baseColor.g, holoColor.g) <= c.g <= Max(baseColor.g, holoColor.g)
            && Min(baseColor.b, holoColor.b) <= c.b <= Max(baseColor.b, holoColor.b)
  {
    var base, holo := baseColor.Rgb(), holoColor.Rgb();
    var w := HoloWeight(base);
    var c := Fragment(baseColor, holoColor, ultraRareColor, Holo);
    assert c.r == Mix(base.r, holo.r, w);
    assert c.g == Mix(base.g, holo.g, w);
    assert c.b == Mix(base.b, holo.b, w);
    MixOffset(base.r, holo.r, w);
    MixOffset(base.g, holo.g, w);
    MixOffset(base.b, holo.b, w);
    if UnitRgb(base) {
      MixBetween(base.r, holo.r, w);
      MixBetween(base.g, holo.g, w);
      MixBetween(base.b, holo.b, w);
    }
  }

  /**
   * The gold tier averages the gold-tinted photo with the overlay: red is
   * the mean of the two reds, green weighs the photo by 0.4, and blue is
   * half the overlay's blue whatever the photo's blue is.
   */
  lemma GoldChannels(baseColor: Vec4, holoColor: Vec4, ultraRareColor: Vec4)
    ensures Fragment(baseColor, holoColor, ultraRareColor, Gold)
         == Vec4((baseColor.r + holoColor.r) / 2.0,
                 0.4 * baseColor.g + 0.5 * holoColor.g,
                 holoColor.b / 2.0,
                 1.0)
  {
  }

  /** A pure red photo in the gold tier gives the mean of red and the overlay. */
  lemma GoldPureRed(holoColor: Vec4, ultraRareColor: Vec4)
    ensures var c := Fragment(Vec4(1.0, 0.0, 0.0, 1.0), holoColor, ultraRareColor, Gold);
            && c.r == 0.5 + holoColor.r / 2.0
            && c.g == holoColor.g / 2.0
            && c.b == holoColor.b / 2.0
            && c.a == 1.0
  {
    GoldChannels(Vec4(1.0, 0.0, 0.0, 1.0), holoColor, ultraRareColor);
  }

  /**
   * The ultra-rare tier weighs the photo by 0.4 and the ultra-rare overlay
   * by 0.6, and ignores the hologram sample.
   */
  lemma UltraRareChannels(baseColor: Vec4, holoColor: Vec4, ultraRareColor: Vec4, otherHolo: Vec4)
    ensures Fragment(baseColor, holoColor, ultraRareColor, UltraRare)
         == Vec4(0.4 * baseColor.r + 0.6 * ultraRareColor.r,
                 0.4 * baseColor.g + 0.6 * ultraRareColor.g,
                 0.4 * baseColor.b + 0.6 * ultraRareColor.b,
                 1.0)
    ensures Fragment(baseColor, holoColor, ultraRareColor, UltraRare)
         == Fragment(baseColor, otherHolo, ultraRareColor, UltraRare)
  {
  }

  /** The output ignores the alpha of every sample. */
  lemma FragmentIgnoresAlpha(baseColor: Vec4, holoColor: Vec4, ultraRareColor: Vec4, uRarity: real,
                             a1: real, a2: real, a3: real)
    ensures Fragment(baseColor, holoColor, ultraRareColor, uRarity)
         == Fragment(baseColor.(a := a1), holoColor.(a := a2), ultraRareColor.(a := a3), uRarity)
  {
  }

  /**
   * Every tier is a convex mix, so samples with channels in [0,1] give an
   * opaque output with channels in [0,1].
   */
  lemma FragmentInUnit(baseColor: Vec4, holoColor: Vec4, ultraRareColor: Vec4, uRarity: real)
    requires UnitRgb(baseColor.Rgb()) && UnitRgb(holoColor.Rgb()) && UnitRgb(ultraRareColor.Rgb())
    ensures UnitRgba(Fragment(baseColor, holoColor, ultraRareColor, uRarity))
  {
    var base, holo, ultra := baseColor.Rgb(), holoColor.Rgb(), ultraRareColor.Rgb();
    if uRarity == Holo {
      Mix3InUnit(base, holo, HoloWeight(base));
    } else if uRarity == Gold {
      Mix3InUnit(Mul3(base, GoldTint), holo, 0.5);
    } else if uRarity == UltraRare {
      Mix3InUnit(base, ultra, 0.6);
    }
  }

  /** The shaded fragment of textures with channels in [0,1] lies in [0,1]. */
  lemma ShadeInUnit(tex: Textures, uMouse: Vec2, uRarity: real, vUv: Vec2)
    requires UnitRgb(tex.color(vUv).Rgb())
    requires UnitRgb(tex.holo(HoloUv(vUv, uMouse)).Rgb())
    requires UnitRgb(tex.ultraRare(HoloUv(vUv, uMouse)).Rgb())
    ensures UnitRgba(Shade(tex, uMouse, uRarity, vUv))
  {
    var h := HoloUv(vUv, uMouse);
    FragmentInUnit(tex.color(vUv), tex.holo(h), tex.ultraRare(h), uRarity);
  }
}
