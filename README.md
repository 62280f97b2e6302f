# Card maker: holographic card shading and tilt damping

A model of the two pieces of logic in the card maker's `src/App.jsx`:

- **The fragment shader** (module `CardShader`, with the GLSL built-ins it
  uses in module `Glsl`). For one fragment it samples the photo at the UV,
  then shifts the overlay coordinate by half the pointer with the y axis
  flipped, and samples the hologram and ultra-rare overlays there. It then
  picks a colour by the rarity uniform: the photo (0), a brightness-weighted
  mix with the hologram (1), a gold-tinted photo mixed half-and-half with the
  hologram (2), or a 0.6 mix with the ultra-rare overlay (3). Alpha is always
  1. Textures are total functions from UV to an RGBA colour, so sampling is
  an input to the model.
- **The per-frame callback** of the `Card` component (module `CardMotion`).
  A `Card` object has a hover flag and possibly-null references to a `Mesh`
  (its rotation) and a `Material` (its `uMouse` and `uRarity` uniforms).
  `Card.Frame` copies the pointer and rarity into a mounted material. It
  also steps a mounted mesh's rotation by `angle += (target - angle) * delta*5`.
  The target is `(-0.5*py, 0.5*px)` when hovered and `(0,0)` otherwise.
  The pure functions `TargetRotation`, `Step` and `Iterate` specify the
  step, and the lemmas about them state its behaviour (no overshoot,
  geometric convergence, overshoot above factor 1).

All colour, UV and angle quantities are exact `real`s. The rarity uniform is
a `real`, compared for equality against 0.0, 1.0, 2.0 and 3.0 as the shader
does. Any other value falls through to the photo's colour. The damping factor
`delta * 5` has no clamp and `delta` has no guard, and the model keeps both.
`StepOvershootsWhenFactorAboveOne` shows what the step does when
`5*delta > 1`.

## Model

| member | source | states |
|---|---|---|
| `Glsl.Mix` | src/App.jsx:54 | GLSL `mix` returns its first argument at weight 0, its second at weight 1, and the common value when both are equal |
| `Glsl.Mix3` | src/App.jsx:54-63 | the channel-wise `mix` of the three blends returns the first colour at weight 0 and the second at weight 1 |
| `Glsl.Mul3` | src/App.jsx:58 | the channel-wise product used for the gold tint is the identity for a white tint and zeroes every channel whose tint is 0 |
| `Glsl.Dot` | src/App.jsx:53 | the dot product is 0 when either vector is zero |
| `Glsl.MixOffset` | src/App.jsx:54 | the mix moves from `x` by the fraction `a` of `y - x`, leaving `(1-a)` of the distance to `y` |
| `Glsl.MixBetween` | src/App.jsx:54 | with a weight in [0,1] the mix lies between its two ends |
| `Glsl.MixInUnit` | src/App.jsx:59 | mixing two values of [0,1] with a weight in [0,1] stays in [0,1] |
| `Glsl.Mix3InUnit` | src/App.jsx:63 | the same channel by channel for RGB colours |
| `CardShader.HoloUv` | src/App.jsx:40-42 | the shift is invertible: the pointer is recovered as `(2*(holoUv.x - vUv.x), 2*(vUv.y - holoUv.y))` |
| `CardShader.Brightness` | src/App.jsx:53 | the luma of a colour of [0,1]³ lies in [0,1]; white gives exactly 1 and black 0 |
| `CardShader.HoloWeight` | src/App.jsx:54 | for a photo colour of [0,1]³ the hologram weight `0.3 + 0.2*brightness` lies in [0.3,0.5] |
| `CardShader.FinalColor` | src/App.jsx:47-64 | every rarity other than 1, 2 and 3 leaves the colour at the photo's RGB |
| `CardShader.Fragment` | src/App.jsx:47-66 | the output alpha is 1 for every sample and every rarity |
| `CardShader.Shade` | src/App.jsx:36-67 | the shader's `main` outputs alpha 1 for every texture, pointer, rarity and UV |
| `CardShader.HoloUvCentredPointer` | src/App.jsx:40-42 | a pointer at (0,0) leaves the overlay coordinate equal to the UV |
| `CardShader.HoloUvCompose` | src/App.jsx:40-42 | the overlay shift is a translation: two shifts add, and the opposite pointer undoes a shift |
| `CardShader.HoloUvShiftBound` | src/App.jsx:40-42 | a pointer in [-1,1]² shifts each overlay coordinate by at most 0.5 |
| `CardShader.ShadeSamplesAtHoloUv` | src/App.jsx:37-45 | the output depends only on the photo at the UV and on both overlays at the one shifted coordinate |
| `CardShader.ShadeCentredPointer` | src/App.jsx:37-45 | with the pointer at (0,0) all three textures are read at the fragment's UV |
| `CardShader.NormalKeepsBase` | src/App.jsx:47-51 | rarity 0, and every rarity outside {1,2,3}, outputs the photo's RGB with alpha 1, whatever the overlays hold |
| `CardShader.NormalIgnoresPointer` | src/App.jsx:40-51 | outside the overlay tiers the pointer does not affect the output |
| `CardShader.HoloWeightRange` | src/App.jsx:53-54 | the hologram weight is monotone in brightness; white gives exactly 0.5 and black 0.3 |
| `CardShader.HoloBlend` | src/App.jsx:52-54 | rarity 1 moves each photo channel toward the hologram by that weight; for a base colour in [0,1]³ each output channel lies between the two samples' channels |
| `CardShader.GoldChannels` | src/App.jsx:56-59 | rarity 2 gives red `(b.r+h.r)/2`, green `0.4*b.g+0.5*h.g` and blue `h.b/2` whatever the photo's blue is, with alpha 1 |
| `CardShader.GoldPureRed` | src/App.jsx:56-59 | a pure red photo in the gold tier gives `(0.5+h.r/2, h.g/2, h.b/2, 1)` |
| `CardShader.UltraRareChannels` | src/App.jsx:61-63 | rarity 3 gives `0.4*base + 0.6*ultraRare` per channel and does not depend on the hologram sample |
| `CardShader.FragmentIgnoresAlpha` | src/App.jsx:47-66 | the alpha of every sample is ignored |
| `CardShader.FragmentInUnit` | src/App.jsx:47-66 | samples with RGB in [0,1]³ give an output with every channel in [0,1], for every rarity |
| `CardShader.ShadeInUnit` | src/App.jsx:36-67 | the same for the whole shader, given the three samples it reads |
| `CardMotion.DampFactor` | src/App.jsx:101 | a delta in [0,0.2] seconds gives a damping factor in [0,1] |
| `CardMotion.TargetRotation` | src/App.jsx:93-99 | the target is (0,0) when the card is not hovered; when hovered the pointer is recovered from the target as `(2*t.y, -2*t.x)` |
| `CardMotion.Step` | src/App.jsx:101-105 | an angle at its target stays there, and a zero delta leaves the angle unchanged |
| `CardMotion.Iterate` | src/App.jsx:86-107 | over n frames with a fixed target and delta, an angle starting at the target never leaves it and a zero delta never moves it |
| `CardMotion.TargetBounds` | src/App.jsx:96-99 | a pointer in [-1,1]² gives target angles in [-0.5,0.5] |
| `CardMotion.StepRemaining` | src/App.jsx:101-105 | one step leaves `(1 - 5*delta)` of the signed distance to the target and moves by `5*delta` of it |
| `CardMotion.StepFixedPoint` | src/App.jsx:101-105 | an angle stays put exactly when it is at the target or delta is 0 |
| `CardMotion.StepNoOvershoot` | src/App.jsx:101-105 | with `0 <= 5*delta <= 1` the new angle lies between the old angle and the target, its distance to the target is `(1-5*delta)` times the old one, and it moves by no more than the old distance |
| `CardMotion.StepOvershootsWhenFactorAboveOne` | src/App.jsx:101-105 | with `5*delta > 1` the step crosses the target from either side: an angle below it ends above it, and one above it ends below it |
| `CardMotion.StepStrictlyApproaches` | src/App.jsx:101-105 | with `0 < 5*delta <= 1` an angle off its target gets strictly closer to it in one frame |
| `CardMotion.WorkedStep` | src/App.jsx:93-105 | delta 0.1, hovered, pointer (1,-1) from (0,0): target (0.5,0.5), factor 0.5, new rotation (0.25,0.25) |
| `CardMotion.RelaxTowardNeutral` | src/App.jsx:93-105 | when not hovered and `0 <= 5*delta <= 1` an angle's size never grows |
| `CardMotion.IterateApproaches` | src/App.jsx:101-105 | with `0 <= 5*delta <= 1` repeated frames stay between the start and the target and never move away from the target |
| `CardMotion.IterateRemaining` | src/App.jsx:101-105 | after n frames the signed distance to the target is the first distance scaled n times by `1 - 5*delta` |
| `CardMotion.IterateClosedForm` | src/App.jsx:101-105 | after n frames the signed distance to the target is `(1-5*delta)^n` times the first |
| `CardMotion.PowDecay` | src/App.jsx:101 | for a factor k in [0,1], `(1-k)^n * (1 + n*k) <= 1` |
| `CardMotion.IterateDecay` | src/App.jsx:101-105 | with `0 <= 5*delta <= 1`, after n frames the distance to the target times `1 + 5*delta*n` is at most the first distance |
| `CardMotion.ConvergedAfter` | src/App.jsx:101-105 | with `0 < 5*delta <= 1`, once `n * 5*delta * eps` exceeds the first distance the angle is within eps of its target |
| `CardMotion.IterateConverges` | src/App.jsx:101-105 | with `0 < 5*delta <= 1` the angle converges: for every eps > 0 some frame count N keeps every later frame within eps of the target |
| `CardMotion.Mesh.constructor` | src/App.jsx:110-111 | the mesh starts with rotation (0,0) |
| `CardMotion.Material.constructor` | src/App.jsx:116-122 | the material starts with `uMouse` (0,0), its default at line 15, and `uRarity` equal to the rarity prop |
| `CardMotion.Card.constructor` | src/App.jsx:76-80 | the card starts not hovered, with the given mesh and material references |
| `CardMotion.Card.PointerOver` | src/App.jsx:112 | pointer-enter sets the hover flag |
| `CardMotion.Card.PointerOut` | src/App.jsx:113 | pointer-leave clears the hover flag |
| `CardMotion.Card.Frame` | src/App.jsx:86-107 | a mounted material gets the pointer and rarity unchanged; a mounted mesh's angles become `Step` of the old angles toward `TargetRotation(hovered, pointer)`; nothing else changes |
| `CardMotion.WorkedFrame` | src/App.jsx:86-113 | driving a card through pointer-enter and one frame of delta 0.1 with the pointer at (1,-1) rotates its mesh from (0,0) to (0.25,0.25) |

## Left out

- Floating point: GLSL and JavaScript compute in binary floating point; the model uses exact reals, so rounding and NaN are not modelled.
- Texture loading and sampling: `useTexture`, `THREE.Texture`, wrap and clamp modes and the not-yet-loaded state are library code; the three textures are given as functions from UV to colour.
- The unused `uTime` uniform (lines 11 and 28) has no effect on the output.
- The vertex shader, `Canvas`, camera, light, plane geometry and `Suspense` are rendering plumbing with no logic of their own.
- The `App` component, its buttons, `btnStyle`, the rarity state and `handleImageUpload` (file upload through `URL.createObjectURL`) are user interface and browser I/O.
- `useFrame` scheduling: the frame loop that calls `Card.Frame` and supplies `delta` and the pointer is external; `delta` and the pointer are parameters.
- Card.Frame: the source assigns the pointer object itself to `uMouse`, so the uniform aliases the live pointer; the model copies its value at the frame.
- Card.constructor: the mesh and material references are fixed when the card is built. In the source they are refs (lines 77-78) that stay empty until React attaches the mesh and the material (lines 111 and 117); the move from unmounted to mounted is not modelled.
- Card.PointerOver: `setHover` (lines 112-113) is a React state update, so the frame callback sees the new flag only after the next render; the model sets the flag at once. The same holds for Card.PointerOut.
- Iterate: the convergence lemmas hold the target and delta fixed across frames; frames of varying length or a moving pointer are covered only one frame at a time, by the Step lemmas.
