# gravity-sim in Dafny

A model of the core of gravity-sim, a 2D N-body gravity sandbox written in Go. The model covers the following parts:

- **Physics.** The vector and body values, the softened, anti-gravity-aware acceleration sum, and the in-place semi-implicit Euler sweep.
- **Simulator.** The simulator built from an environment configuration, together with the configuration's post-processing: hex colours and automatic orbital velocities.
- **Game bookkeeping without drawing.** The Game object keeps, per body, a last position and a fading trail. It also holds a two-slot selection of bodies, force histories for the selected pair, and an add-body tool. A reset reloads the configuration.
- **Drawing integers.** The integer part of the drawing code: the Bresenham loop of `drawLine` as a generator of visited and plotted pixels, and the axis range of the force graph.

Modules, one file each:

| file | module | models |
|---|---|---|
| wrappers.dfy | Wrappers | Option / Result for the error paths |
| colors.dfy | Colors | `color.RGBA` and the colour constants |
| vectors.dfy | Vectors | `Vec2` of pkg/physics/body.go |
| physics.dfy | Physics | `Body`, `Body.Update`, `ComputeAcceleration` |
| integrator.dfy | Integrator | `IntegrateEulerSymplectic` |
| config.dfy | Config | `EnvironmentConfig`, `BodyConfig`, `parseColor`, `SetOrbitalVelocities` |
| simulation.dfy | Simulation | `Simulator`, `NewSimulator`, `Simulator.Update`, `LoadConfig` after decoding |
| drawing.dfy | Drawing | `drawLine`, the range computation of `drawForceGraph` |
| interaction.dfy | Interaction | `pointInRect`, selection, hit test, histories, trails, force readout |
| game.dfy | GameState | the `Game` object: add body, click, the L/V and mass/radius keys, `advanceOneStep`, pause tick, `resetSimulation`, start-up |

Floating point is modelled as `real`. `math.Sqrt` and `math.Hypot` are library code, so every operation that needs a root takes it as a parameter `sqrt: real -> real`:

- Structural facts hold for any such function.
- Metric facts assume `IsSqrt(sqrt)`, the exact non-negative square root.
- `math.Hypot(dx, dy)` is the root of `dx*dx + dy*dy`.

Go's `Body` is a value type that is copied into slices, so it is a datatype here. The pointer-receiver `Body.Update` is a function that returns the updated body. `Integrator.StepBody` is its imperative form, the loop body of the integrator. Arrays that the source mutates in place are Dafny arrays:

- the body slice in the integrator;
- the configuration slice in `SetOrbitalVelocities`;
- the trail slice that `advanceOneStep` compacts.

The Game object is a class whose fields are the Go struct's fields.

### Behaviour worth knowing

- **The integrator sweep is Gauss-Seidel.** The comment at pkg/physics/integrator.go:7 speaks of the current positions of all bodies. Those are the positions in the array at that moment: in iteration i, the bodies before i have already moved. `Integrator.MixedSnapshot` states exactly this.
- **The self-exclusion test never fires.** The comment at pkg/physics/gravity.go:10 says the same body is skipped. But the test `&b1 == &b2` compares the addresses of two distinct local variables, so it never holds, and the model sums over every element. `Physics.SelfContributesNothing` proves that the body's own term is zero anyway: `dir` is zero and `Normalize` maps it to zero.
- **The colour fix-up is a no-op after loading.** main.go replaces the zero colour by the default colour after loading. `parseColor` always returns alpha 255, so this never changes a loaded body (`GameState.FixedColorsOfBuilt`). The model keeps the fix-up anyway.

## Model

| member | source | states |
|---|---|---|
| Vectors.Vec2.Add | pkg/physics/body.go:13-15 | the component-wise sum; adding (0,0) on either side gives the other operand back (AddZero, and AddSubInverse for its inverse Sub) |
| Vectors.Vec2.Sub | pkg/physics/body.go:17-19 | subtracting a vector from itself gives the zero vector |
| Vectors.Vec2.Mul | pkg/physics/body.go:21-23 | scaling by 0 gives zero, scaling by 1 gives the vector back |
| Vectors.Vec2.Normalize | pkg/physics/body.go:29-35 | a zero-length vector normalises to (0,0) without any division |
| Vectors.AddSubInverse | pkg/physics/body.go:13-19 | Sub undoes Add and Add undoes Sub |
| Vectors.AddZero | pkg/physics/body.go:13-15 | (0,0) is the identity of Add on both sides |
| Vectors.NormNonNegative | pkg/physics/body.go:25-27 | the squared length is non-negative and zero only for (0,0) |
| Vectors.Vec2.Len | pkg/physics/body.go:25-27 | the root of x² + y², the squared length Norm2; it carries no contract of its own, and RootOf, LenZeroIff and NormalizeUnit state its metric facts |
| Vectors.RootOf | pkg/physics/body.go:25-27 | an exact root is non-negative, squares back, and is zero only at zero |
| Vectors.LenZeroIff | pkg/physics/body.go:25-27 | Len is non-negative, is zero exactly for the zero vector, and squares to the squared length |
| Vectors.NormalizeZero | pkg/physics/body.go:29-33 | Normalize of the zero vector is the zero vector |
| Vectors.NormalizeUnit | pkg/physics/body.go:25-35 | a nonzero vector has positive length and normalises to squared length 1; scaled back by its length the result is the vector, so it points the same way |
| Physics.Body.Update | pkg/physics/body.go:52-62 | Acc becomes the gravity sum; a locked body keeps Pos and gets zero Vel; an unlocked body gets Vel + Acc*dt and then moves by the NEW velocity; Mass, Radius, colour, Locked and Anti never change |
| Physics.SoftDist2 | pkg/physics/gravity.go:7-16 | the softened squared distance is at least epsilon² = 25, so never zero |
| Physics.ComputeAcceleration | pkg/physics/gravity.go:5-27 | the loop's accumulated force equals the recursive in-order sum AccelSum over every element of `others` |
| Physics.ContributionFactor | pkg/physics/gravity.go:15-22 | a contribution is Normalize(dir) times G·m2/d2, signed by the source's Anti, so the observer's mass cancels |
| Physics.Contribution | pkg/physics/gravity.go:15-22 | one loop iteration's term: the acceleration one source gives the observer; a source of mass 0 gives none. ContributionFactor gives its closed form |
| Physics.AccelSum | pkg/physics/gravity.go:7-25 | the acceleration ComputeAcceleration accumulates: the sum of every element's Contribution in slice order, the self copy included. It carries no contract of its own; ComputeAcceleration's loop is proved equal to it, and AccelEmpty, AccelAppend, AccelConcat and AccelMassless state its algebra |
| Physics.MagnitudePerMass | pkg/physics/gravity.go:17-22 | the signed force divided by m1 is the per-mass pull, for either Anti flag |
| Physics.MassCancels | pkg/physics/gravity.go:17-22 | (G·m1·m2/d2)/m1 = G·m2/d2 |
| Physics.AttractionTowardsSource | pkg/physics/gravity.go:15-22 | an ordinary source of non-negative mass contributes a non-negative multiple G·m2/d2 of Normalize(dir) |
| Physics.AntiNegates | pkg/physics/gravity.go:19-21 | flipping the source's Anti flag negates exactly its contribution |
| Physics.CoLocatedContributesNothing | pkg/physics/gravity.go:15-22 | a source at the observer's position contributes the zero vector |
| Physics.SelfContributesNothing | pkg/physics/gravity.go:10-15 | the observer's own copy, which the never-true address test does not skip, contributes zero |
| Physics.AccelEmpty | pkg/physics/gravity.go:6-26 | an empty slice yields the zero acceleration |
| Physics.AccelMassless | pkg/physics/gravity.go:9-24 | if every source has mass 0, the sum is the zero vector, proved by induction over the slice |
| Physics.AccelAppend | pkg/physics/gravity.go:9-24 | appending a body adds exactly its contribution to the previous sum |
| Physics.AccelConcat | pkg/physics/gravity.go:9-24 | the sum over a concatenation is the sum of the two sums |
| Physics.AccelSingle | pkg/physics/gravity.go:9-24 | the sum over one body is that body's contribution |
| Physics.AccelReplace | pkg/physics/gravity.go:9-24 | replacing element k changes the sum by exactly the difference of the two contributions |
| Physics.AccelAntiFlip | pkg/physics/gravity.go:19-23 | flipping Anti on source k moves the sum by minus twice that source's contribution |
| Physics.AccelDependsOnlyOnPosition | pkg/physics/gravity.go:5-22 | the observer's mass, velocity, acceleration, Locked and Anti never affect the sum, only its position |
| Physics.TwoBodyPull | pkg/physics/gravity.go:5-27 | over [b1, b2] with an ordinary b2 the acceleration is Normalize(dir) times G·m2/(\|dir\|² + 25) |
| Physics.SelfTermVanishes | pkg/physics/gravity.go:9-24 | over [b1, b2] the sum is b2's contribution alone |
| Physics.OrdinaryContribution | pkg/physics/gravity.go:15-22 | with an exact root an ordinary source contributes Normalize(dir) times G·m2/(\|dir\|² + 25) |
| Physics.SoftDist2Exact | pkg/physics/gravity.go:16 | with an exact root the softened distance is \|dir\|² + 25 |
| Physics.UpdateZeroDt | pkg/physics/body.go:59-61 | with dt = 0 a body keeps its position, and an unlocked one its velocity |
| Integrator.Sweep | pkg/physics/integrator.go:6-21 | after i iterations the length is unchanged, no body's fixed properties changed and the bodies from i on are untouched |
| Integrator.Step | pkg/physics/integrator.go:4-23 | the full sweep keeps the length, every non-zero mass and every fixed property |
| Integrator.StepBody | pkg/physics/integrator.go:8-20 | the loop body (recompute Acc; zero Vel if locked; else Vel then Pos) has the effect of Body.Update |
| Integrator.Integrate | pkg/physics/integrator.go:4-23 | in place on the array, which is returned: the new contents are the full sweep Step of the old ones |
| Integrator.Settled | pkg/physics/integrator.go:6-21 | once iteration i is behind, bodies before i are never written again |
| Integrator.MidSweep | pkg/physics/integrator.go:6-8 | at iteration i the array is the final bodies before i followed by the original bodies from i on |
| Integrator.MixedSnapshot | pkg/physics/integrator.go:6-8 | body k of the result is body k updated against final[..k] + original[k..] |
| Integrator.FirstSeesOldState | pkg/physics/integrator.go:6-8 | the first body is stepped against the untouched input |
| Integrator.StepEffect | pkg/physics/integrator.go:8-20 | per body: Acc is the sum over the mixed array; locked keeps Pos and gets Vel 0; unlocked gets Vel + Acc·dt, then Pos + Vel'·dt |
| Integrator.StepZeroDt | pkg/physics/integrator.go:17-20 | with dt = 0 every position and every unlocked velocity is unchanged |
| Integrator.Steps | pkg/simulation/simulator.go:36-38 | repeated sweeps keep the length, the masses and the fixed properties |
| Integrator.LockedStaysPut | pkg/physics/integrator.go:10-14 | a locked body keeps its position over any number of sweeps |
| Integrator.LockedStepKeepsPlace | pkg/physics/integrator.go:10-14 | one sweep leaves a locked body where it is |
| Config.HexValue | pkg/simulation/config.go:74 | a hex digit of either case has a value below 16 |
| Config.HexChar | pkg/simulation/config.go:74 | the digit written for a value below 16 is a hex digit reading back as that value |
| Config.ParseColor | pkg/simulation/config.go:71-80 | alpha is always 255; any string that is not '#' and six hex digits yields {200,200,255,255} |
| Config.FormatColor | pkg/simulation/config.go:71-80 | the canonical spelling of a colour is accepted by parseColor's shape test (the partner of ParseColor) |
| Config.HexByteOfChars | pkg/simulation/config.go:74 | the two digits of a byte read back as that byte |
| Config.ParseFormat | pkg/simulation/config.go:73-77 | parsing the canonical spelling of a colour gives it back with alpha 255 |
| Config.LowerHex | pkg/simulation/config.go:74 | the lower-case form of a hex digit has the same value |
| Config.HexCharsOfByte | pkg/simulation/config.go:74 | a byte read from two digits is written back as their lower-case forms |
| Config.HexCharOfValue | pkg/simulation/config.go:74 | a lower-case digit is the one written for its value |
| Config.FormatParse | pkg/simulation/config.go:73-77 | every '#rrggbb' string parses to the colour whose canonical spelling is that string in lower case |
| Config.OrbitPerpendicular | pkg/simulation/config.go:40-46 | the assigned velocity is perpendicular to the offset: vx·dx + vy·dy = 0 |
| Config.OrbitVelocity | pkg/simulation/config.go:40-46 | the velocity sqrt(G·m0/r) along the offset turned a quarter turn anticlockwise; a satellite on the vertical through the centre moves horizontally, one on the horizontal moves vertically. OrbitPerpendicular (direction up to sense), OrbitSpeed (speed) and OrbitAnticlockwise (sense) pin it down |
| Config.OrbitAnticlockwise | pkg/simulation/config.go:40-46 | with an exact root and a non-negative central mass, the cross product dx·vy − dy·vx of the offset and the velocity is r·speed ≥ 0, and > 0 for a positive mass: the orbit runs anticlockwise |
| Config.OrbitAround | pkg/simulation/config.go:40-46 | the velocity given to a satellite around body 0, perpendicular to the satellite's offset from body 0 |
| Config.Perpendicular | pkg/simulation/config.go:45-46 | (-dy/r·v, dx/r·v) is orthogonal to (dx, dy) |
| Config.WithOrbits | pkg/simulation/config.go:28-48 | the slice after SetOrbitalVelocities has the same length |
| Config.SatelliteVelocity | pkg/simulation/config.go:40-46 | dx, dy, r = Hypot, v = sqrt(G·M0/r) give (-dy/r·v, dx/r·v), the velocity around the central body |
| Config.SetOrbitalVelocities | pkg/simulation/config.go:28-48 | in place, the array becomes WithOrbits of its old contents |
| Config.OrbitsEmpty | pkg/simulation/config.go:29-31 | an empty slice is left as it is |
| Config.OrbitsEffect | pkg/simulation/config.go:32-47 | entry 0 and every moving satellite are unchanged; a resting satellite changes only Vel, to the orbit velocity; Mass, Pos, Color and Radius stay |
| Config.OrbitsPerpendicular | pkg/simulation/config.go:40-46 | every assigned velocity is perpendicular to the satellite's offset from entry 0 |
| Config.OrbitSpeed | pkg/simulation/config.go:42-46 | with an exact root the assigned speed squared is G·M0/r, the circular-orbit speed |
| Config.HypotSquares | pkg/simulation/config.go:42 | a nonzero Hypot is positive and squares back to dx² + dy² |
| Config.OrbitExample | pkg/simulation/config.go:28-48 | a mass-1000 centre and a resting satellite at (100, 0) send the satellite along +y at sqrt(6.6743); a worked instance of OrbitVelocity, OrbitSpeed and OrbitAnticlockwise |
| Simulation.FromConfig | pkg/simulation/simulator.go:19-25 | the body built from one entry: no acceleration, not locked, not anti, and an opaque colour. BuiltEntries states the copied fields |
| Simulation.Built | pkg/simulation/simulator.go:16-26 | one body per configuration entry |
| Simulation.Simulator.constructor | pkg/simulation/simulator.go:15-33 | Name and Dt are copied; the new body array holds one body per entry, in order |
| Simulation.Simulator.Update | pkg/simulation/simulator.go:36-38 | the bodies become one integrator sweep with Dt; Name, Dt and the array stay |
| Simulation.BuiltEntries | pkg/simulation/simulator.go:19-25 | each body copies Mass, Pos, Vel and Radius, takes parseColor's colour, and starts with Acc 0, unlocked, not anti |
| Simulation.BuiltConcat | pkg/simulation/simulator.go:18-26 | the bodies of a concatenation are the concatenated bodies: order is kept |
| Simulation.BuiltNeverTransparent | pkg/simulation/simulator.go:24 | no body built from a configuration has the zero colour |
| Simulation.Prepared | pkg/simulation/config.go:62-66 | orbit gating keeps Name, Dt and the number of bodies |
| Simulation.LoadConfig | pkg/simulation/config.go:51-68 | a decoding error is returned; otherwise a fresh simulator with Name and Dt, whose bodies are NewSimulator's for the configuration orbited exactly when AutoOrbit is set |
| Simulation.LoadKeepsVelocities | pkg/simulation/config.go:62-66 | without AutoOrbit every configured velocity reaches the simulator unchanged |
| Simulation.LoadAssignsOrbits | pkg/simulation/config.go:62-66 | with AutoOrbit a resting satellite starts on its orbit velocity, every other body on its configured one |
| Drawing.Abs | main.go:582 | the absolute value is non-negative and is n or -n |
| Drawing.Round | main.go:578-581 | math.Round: within 0.5 of x, and halves go away from zero |
| Drawing.RoundOdd | main.go:578-581 | rounding commutes with negation |
| Drawing.OnScreenPoints | main.go:594-596 | the plotted points are no more than the visited ones |
| Drawing.OnScreenPointsMembers | main.go:594-596 | a point is plotted exactly when it is visited and on the 1920×1000 screen |
| Drawing.StepRule | main.go:600-608 | short of the end point, along each axis the loop moves only with room left, it always moves, and the longer axis always moves |
| Drawing.DeviationIs | main.go:590-605 | err's accumulated deviation is dx·ny + dy·nx |
| Drawing.LoopStateInBox | main.go:593-599 | a loop state lies in the box of the end points and is at the end exactly when both move counts are full |
| Drawing.BresenhamStep | main.go:600-608 | one pass moves to an adjacent pixel, keeps the loop state, and moves the longer axis |
| Drawing.ChainExtend | main.go:593-609 | visiting the current point and moving to an adjacent one extends the chain of visited points |
| Drawing.ChainPoints | main.go:593-609 | a chain starts at the first end point, is adjacent step by step and stays in the box |
| Drawing.LineClosed | main.go:597-599 | a chain reaching the end point after max(\|dx\|,\|dy\|) moves is a complete line |
| Drawing.OnScreenPointsSnoc | main.go:594-596 | visiting one more point plots it exactly when it is on screen |
| Drawing.Visit | main.go:594-596 | the point is appended to the visited list and plotted when on screen |
| Drawing.Bresenham | main.go:582-609 | the loop ends; visited points run from start to end in max(\|dx\|,\|dy\|) single-pixel moves inside the box; plotted = the visited points on screen |
| Drawing.DrawLine | main.go:577-610 | the same for the rounded end points |
| Drawing.MinMaxBounds | main.go:660-669 | the running min and max are elements of the data and bound every element |
| Drawing.AxisRangeContains | main.go:670-683 | the range is non-empty, contains [lo, hi], and is symmetric about 0 when both signs occur |
| Drawing.AxisRange | main.go:656-683 | no range for empty data, otherwise the range of the data's min and max as the loop finds them |
| Drawing.AxisRangeCoversData | main.go:656-683 | every data value lies inside the non-empty axis range |
| Interaction.PointInRect | main.go:1130-1132 | the closed rectangle test; only a rectangle of non-negative width and height contains a point. PointInRectEdges pins down its edges |
| Interaction.MouseWorld | main.go:257 | the world position of a pixel, with the screen centre (960, 500) as origin: adding the centre back gives the pixel |
| Interaction.PointInRectEdges | main.go:1130-1132 | the rectangle is closed on all four edges and one pixel past any edge is outside |
| Interaction.MouseWorldCentre | main.go:285 | a pixel maps to the world origin exactly when it is the screen centre (960, 500) |
| Interaction.NoSelectionOk | main.go:1076-1077 | the start selection (-1, -1) is well formed and selects nothing |
| Interaction.NextSelection | main.go:296-316 | the selection after a click on body c: in a well-formed selection, c is selected afterwards exactly when it was not before. NextSelectionOk, NextSelectionToggles and NextSelectionClears pin it down |
| Interaction.NextSelectionOk | main.go:296-316 | every click transition keeps selB != -1 ⇒ selA != -1 ∧ selA != selB, with indices in range |
| Interaction.NextSelectionToggles | main.go:296-316 | the clicked body is selected afterwards exactly when it was not before; at most two are selected |
| Interaction.NextSelectionClears | main.go:298-309 | clicking the only selected body, or the first of two, clears the selection |
| Interaction.HitTest | main.go:285-295 | -1 exactly when no body is within its radius (and nearer than 1e18); otherwise a nearest such body, the lowest index on ties |
| Interaction.KeepLast | main.go:370-380 | the kept entries are the last min(n, \|h\|) entries, in order |
| Interaction.KeepLastAppend | main.go:364-380 | append-then-trim keeps the newest entry last, after the kept older entries |
| Interaction.KeepLastIdempotent | main.go:370-380 | trimming twice to one cap is trimming once |
| Interaction.ForceReadout | main.go:357-363 | the readout F = G·m1·m2/(d² + 1e-6) and its components along (dx, dy); a zero component of the separation gives a zero force component. ForceReadoutAlong and ForceReadoutSwap pin it down |
| Interaction.PairForce | main.go:351-363 | the readout of the selected pair over its Hypot separation; co-located bodies give zero components. PairForceBounded, PairForceAlongSeparation and PairForceSwap pin it down |
| Interaction.PairForceBounded | main.go:351-358 | for non-negative masses the readout lies in [0, G·m1·m2/1e-6] |
| Interaction.ForceReadoutAlong | main.go:358-363 | the readout components are parallel to (dx, dy) and point its way when F >= 0 |
| Interaction.PairForceAlongSeparation | main.go:351-363 | the pair's components are parallel to the separation b2 - b1, pointing the same way |
| Interaction.ForceReadoutSwap | main.go:354-363 | swapping the masses and negating the separation keeps F and negates Fx, Fy |
| Interaction.PairForceSwap | main.go:351-363 | swapping the selected bodies keeps F and negates both components |
| Interaction.HistoryCap | main.go:367-369 | the cap is forceHistoryMax when that is nonzero, and 600 when it is 0, so never 0 |
| Interaction.NewSegment | main.go:386-393 | the segment from the last position to the body's new one, in screen coordinates; it spans exactly the body's displacement. NewSegmentShape gives all its fields |
| Interaction.NewSegmentShape | main.go:386-393 | a new segment runs from the last position to the body, shifted by the screen centre, with life 120 in the body's colour |
| Interaction.Survivors | main.go:402-408 | every surviving segment has positive life, and no more survive than there were |
| Interaction.SurvivorsConcat | main.go:402-408 | segments are filtered one by one: survivors of a concatenation are the concatenated survivors (order kept) |
| Interaction.SurvivorsMembers | main.go:402-408 | a segment survives exactly when it is the faded copy of one of the trail's and has life left |
| Interaction.SurvivorsSnoc | main.go:403-407 | one more segment adds its faded copy exactly when it has life left |
| Interaction.FadeInto | main.go:404-407 | one iteration fades segment j and appends it to the kept prefix when it has life left; later entries stay |
| Interaction.CompactTrail | main.go:402-409 | in place, the first n entries become the faded survivors of the old trail, in order |
| Interaction.TrailStep | main.go:394-409 | after a step a trail has at most 600 segments, all with positive life |
| Interaction.TrailStepNewest | main.go:386-409 | when the new segment's life outlasts dt, the trail ends with it, faded once |
| Interaction.TrailStepDropsFaded | main.go:394-409 | every kept segment has positive life and is the faded copy of an old segment or of the new one |
| GameState.FixColor | main.go:1037-1039 | a body of the zero colour gets the default colour and nothing else changes; any other body is unchanged |
| GameState.ToggledLocked | main.go:111-117 | the L key on a body: Locked flips, the colour becomes grey when locked and the default colour when unlocked, and no other field changes |
| GameState.ToggledAnti | main.go:119-125 | the V key on a body: Anti flips, the colour becomes red when anti and the default colour otherwise, and no other field changes |
| GameState.ScaledMass | main.go:128-134 | only the mass changes, multiplied by the factor; a nonzero factor keeps a nonzero mass nonzero |
| GameState.ScaledRadius | main.go:135-140 | only the radius changes, multiplied by the factor; a positive factor keeps a positive radius positive |
| GameState.ToggledLockedTwice | main.go:111-117 | pressing L twice restores Locked but not a custom colour |
| GameState.ToggledAntiFlipsPull | main.go:119-125 | V on body k negates that body's contribution to any observer's acceleration, so the sum moves by twice the old term |
| GameState.ToggledLockedStaysPut | main.go:111-117 | a body that L has just locked keeps its position over the next sweep |
| GameState.FixedColorsOfBuilt | main.go:1065-1071 | the fix-up never changes a simulator built from a configuration |
| GameState.Positions | main.go:1032-1036 | one position per body, in order |
| GameState.InitHelpers | main.go:1063-1071 | every body's zero colour is fixed, lastPos[i] is body i's position and every trail is empty, one per body |
| GameState.AddedBody | main.go:257-274 | the body the add tool places: its colour is always opaque, so the colour fix-up leaves it alone. AddedBodyShape gives all its fields |
| GameState.AddedBodyShape | main.go:257-274 | the added body rests at the clicked position with the tool's mass, radius and flags, red if anti, grey if locked, else the default colour |
| GameState.AppendBody | main.go:276 | the new body array is the old bodies followed by the new one |
| GameState.UpdateTrail | main.go:386-409 | one body's trail bookkeeping yields TrailStep: append, cap at 600, fade and compact |
| GameState.PushHistory | main.go:364-380 | append-then-trim yields the last `cap` entries of the appended history |
| GameState.UpdateTrails | main.go:384-410 | every trail steps from its last position to its body, stays within 600 live segments, and every last position becomes its body's position |
| GameState.Game.constructor | main.go:1063-1081 | start-up establishes the invariant: one last position and one empty trail per body, no selection, cap 600, empty histories, tool, modal and pause off |
| GameState.Game.ToggleAddMode | main.go:216-224 | the Add button flips the tool; switched on, it resets to mass 100, radius 8, unlocked, attracting; switched off, its settings stay; no other field changes |
| GameState.Game.KeyLocked | main.go:101-117 | with the tool on, only the tool's Locked flag flips; otherwise body selA becomes ToggledLocked of itself (no change without a selection); every other body and field, and the invariant, are kept |
| GameState.Game.KeyAnti | main.go:101-126 | with the tool on, only the tool's Anti flag flips; otherwise body selA becomes ToggledAnti of itself (no change without a selection); every other body and field, and the invariant, are kept |
| GameState.Game.ScaleMass | main.go:127-134 | body selA becomes ScaledMass of itself, and nothing changes without a selection; no other body or field changes, the invariant is kept, and a nonzero factor keeps every mass nonzero as the integrator needs |
| GameState.Game.ScaleRadius | main.go:127-141 | body selA becomes ScaledRadius of itself, and nothing changes without a selection; no other body or field changes, and the invariant is kept |
| GameState.Game.ToggleComponents | main.go:226-231 | the Comp button flips the component view exactly when two bodies are selected; no other field changes |
| GameState.Game.SelectAt | main.go:284-322 | a click hits -1 exactly when no body is hittable; the hit body toggles in the selection as NextSelection says; a miss keeps it; the three histories are emptied exactly when the selection changes; no other field changes |
| GameState.Game.SetSelection | main.go:297-321 | the selection is set; the three histories are emptied exactly when it changed; no other field changes |
| GameState.Game.AddBodyAt | main.go:254-282 | the added body is appended to a new body array, with its last position and an empty trail; the invariant holds; no other field changes |
| GameState.Game.ClickWorld | main.go:252-322 | with the tool on: the body is appended with its last position and empty trail, and selection and histories stay; with it off: the selection transition and the history clearing of SelectAt, bodies and helpers untouched; the invariant holds; the tool and modes stay |
| GameState.Game.Refresh | main.go:350-410 | with two bodies selected their readout is pushed on the histories, trimmed to the cap (600 if it was 0), otherwise the histories stay; every trail steps and every last position follows its body; the invariant holds; no other field changes |
| GameState.Game.Store | main.go:364-409 | histories, cap, trails and last positions are replaced; no other field changes |
| GameState.Game.AdvanceOneStep | main.go:348-411 | the bodies become one integrator sweep of the same array; the histories and trails are updated as in Refresh; the invariant holds; no other field changes |
| GameState.Game.Tick | main.go:339-343 | when paused, nothing changes; otherwise the bodies, trails and histories change exactly as in AdvanceOneStep; the selection, the tool and the modes stay |
| GameState.Game.Install | main.go:1029-1046 | the new simulator has its colours fixed, fresh helpers, no selection and empty histories; the invariant holds; the cap, the tool, pause, component view, modal and path stay |
| GameState.Game.Reset | main.go:1021-1052 | no path or a failed load returns the error and changes nothing; otherwise the reloaded simulator with the configuration's name, dt and built bodies, fresh helpers, no selection, empty histories, and the tool, modal and pause off; the cap, the tool settings, component view and path stay |

## Left out

- Rendering is not modelled: `Draw`, `drawWuLine`, `blendPixel`, `drawCircle`, `drawFilledTriangle`, the arrows, buttons, shortcut panel, tooltips and reset modal. It is graphics library code and float pixel arithmetic. `drawLine` is modelled only as its integer loop; the pixel colour and `img.Set` are left out.
- Input polling, `ebiten.CursorPosition`, `os.Exit`, flag parsing and window setup are left out. They are UI and I/O plumbing. The click operations take the cursor position as parameters.
- The button layout (main.go:148-168) is left out, and so is the dispatch of a click to the Pause, Step, Quit and Reset buttons and to the reset modal (main.go:170-195, 232-250). The hit rectangle itself is `pointInRect`. The pause toggle and the step button only flip `paused` or call `advanceOneStep`, which is modelled as `Tick` and `AdvanceOneStep`. The add tool's guard against clicks on the buttons (main.go:256) is part of that layout.
- Which key or small button was pressed (main.go:100-141, 197-213) is input polling and button layout, left out as above. The effects are modelled: the L and V keys as `KeyLocked` and `KeyAnti`, the mass and radius keys and buttons as `ScaleMass` and `ScaleRadius` with the factor (1.1 or 0.9) as a parameter. Several keys pressed in one frame are the methods called in the source's order.
- `shortcutsVisible` and its key (main.go:96-99) are left out: they only affect drawing.
- `os.ReadFile` and `json.Unmarshal` in LoadConfig (pkg/simulation/config.go:52-60) are left out. They are I/O and a foreign decoder.
  - `Simulation.LoadConfig` and `GameState.Game.Reset` start from the decoded configuration or the load error.
  - The error text is passed through as given; its `fmt.Errorf` wrapping is not modelled.
- Config.ParseColor: `fmt.Sscanf` is not modelled. Only the canonical shape '#' plus six hex digits decodes. Sscanf's own leniencies inside a 7-character string are not captured: a single-digit verb or leading spaces that could let other strings through.
- IEEE-754 behaviour is left out: rounding in `math.Sqrt`, `math.Hypot` and `math.Round`, and the NaN/Inf from a zero mass or a zero orbit radius. Arithmetic is over `real`. Where Dafny needs a nonzero divisor, a precondition asks for it (`mass != 0`, `Radius != 0`): Go divides anyway and yields NaN/Inf there.
- Drawing.Bresenham: the conversion `int(math.Round(x))` and 64-bit overflow of the loop's integers are not modelled. Integers are unbounded.
- The unused helpers `abs` and `maxf` (main.go:1117-1128) are not modelled, and neither is `Body.Color` (pkg/physics/body.go:64-66), a plain accessor.
- The force readout on the side panel (main.go:853-857) is drawing. The readout pushed on the histories is modelled as `Interaction.PairForce`.
- Concurrency is not modelled: the game loop is single-threaded.

