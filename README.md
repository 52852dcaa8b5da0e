# iStep third-person controller and starter-assets package checker, in Dafny

This project models two parts of a Unity demo project and proves properties of the models.

The first part is the per-tick movement logic of the starter-assets third-person controller, as extended by iStep. It covers:
- the improved grounded check, a decision tree over a downward sphere cast, a penetration capsule cast, the slope-angle test, a step-up raycast and an abyss sphere cast;
- the slope velocity that this check accumulates or lets decay;
- the share of that slope velocity a move applies once the player's own motion along the slide is taken out;
- the jump-and-gravity state machine: landing velocity, jump launch and cooldown, fall timeout, terminal-velocity gate and roof damping;
- the camera's angle clamp.

The controller is a class whose fields are the per-tick fields of the C# controller: `Grounded`, `m_slopeVelocity`, `m_prevAppliedSlopeVelocity`, `m_groundedNormal`, `m_currVelDir`, `_verticalVelocity`, `_jumpTimeoutDelta`, `_fallTimeoutDelta`, and the input component's jump flag. Each of its methods changes the fields step by step, as the C# controller does. Each is proved to leave them as a step function says. The properties are proved about those step functions.

The second part is the editor-side package checker. It covers:
- the dotted version comparison, as a loop proved against a recursive specification, with its ordering laws;
- the `name@version` package entries and the package id built from them;
- the cinemachine 2.6.14 / inputsystem 1.3.0 fix-up;
- the "append the define symbol if absent" bookkeeping.

Physics queries are inputs. Every sphere cast, capsule cast and raycast is a hit/miss value, with the surface normal and `Vector3.Angle` to up carried by each hit. Vectors are triples of reals. `Mathf.Sqrt` is a bisection on reals with a proved error bound. `Vector3.normalized` returns zero below a length of 1e-5, as Unity's does. `Mathf.Lerp` clamps its parameter to [0, 1].

Files:
- `wrappers.dfy`: `Option` and `Result`.
- `vectors.dfy`: real vectors and Unity's vector, Lerp and square-root operations.
- `grounding.dfy`: the grounded check and the slope velocity.
- `vertical.dfy`: jump and gravity, and the angle clamp.
- `third_person.dfy`: the controller class and properties of a whole `Update`.
- `strings.dfy`: .NET `Split(char)` and ordinal `Contains`.
- `package_checker.dfy`: the package checker.

Behaviour of the code worth noting:
- An abyss sphere cast that misses leaves the character ungrounded and also produces a push down the surface (lines 307-312 and 337-342).
- Outside the penetration case, the ground normal is the sphere-cast hit's normal in every branch (line 278), including the ungrounded steep branches.
- The abyss check is switched off only when the radius multiplier is strictly above 0.999 (lines 295 and 325), so it still runs at 0.999 itself.
- A push is accumulated only when it is longer than 0.001 (line 352), so a non-zero push at most that long is ignored.
- Running up a sliding slope does not cancel the slide (lines 491-503). The code takes the player's motion along the slide out of the slide. The comment on line 501 says the same. The outcome depends on the horizontal part of the slope velocity and on what remains of it:
  - While the player moves, a horizontal part at most 1e-5 long is dropped entirely, vertical part included, whatever the direction of motion (`Grounding.SteepSlideDropped`). Unity's `normalized` returns zero below that length, so the direction test fails.
  - A remainder at most 1e-5 long, after the player's motion along the slide is taken out, is dropped in the same way, even when that motion is slower than the slide (`Grounding.ShortRemainderDropped`).
  - Otherwise the slide is zeroed when the player moves along it at least as fast as it runs. In every other case the vertical part is kept, and the player's motion plus the applied slope velocity advances along the slide exactly as the slide alone would (`Grounding.SlideCancellation`).

## Model

| member | source | states |
|---|---|---|
| ThirdPerson.ThirdPersonController.constructor | Assets/_HoaxGames/iStep_Demo_URP/StarterAssets_Subset/ThirdPersonController/Scripts/ThirdPersonController.cs:169-190 | a new controller is grounded and at rest, with both timeouts set to their configured lengths, as `Start` leaves it |
| ThirdPerson.ThirdPersonController.JumpInput | Assets/_HoaxGames/iStep_Demo_URP/StarterAssets_Subset/InputSystem/StarterAssetsInputs.cs:115-118 | the input system sets the jump flag and nothing else |
| ThirdPerson.ThirdPersonController.JumpAndGravity | Assets/_HoaxGames/iStep_Demo_URP/StarterAssets_Subset/ThirdPersonController/Scripts/ThirdPersonController.cs:509-606 | the in-place field updates leave the vertical velocity, both timeouts and the jump flag as one step of the jump-and-gravity state machine, driven by the grounded flag and normal, and change no other field |
| ThirdPerson.ThirdPersonController.GroundedPart | Assets/_HoaxGames/iStep_Demo_URP/StarterAssets_Subset/ThirdPersonController/Scripts/ThirdPersonController.cs:511-556 | the grounded branch leaves the vertical fields as the grounded phase says: fall timeout reset, landing velocity, launch after the cooldown, cooldown counted down; no other field changes |
| ThirdPerson.ThirdPersonController.AirbornePart | Assets/_HoaxGames/iStep_Demo_URP/StarterAssets_Subset/ThirdPersonController/Scripts/ThirdPersonController.cs:558-576 | the airborne branch counts the fall timeout down and clears the jump flag, and changes nothing else |
| ThirdPerson.ThirdPersonController.GravityAndRoof | Assets/_HoaxGames/iStep_Demo_URP/StarterAssets_Subset/ThirdPersonController/Scripts/ThirdPersonController.cs:579-605 | gravity is added only above the terminal velocity, then a roof hit while rising zeroes the jump timeout and brakes the velocity; no other field changes |
| ThirdPerson.ThirdPersonController.AbyssCheck | Assets/_HoaxGames/iStep_Demo_URP/StarterAssets_Subset/ThirdPersonController/Scripts/ThirdPersonController.cs:293-313 | grounded when the abyss check is off (multiplier > 0.999) or its cast hits; otherwise not grounded, with a push down the surface |
| ThirdPerson.ThirdPersonController.DecideGround | Assets/_HoaxGames/iStep_Demo_URP/StarterAssets_Subset/ThirdPersonController/Scripts/ThirdPersonController.cs:244-350 | the nested branches set the grounded flag and the normal, and return the push, exactly as the decision tree says |
| ThirdPerson.ThirdPersonController.SteepCheck | Assets/_HoaxGames/iStep_Demo_URP/StarterAssets_Subset/ThirdPersonController/Scripts/ThirdPersonController.cs:282-321 | on a surface steeper than the limit, the step-ray and abyss branches set the grounded flag and return the push as the steep part of the decision tree says, changing no other field |
| ThirdPerson.ThirdPersonController.ImprovedGroundedCheck | Assets/_HoaxGames/iStep_Demo_URP/StarterAssets_Subset/ThirdPersonController/Scripts/ThirdPersonController.cs:217-366 | after the check, the travel direction, grounded flag, normal and slope velocity are one step of the grounded check, and no other field changes |
| ThirdPerson.ThirdPersonController.Move | Assets/_HoaxGames/iStep_Demo_URP/StarterAssets_Subset/ThirdPersonController/Scripts/ThirdPersonController.cs:459-470 | records the slope velocity to apply as the previously applied one; the displacement unfolds the source's sum of player motion, vertical velocity and applied slope velocity, each over the frame time; the property beyond that unfolding is that for a level target direction its vertical part is exactly (vertical velocity + applied slope y) · dt |
| ThirdPerson.ThirdPersonController.Update | Assets/_HoaxGames/iStep_Demo_URP/StarterAssets_Subset/ThirdPersonController/Scripts/ThirdPersonController.cs:192-201 | one tick is jump and gravity, then the grounded check, then the move, in that order |
| ThirdPerson.JumpLeavesGround | Assets/_HoaxGames/iStep_Demo_URP/StarterAssets_Subset/ThirdPersonController/Scripts/ThirdPersonController.cs:196-200 | a launch from the ground that outweighs one tick of gravity is seen by the same tick's grounded check as rising: not grounded, normal up, slope velocity not growing, and the ground queries irrelevant |
| ThirdPerson.AirborneTickDropsJump | Assets/_HoaxGames/iStep_Demo_URP/StarterAssets_Subset/ThirdPersonController/Scripts/ThirdPersonController.cs:558-576 | a tick that starts in the air clears the jump flag, so no launch is pending after it |
| ThirdPerson.TickUsesPreviousGrounding | Assets/_HoaxGames/iStep_Demo_URP/StarterAssets_Subset/ThirdPersonController/Scripts/ThirdPersonController.cs:192-201 | the jump step of a tick reads the grounded flag and normal of the previous tick; the recorded applied slope velocity is computed from this tick's slope velocity |
| Grounding.RisingSkipsQueries | Assets/_HoaxGames/iStep_Demo_URP/StarterAssets_Subset/ThirdPersonController/Scripts/ThirdPersonController.cs:225-240 | while rising: not grounded, normal up, slope velocity not longer than before, and the result independent of every ground query |
| Grounding.GroundCastMiss | Assets/_HoaxGames/iStep_Demo_URP/StarterAssets_Subset/ThirdPersonController/Scripts/ThirdPersonController.cs:250-350 | a missed sphere cast: not grounded, normal up, no push, and no later query matters |
| Grounding.PenetrationGrounds | Assets/_HoaxGames/iStep_Demo_URP/StarterAssets_Subset/ThirdPersonController/Scripts/ThirdPersonController.cs:271-274 | a penetration hit: grounded, normal kept at up, no push, and the step and abyss queries irrelevant |
| Grounding.NormalFromGroundHit | Assets/_HoaxGames/iStep_Demo_URP/StarterAssets_Subset/ThirdPersonController/Scripts/ThirdPersonController.cs:275-278 | without a penetration hit the normal is the ground hit's normal, grounded or not |
| Grounding.WalkableBoundary | Assets/_HoaxGames/iStep_Demo_URP/StarterAssets_Subset/ThirdPersonController/Scripts/ThirdPersonController.cs:282-345 | an angle up to and including the slope limit takes the walkable branch, where the step ray is irrelevant; with the multiplier above 0.999 it is grounded whatever the abyss cast says |
| Grounding.SteepSlides | Assets/_HoaxGames/iStep_Demo_URP/StarterAssets_Subset/ThirdPersonController/Scripts/ThirdPersonController.cs:282-321 | steeper than the limit with no walkable step ahead: not grounded, pushed down the surface, and the abyss cast irrelevant |
| Grounding.PushOnlyWhenUngrounded | Assets/_HoaxGames/iStep_Demo_URP/StarterAssets_Subset/ThirdPersonController/Scripts/ThirdPersonController.cs:287-343 | a non-zero push comes only with not grounded, grounded only with a zero push, and the push is never longer than one |
| Grounding.DownSlopeAtMostUnit | Assets/_HoaxGames/iStep_Demo_URP/StarterAssets_Subset/ThirdPersonController/Scripts/ThirdPersonController.cs:290-291 | the push down a surface, a normalized double cross product, is never longer than one |
| Grounding.DownSlopeDownhill | Assets/_HoaxGames/iStep_Demo_URP/StarterAssets_Subset/ThirdPersonController/Scripts/ThirdPersonController.cs:290-291 | the push down a surface lies in the surface (orthogonal to its normal) and never points up; when the normal's horizontal part is longer than about 1.4e-5 it points strictly down and its squared length is at least 0.97, above the 0.001 a push must exceed to be accumulated |
| Grounding.SlopeVelocityStep | Assets/_HoaxGames/iStep_Demo_URP/StarterAssets_Subset/ThirdPersonController/Scripts/ThirdPersonController.cs:352-359 | a push longer than 0.001 grows the slope velocity by exactly push · dt · abs(Gravity), so by at most dt · abs(Gravity); otherwise the slope velocity never gets longer |
| Grounding.PushBound | Assets/_HoaxGames/iStep_Demo_URP/StarterAssets_Subset/ThirdPersonController/Scripts/ThirdPersonController.cs:354 | a push of at most unit length scaled by dt and abs(Gravity) is at most dt · abs(Gravity) long |
| Grounding.ReducedPlanarLevel | Assets/_HoaxGames/iStep_Demo_URP/StarterAssets_Subset/ThirdPersonController/Scripts/ThirdPersonController.cs:493-497 | the slide with the player's motion taken out is horizontal |
| Grounding.SlopeVelocityToUseCases | Assets/_HoaxGames/iStep_Demo_URP/StarterAssets_Subset/ThirdPersonController/Scripts/ThirdPersonController.cs:487-507 | an unfolding of the source's branches, case by case: the slope velocity is unchanged when it or the speed is at most 0.001; otherwise it is zero when the reduced slide no longer points along the slide, and else the reduced slide with the slope velocity's own vertical component; the lemmas below state what these cases mean |
| Grounding.LongSlide | Assets/_HoaxGames/iStep_Demo_URP/StarterAssets_Subset/ThirdPersonController/Scripts/ThirdPersonController.cs:496 | a slide longer than 1e-5 is non-zero and is normalized by a positive factor |
| Grounding.ReducedClosedForm | Assets/_HoaxGames/iStep_Demo_URP/StarterAssets_Subset/ThirdPersonController/Scripts/ThirdPersonController.cs:493-497 | the reduced slide is the slide scaled by one minus the player's motion's share of it, whatever length the slide direction was normalized to |
| Grounding.AlongSlideIff | Assets/_HoaxGames/iStep_Demo_URP/StarterAssets_Subset/ThirdPersonController/Scripts/ThirdPersonController.cs:499-502 | a multiple of the slide still points along it exactly when the factor is positive and the multiple is longer than 1e-5 |
| Grounding.SlideCancellation | Assets/_HoaxGames/iStep_Demo_URP/StarterAssets_Subset/ThirdPersonController/Scripts/ThirdPersonController.cs:491-503 | moving along the slide at least as fast as it runs applies nothing; otherwise the vertical part is kept and the player's motion plus the applied velocity advances along the slide exactly as the slide alone |
| Grounding.SlideOutpaced | Assets/_HoaxGames/iStep_Demo_URP/StarterAssets_Subset/ThirdPersonController/Scripts/ThirdPersonController.cs:491-503 | motion along the slide at least as fast as the slide leaves no slope velocity to apply |
| Grounding.SlideAdvances | Assets/_HoaxGames/iStep_Demo_URP/StarterAssets_Subset/ThirdPersonController/Scripts/ThirdPersonController.cs:491-503 | slower motion keeps the slope velocity's vertical component, and motion plus applied velocity advances along the slide exactly as the slide alone |
| Grounding.SlowerStaysAlong | Assets/_HoaxGames/iStep_Demo_URP/StarterAssets_Subset/ThirdPersonController/Scripts/ThirdPersonController.cs:491-503 | when the player moves along the slide slower than it runs and something longer than 1e-5 remains, the reduced slide plus the vertical part is applied |
| Grounding.AdvanceAlongSlide | Assets/_HoaxGames/iStep_Demo_URP/StarterAssets_Subset/ThirdPersonController/Scripts/ThirdPersonController.cs:493-502 | the motion plus the slide with the motion's share taken out, plus any vertical vector, advances along a horizontal slide exactly as the slide does |
| Grounding.CrossSlopeMotionKeepsSlide | Assets/_HoaxGames/iStep_Demo_URP/StarterAssets_Subset/ThirdPersonController/Scripts/ThirdPersonController.cs:491-503 | motion across the slide, with no component along it, leaves the slope velocity as it is |
| Grounding.SteepSlideDropped | Assets/_HoaxGames/iStep_Demo_URP/StarterAssets_Subset/ThirdPersonController/Scripts/ThirdPersonController.cs:491-503 | while the player moves, a slope velocity whose horizontal part is at most 1e-5 long is dropped entirely, vertical part included |
| Grounding.ShortRemainderDropped | Assets/_HoaxGames/iStep_Demo_URP/StarterAssets_Subset/ThirdPersonController/Scripts/ThirdPersonController.cs:491-503 | while the player moves, a slide whose remainder after the player's motion is taken out is at most 1e-5 long is dropped entirely, vertical part included |
| Vertical.Countdown | Assets/_HoaxGames/iStep_Demo_URP/StarterAssets_Subset/ThirdPersonController/Scripts/ThirdPersonController.cs:553-564 | a timer decremented only while non-negative never rises, never drops below -dt from a non-negative value, and stays put once negative |
| Vertical.JumpCooldown | Assets/_HoaxGames/iStep_Demo_URP/StarterAssets_Subset/ThirdPersonController/Scripts/ThirdPersonController.cs:537-556 | a launch restarts the jump timeout, so with a timeout longer than the tick and no roof hit the next tick cannot launch again |
| Vertical.GroundedWithoutLaunch | Assets/_HoaxGames/iStep_Demo_URP/StarterAssets_Subset/ThirdPersonController/Scripts/ThirdPersonController.cs:511-556 | grounded without a launch: the fall timeout is reset, the jump timeout does not rise, and a non-falling velocity is kept |
| Vertical.LaunchReachesHeight | Assets/_HoaxGames/iStep_Demo_URP/StarterAssets_Subset/ThirdPersonController/Scripts/ThirdPersonController.cs:542-543 | under downward gravity and a positive jump height the launch speed is positive and its apex v²/(2·abs(Gravity)) reaches the jump height, and exceeds it by at most 2·t·v/(2·abs(Gravity)), where t is the square root's tolerance |
| Vertical.ApexAtMost | Assets/_HoaxGames/iStep_Demo_URP/StarterAssets_Subset/ThirdPersonController/Scripts/ThirdPersonController.cs:542-543 | a launch speed at most t above the exact root of h·k reaches an apex v²/k at most h + 2·t·v/k |
| Vertical.LandedVelocityBetween | Assets/_HoaxGames/iStep_Demo_URP/StarterAssets_Subset/ThirdPersonController/Scripts/ThirdPersonController.cs:524-529 | the velocity a falling grounded character gets lies between Gravity and -2 |
| Vertical.DotUpLeft | Assets/_HoaxGames/iStep_Demo_URP/StarterAssets_Subset/ThirdPersonController/Scripts/ThirdPersonController.cs:528 | the dot product of up with the ground normal is the normal's vertical component |
| Vertical.LandedOnLevelGround | Assets/_HoaxGames/iStep_Demo_URP/StarterAssets_Subset/ThirdPersonController/Scripts/ThirdPersonController.cs:528 | on level ground the landed velocity is exactly -2 |
| Vertical.LandedOnWall | Assets/_HoaxGames/iStep_Demo_URP/StarterAssets_Subset/ThirdPersonController/Scripts/ThirdPersonController.cs:528 | against a surface with a horizontal normal the landed velocity is the full Gravity |
| Vertical.AirborneDropsJump | Assets/_HoaxGames/iStep_Demo_URP/StarterAssets_Subset/ThirdPersonController/Scripts/ThirdPersonController.cs:558-576 | airborne, the jump flag is cleared, the fall timeout counts down, and the jump timeout is untouched unless a roof stops a rise |
| Vertical.TerminalVelocityGate | Assets/_HoaxGames/iStep_Demo_URP/StarterAssets_Subset/ThirdPersonController/Scripts/ThirdPersonController.cs:579-582 | gravity never raises the velocity, leaves it alone at or below -53, and takes it at most one tick of gravity below -53 |
| Vertical.RoofDampingBounds | Assets/_HoaxGames/iStep_Demo_URP/StarterAssets_Subset/ThirdPersonController/Scripts/ThirdPersonController.cs:584-605 | a roof hit while rising zeroes the jump timeout and keeps the velocity within [0, previous]; when not rising the roof cast is irrelevant |
| Vertical.AirborneNotRising | Assets/_HoaxGames/iStep_Demo_URP/StarterAssets_Subset/ThirdPersonController/Scripts/ThirdPersonController.cs:558-605 | in the air the vertical velocity never increases |
| Vertical.OnlyJumpLifts | Assets/_HoaxGames/iStep_Demo_URP/StarterAssets_Subset/ThirdPersonController/Scripts/ThirdPersonController.cs:511-582 | without a launch, a grounded character that was not rising is not rising after the tick |
| Vertical.LaunchRises | Assets/_HoaxGames/iStep_Demo_URP/StarterAssets_Subset/ThirdPersonController/Scripts/ThirdPersonController.cs:537-582 | a launch with no roof hit gives the launch speed plus one tick of gravity, which is upward when the launch outweighs that gravity |
| Vertical.WrapOnce | Assets/_HoaxGames/iStep_Demo_URP/StarterAssets_Subset/ThirdPersonController/Scripts/ThirdPersonController.cs:610-611 | the angle moves by a whole turn or not at all; angles within two turns land in [-360, 360]; angles within one turn are kept |
| Vertical.ClampAngle | Assets/_HoaxGames/iStep_Demo_URP/StarterAssets_Subset/ThirdPersonController/Scripts/ThirdPersonController.cs:608-613 | for lo ≤ hi the result lies in [lo, hi], and a wrapped angle already in range is returned unchanged |
| Vertical.ClampAngleIdempotent | Assets/_HoaxGames/iStep_Demo_URP/StarterAssets_Subset/ThirdPersonController/Scripts/ThirdPersonController.cs:608-613 | for bounds within one turn, clamping a clamped angle changes nothing |
| Vectors.Sqrt | Assets/_HoaxGames/iStep_Demo_URP/StarterAssets_Subset/ThirdPersonController/Scripts/ThirdPersonController.cs:543 | a non-negative value whose square is at least the argument and which exceeds the true root by at most the bisection tolerance; positive for a positive argument |
| Vectors.NormalizeAtMostUnit | Assets/_HoaxGames/iStep_Demo_URP/StarterAssets_Subset/ThirdPersonController/Scripts/ThirdPersonController.cs:223 | a normalized vector is never longer than one |
| Vectors.NormalizeNearUnit | Assets/_HoaxGames/iStep_Demo_URP/StarterAssets_Subset/ThirdPersonController/Scripts/ThirdPersonController.cs:223 | above the 1e-5 threshold a normalized vector has squared length between 0.97 and 1 |
| Vectors.ToleranceBound | Assets/_HoaxGames/iStep_Demo_URP/StarterAssets_Subset/ThirdPersonController/Scripts/ThirdPersonController.cs:543 | the square root's tolerance is never negative and never above 2^-23 |
| Vectors.InverseLength | Assets/_HoaxGames/iStep_Demo_URP/StarterAssets_Subset/ThirdPersonController/Scripts/ThirdPersonController.cs:223 | normalizing scales by a positive factor exactly when the vector is longer than 1e-5, and otherwise by zero |
| Vectors.VerticalPart | Assets/_HoaxGames/iStep_Demo_URP/StarterAssets_Subset/ThirdPersonController/Scripts/ThirdPersonController.cs:493 | projecting onto up keeps just the vertical component |
| Vectors.LerpRealBetween | Assets/_HoaxGames/iStep_Demo_URP/StarterAssets_Subset/ThirdPersonController/Scripts/ThirdPersonController.cs:528 | a Lerp with its parameter clamped lands between its two end points |
| Vectors.LerpToZero | Assets/_HoaxGames/iStep_Demo_URP/StarterAssets_Subset/ThirdPersonController/Scripts/ThirdPersonController.cs:231 | a Lerp toward zero scales the vector by one minus the clamped parameter, so it never gets longer |
| Strings.Split | Assets/_HoaxGames/iStep_Demo_URP/StarterAssets_Subset/Editor/PackageChecker/StarterAssetsPackageChecker.cs:68 | there is one piece more than there are separators, and no piece contains the separator |
| Strings.JoinSplit | Assets/_HoaxGames/iStep_Demo_URP/StarterAssets_Subset/Editor/PackageChecker/StarterAssetsPackageChecker.cs:328-329 | joining the pieces with the separator gives back the string |
| Strings.ContainsIff | Assets/_HoaxGames/iStep_Demo_URP/StarterAssets_Subset/Editor/PackageChecker/StarterAssetsPackageChecker.cs:367 | the substring test holds exactly when the symbol occurs at some position |
| PackageChecker.ToInt32 | Assets/_HoaxGames/iStep_Demo_URP/StarterAssets_Subset/Editor/PackageChecker/StarterAssetsPackageChecker.cs:340 | a successful parse lies in the 32-bit range; other text is a format or overflow error |
| PackageChecker.ToInt32RoundTrip | Assets/_HoaxGames/iStep_Demo_URP/StarterAssets_Subset/Editor/PackageChecker/StarterAssetsPackageChecker.cs:340-345 | parsing the decimal spelling of any 32-bit integer gives it back |
| PackageChecker.CompareFrom | Assets/_HoaxGames/iStep_Demo_URP/StarterAssets_Subset/Editor/PackageChecker/StarterAssetsPackageChecker.cs:333-359 | a comparison that does not throw gives -1, 0 or 1 |
| PackageChecker.CompareStep | Assets/_HoaxGames/iStep_Demo_URP/StarterAssets_Subset/Editor/PackageChecker/StarterAssetsPackageChecker.cs:333-356 | an unfolding of one loop round of the specification: a left parse error, then a right one, is thrown; otherwise the larger value decides, and equal values move on to the next component; the loop is proved against this step |
| PackageChecker.ReadComponent | Assets/_HoaxGames/iStep_Demo_URP/StarterAssets_Subset/Editor/PackageChecker/StarterAssetsPackageChecker.cs:335-346 | a component is `Convert.ToInt32` of the piece while the version has one, and 0 past its end |
| PackageChecker.ParseAllAt | Assets/_HoaxGames/iStep_Demo_URP/StarterAssets_Subset/Editor/PackageChecker/StarterAssetsPackageChecker.cs:340-345 | component i of the parsed version is the parse of piece i |
| PackageChecker.CompareVersion | Assets/_HoaxGames/iStep_Demo_URP/StarterAssets_Subset/Editor/PackageChecker/StarterAssetsPackageChecker.cs:326-360 | the loop returns what the recursive comparison gives, an error where a component fails to parse, and otherwise only -1, 0 or 1 |
| PackageChecker.CompareTotal | Assets/_HoaxGames/iStep_Demo_URP/StarterAssets_Subset/Editor/PackageChecker/StarterAssetsPackageChecker.cs:338-346 | comparing well-formed versions never throws |
| PackageChecker.CompareErrorSymmetric | Assets/_HoaxGames/iStep_Demo_URP/StarterAssets_Subset/Editor/PackageChecker/StarterAssetsPackageChecker.cs:338-346 | the comparison throws for (a, b) exactly when it throws for (b, a) |
| PackageChecker.CompareZeroIff | Assets/_HoaxGames/iStep_Demo_URP/StarterAssets_Subset/Editor/PackageChecker/StarterAssetsPackageChecker.cs:333-359 | the result is 0 exactly when every component has the same value, a missing component counting as 0 |
| PackageChecker.FirstDifferenceDecides | Assets/_HoaxGames/iStep_Demo_URP/StarterAssets_Subset/Editor/PackageChecker/StarterAssetsPackageChecker.cs:348-352 | the first component whose values differ decides: 1 when the first version's is larger, -1 when it is smaller |
| PackageChecker.CompareReflexive | Assets/_HoaxGames/iStep_Demo_URP/StarterAssets_Subset/Editor/PackageChecker/StarterAssetsPackageChecker.cs:333-359 | a well-formed version compares equal to itself |
| PackageChecker.CompareAntisymmetric | Assets/_HoaxGames/iStep_Demo_URP/StarterAssets_Subset/Editor/PackageChecker/StarterAssetsPackageChecker.cs:348-352 | swapping the versions negates the result |
| PackageChecker.CompareTransitive | Assets/_HoaxGames/iStep_Demo_URP/StarterAssets_Subset/Editor/PackageChecker/StarterAssetsPackageChecker.cs:348-352 | if a is ahead of b and b of c, then a is ahead of c |
| PackageChecker.CompareVersionReflexive | Assets/_HoaxGames/iStep_Demo_URP/StarterAssets_Subset/Editor/PackageChecker/StarterAssetsPackageChecker.cs:326-359 | a version string whose every component parses compares equal to itself |
| PackageChecker.CompareVersionAntisymmetric | Assets/_HoaxGames/iStep_Demo_URP/StarterAssets_Subset/Editor/PackageChecker/StarterAssetsPackageChecker.cs:348-352 | for two such version strings both orders return a value, and swapping them negates it |
| PackageChecker.CompareVersionTransitive | Assets/_HoaxGames/iStep_Demo_URP/StarterAssets_Subset/Editor/PackageChecker/StarterAssetsPackageChecker.cs:348-352 | for three such version strings, if the first is ahead of the second and the second of the third, the first is ahead of the third |
| PackageChecker.TrailingZeroVersion | Assets/_HoaxGames/iStep_Demo_URP/StarterAssets_Subset/Editor/PackageChecker/StarterAssetsPackageChecker.cs:335-346 | appending ".0" to a version changes no comparison, so "1.2" and "1.2.0" are the same |
| PackageChecker.NumericNotTextual | Assets/_HoaxGames/iStep_Demo_URP/StarterAssets_Subset/Editor/PackageChecker/StarterAssetsPackageChecker.cs:340-352 | "1.10" is ahead of "1.9" |
| PackageChecker.ParseEntryMeaning | Assets/_HoaxGames/iStep_Demo_URP/StarterAssets_Subset/Editor/PackageChecker/StarterAssetsPackageChecker.cs:66-75 | the name is the text before the first '@'; there is no version exactly when the line has no '@'; otherwise the version is the second '@'-piece |
| PackageChecker.ParsePackageId | Assets/_HoaxGames/iStep_Demo_URP/StarterAssets_Subset/Editor/PackageChecker/StarterAssetsPackageChecker.cs:295-301 | the package id `name@version`, or the bare name, parses back to the entry |
| PackageChecker.ParseEntries | Assets/_HoaxGames/iStep_Demo_URP/StarterAssets_Subset/Editor/PackageChecker/StarterAssetsPackageChecker.cs:66-75 | one entry per line, in order |
| PackageChecker.LastIndexOf | Assets/_HoaxGames/iStep_Demo_URP/StarterAssets_Subset/Editor/PackageChecker/StarterAssetsPackageChecker.cs:264-275 | the index the scan remembers is the last entry with that name, and there is none when no entry has it |
| PackageChecker.FixTouchesOnlyCinemachine | Assets/_HoaxGames/iStep_Demo_URP/StarterAssets_Subset/Editor/PackageChecker/StarterAssetsPackageChecker.cs:260-280 | the fix-up keeps the length and every name; the only entry that can change is the last cinemachine one, and only to version 2.8.6 |
| PackageChecker.FixFiresIff | Assets/_HoaxGames/iStep_Demo_URP/StarterAssets_Subset/Editor/PackageChecker/StarterAssetsPackageChecker.cs:277-280 | the list changes exactly when cinemachine 2.6.14 is requested together with inputsystem 1.3.0 |
| PackageChecker.FixIdempotent | Assets/_HoaxGames/iStep_Demo_URP/StarterAssets_Subset/Editor/PackageChecker/StarterAssetsPackageChecker.cs:260-280 | applying the fix-up twice is applying it once |
| PackageChecker.WithDefineMeaning | Assets/_HoaxGames/iStep_Demo_URP/StarterAssets_Subset/Editor/PackageChecker/StarterAssetsPackageChecker.cs:370-379 | afterwards the symbol is present and the old defines are a prefix; nothing changes exactly when the symbol was already there |
| PackageChecker.WithDefineIdempotent | Assets/_HoaxGames/iStep_Demo_URP/StarterAssets_Subset/Editor/PackageChecker/StarterAssetsPackageChecker.cs:370-379 | setting a define twice is setting it once |
| PackageChecker.Checker.CheckScriptingDefine | Assets/_HoaxGames/iStep_Demo_URP/StarterAssets_Subset/Editor/PackageChecker/StarterAssetsPackageChecker.cs:363-368 | true exactly when the symbol occurs in the defines |
| PackageChecker.Checker.SetScriptingDefine | Assets/_HoaxGames/iStep_Demo_URP/StarterAssets_Subset/Editor/PackageChecker/StarterAssetsPackageChecker.cs:370-379 | the defines become the appended-if-absent string, and the package list is untouched |
| PackageChecker.Checker.ReadPackagesToAdd | Assets/_HoaxGames/iStep_Demo_URP/StarterAssets_Subset/Editor/PackageChecker/StarterAssetsPackageChecker.cs:60-75 | the list built line by line is the parsed entries, and the defines are untouched |
| PackageChecker.Checker.FixCinemachineVersion | Assets/_HoaxGames/iStep_Demo_URP/StarterAssets_Subset/Editor/PackageChecker/StarterAssetsPackageChecker.cs:260-280 | the scan and in-place update leave the list as the fix-up says, and the defines untouched |

## Left out

- Physics query internals: cast origins, radii, distances and layer masks (`Physics.SphereCast`, `CapsuleCast`, `Raycast`) are not modelled. Each query's result is an input. A query the code does not reach is shown to be irrelevant, not shown to be unmade.
- `Vector3.Angle` is an input carried by each hit, since the model has no arc cosine. The transform's up is taken to be world up, because `Move` only rotates the character about the vertical axis.
- Floating point: all arithmetic is on reals. Rounding, NaN and infinities are not modelled.
- Vectors.Sqrt: `Mathf.Sqrt` is a bisection with at most 24 halvings beyond one per binary digit of the argument. Its result is exact only up to that tolerance, at most 2^-23 (`Vectors.ToleranceBound`), and the contracts state that bound: a normalized vector has squared length at least 0.97 rather than exactly 1, and a jump apex is bounded on both sides only up to that tolerance.
- Vertical.JumpVelocity requires `JumpHeight * -2 * Gravity` to be non-negative (`CanLaunch`). The C# controller takes the square root of a negative number there and gets NaN, which reals cannot express. The whole controller therefore requires a launchable configuration: its constructor, `JumpAndGravity` and `Update` all require `CanLaunch`, so every tick of the model runs with one.
- The legacy `GroundedCheck` (lines 368-381) and the non-iStep branches of `JumpAndGravity` and `Move` are not modelled. The model has the iStep improvements switched on, as they are by default.
- `Move` outside its slope part is not modelled: speed smoothing and rounding, animation blend, rotation toward the input, and the target direction from the camera. The target direction and speed are inputs of `Move`.
- `CameraRotation` (quaternions and Cinemachine) is not modelled. Only the `ClampAngle` it calls is.
- Animator parameters, footstep and landing audio, gizmos and `Awake`'s layer-collision settings are not modelled. None of them changes the modelled fields.
- `GroundedRadius` is recomputed from the controller's radius and scale (line 242). It only feeds the casts, so it is not modelled.
- The input component is not modelled beyond its jump flag and the setter that writes it.
- Package checker: the Package Manager search, list and add requests and their busy-wait loops are not modelled. Neither are the install and version-resolution loops, dialogs, file and JSON reading, asset reimport, or `RemovePackageCheckerScriptingDefine`. `PlayerSettings` storage is a string field of the checker. `InstallSelectedPackage` is modelled only as the package id it builds.
- PackageChecker.Checker: the static class with static fields is modelled as an object with fields. The in-place write of one entry's `Version` is modelled as replacing that element of a sequence of values.
- PackageChecker.CompareFrom: the specification parses every component up front, where the loop parses as it goes. The comparison never consults a component after the one where it stops, so both give the same result or the same exception.
- PackageChecker.CompareVersion: the ordering laws are proved for versions whose every component parses as a 32-bit integer. For other strings only the error result is modelled, as the exception `Convert.ToInt32` throws. A null version is not modelled: the function takes strings. An entry without '@' gets a null `Version` (StarterAssetsPackageChecker.cs line 72), the install loop passes it to `CompareVersion` (lines 184 and 220), and its `Split` at line 328 then throws a `NullReferenceException`. That loop is left out, so no modelled member reaches this call.
