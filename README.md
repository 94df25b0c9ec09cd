# Boids and their kd-tree, modelled in Dafny

This project models the core of a small C++ boids simulation. A flock of boids flies in the unit
square. Each boid steers by three rules (cohesion, separation, alignment) applied to the flock
members it can see, then moves under a speed limit, either wrapping around the edges or bouncing
off them. A 2-D kd-tree stores points and answers radius queries. Two small colour helpers (a
hexadecimal colour parser and the range-controlled HSL constructor) complete the core.

The modules follow the source files:

- `Geometry` (vector.dfy): `Vector` as a value with exact real coordinates. The operators and the
  compound assignments return the new value. `sqrt`, `atan2` and `atan` are fields of a `MathLib`
  parameter; the only thing assumed of them is that `sqrt` is the non-negative square root.
- `Mobiles` (mobile.dfy): the class `Mobile`, whose `Bounce`, `Wrap` and `Update` change its
  position and velocity in place. Each is proved against a function on the `MobileState` value.
- `Steering` (steering.dfy): the flying rules of boid.cpp as functions on the sequence of boid
  states, in flock order. It also holds the in-order sweep of `Flock::compute` and the lemmas
  about both.
- `Flocking` (flock.dfy): the classes `Boid` (a `Mobile` body plus its flock) and `Flock` (the
  parameters of flock.hpp and the ordered `boids`). Every method is proved against `Steering`.
- `KdTrees` (kdtree.dfy): `KDTree<Vector>` of kd-tree.hpp. kdtree.cpp:26-247 is a textual copy of
  the same class, so one model covers both. The heap of `Node<T>` objects is an arena `nodes`: a
  link is an index and `NoNode` (-1) is `nullptr`. `TreeAt` reads the arena as a `Tree` value.
  Insert, search and both traversals are methods proved against functions on that value
  (`Inserted`, `Found`, `StackOrder`, `Preorder`, `VisitOrder`).
- `Colors` (color.cpp): `fromHex` over a model of `strtoul(s, NULL, 16)` and the conversion to
  `sf::Uint8`; the `ExtendedColor(sf::Color&)` copy; `min` and `max`. The reference writer
  `HexString` exists only to state the round trip `FromHex(HexString(c))`. It is not the
  source's `toHex`.
- `HslColors` (hsl.cpp): `HSL()` and `HSL(H, S, L)`, whose range control can leave a field
  unassigned (`None`), and the table of named colours at the top of `HSL::fromRGB`. The table is
  checked against the textbook RGB-to-HSL conversion on exact reals (`Reference`).

Wrap-around mode is meant to let a boid at x = 0.999 moving right
by 0.01 reappear near 0.009. The code wraps before it integrates, so the boid ends that update
at 1.009 and only comes back on the next one. The model follows the code
(`Mobiles.WrapStepOvershoots`).

Several fragments of the source do not compile as written. The model gives each of them the
behaviour the cited lines write:

- `Vector` has no `operator==`; equality of elements is value equality of (x, y).
- The field `wrap` and the method `wrap()` of `Mobile` clash; the flag is the const field `wrap`.
- `Flock::compute` calls a `Boid::compute` that boid.hpp does not declare. It is modelled as
  `Flocking.Boid.Compute`: cohesion, separation and alignment with the flock's parameters, then
  `Mobile::update`. `Boid::update` lists four commented-out calls; the fourth, `fear`, is
  declared in boid.hpp but is not applied here, because its effect is a trigonometric rotation
  (see "Left out").

## Model

| member | source | states |
|---|---|---|
| Geometry.Vector.PlusScalar | vector.cpp:11-14 | operator+(double) multiplies both components: its result is operator*(double) of the same scalar |
| Geometry.Vector.MinusScalar | vector.cpp:16-19 | subtracting a scalar from both components is undone by `+=` of the same scalar |
| Geometry.Vector.DivScalar | vector.cpp:26-29 | the quotient by a non-zero scalar, multiplied by that scalar, gives the operand back |
| Geometry.Vector.ScaledNormSq | vector.cpp:21-24 | operator*(double) by k multiplies the squared length by k² |
| Geometry.PlusCancels | vector.cpp:31-34 | operator+(const Vector&) is commutative and operator-(const Vector&) undoes it |
| Geometry.TimesCancels | vector.cpp:41-44 | operator*(const Vector&) is commutative and, when no component of the divisor is zero, operator/(const Vector&) undoes it |
| Geometry.Vector.Minus | vector.cpp:36-39 | the component-wise difference plus the subtrahend is the operand |
| Geometry.Vector.Div | vector.cpp:46-49 | the component-wise quotient times the divisor is the operand |
| Geometry.Vector.MulAssign | vector.cpp:51-56 | `*= s` leaves the value operator*(s) would return, and for a non-zero s, `/ s` gives the operand back |
| Geometry.Vector.DivAssign | vector.cpp:58-63 | `/= s` leaves the value operator/(s) would return |
| Geometry.Vector.AddAssignScalar | vector.cpp:65-70 | `+= s` adds s to both components, unlike operator+(double) |
| Geometry.Vector.AddAssign | vector.cpp:72-77 | `+= o` leaves the value operator+(o) would return, and `- o` gives the operand back |
| Geometry.Vector.SubAssignScalar | vector.cpp:79-84 | `-= s` leaves the value operator-(s) would return |
| Geometry.Vector.SubAssign | vector.cpp:86-91 | `-= o` leaves the value operator-(o) would return |
| Geometry.Vector.NormSq | vector.cpp:93-96 | the squared length is never negative and is zero only for the zero vector |
| Geometry.Vector.Norm | vector.cpp:93-96 | norm() is the non-negative root of the squared length, zero exactly for the zero vector |
| Geometry.NoLengthIsZero | vector.cpp:93-96 | only the zero vector has squared length zero |
| Geometry.Vector.Normalize | vector.cpp:98-104 | a zero vector is unchanged; any other becomes a unit vector that, scaled by the old norm, is the old vector |
| Geometry.Vector.Limit | vector.cpp:106-112 | unchanged when the norm is at most max; otherwise scaled by max / norm to length exactly max; the result never exceeds max |
| Geometry.Vector.FMod | vector.cpp:123-127 | fmod(mod) leaves the vector unchanged, since the ::fmod results are discarded |
| Geometry.Vector.Distance | vector.cpp:134-139 | distance is the norm of the difference, the non-negative root of dx² + dy² |
| Geometry.Vector.ToroidalDistance2 | vector.cpp:147-156 | the sum of the squared differences, each replaced by extent - d only when d exceeds half the extent |
| Geometry.Vector.ToroidalDistance | vector.cpp:158-161 | the non-negative root of toroidal_distance2 |
| Geometry.FoldedNotLonger | vector.cpp:152-153 | the one-sided fold never lengthens a difference when the extent is non-negative |
| Geometry.ToroidalWithinEuclidean | vector.cpp:147-156 | for non-negative width and height, toroidal_distance2 is at most the squared Euclidean distance |
| Geometry.ToroidalDistanceWithinDistance | vector.cpp:158-161 | toroidal_distance never exceeds distance |
| Geometry.ToroidalFoldIsOneSided | vector.cpp:152-153 | the fold is not symmetric: from (0.9, 0.5) to (0.1, 0.5) gives 0.04, the reverse gives 0.64 |
| Geometry.Vector.Angle | vector.cpp:129-132 | angle() is atan2(y, x), with atan2 left uninterpreted; BearingIsHeading ties angle(other) to it |
| Geometry.BearingIsHeading | vector.cpp:163-166 | angle(other) is angle() of the difference other - this |
| Geometry.Random | vector.cpp:177-180 | for max >= 0 each component of random(max, offset) lies in [offset, offset + max] |
| Mobiles.MobileState.Speed | mobile.cpp:3-6 | speed() is the non-negative norm of the velocity, zero exactly when the velocity is zero |
| Mobiles.MobileState.DistanceTo | mobile.cpp:11-15 | toroidal_distance on the unit square with wrap, Euclidean distance without; either way never more than the Euclidean distance |
| Mobiles.MobileState.Bounced | mobile.cpp:22-28 | position and flags kept; a component inside exactly one margin turns by exactly turnFactor away from that edge, one outside both margins or inside both is kept; with a non-negative turn factor a boid is never pushed toward the nearer edge |
| Mobiles.WrapCoordinate | mobile.cpp:36-40 | a coordinate below 0 gains 1, one above 1 loses 1, one in [0, 1] is kept; so one within [-1, 2] lands in [0, 1] |
| Mobiles.MobileState.Wrapped | mobile.cpp:34-41 | velocity and flags kept; each coordinate of the position is wrapped by `WrapCoordinate` |
| Mobiles.MobileState.Stepped | mobile.cpp:44-54 | flags kept; the new velocity is the limit to maxVelocity of the velocity after exactly one boundary policy (wrap, or bounce with margin 5 · speed and turn factor speed / 5, the speed taken before the bounce), so the new speed is within maxVelocity; the position moves by exactly that velocity from the wrapped (or kept) position |
| Mobiles.Mobile.constructor | mobile.hpp:5-9 | the fields hold the given position, velocity, wrap flag and speed limit |
| Mobiles.Mobile.Bounce | mobile.cpp:22-28 | the new state is `Bounced` of the old one |
| Mobiles.Mobile.Wrap | mobile.cpp:34-41 | the new state is `Wrapped` of the old one |
| Mobiles.Mobile.Update | mobile.cpp:44-54 | the new state is `Stepped` of the old one |
| Mobiles.UpdateLimitsSpeed | mobile.cpp:51-53 | after update() the speed is at most maxVelocity |
| Mobiles.WrapModeStepsFromUnitSquare | mobile.cpp:44-54 | in wrap mode, from a position in [-1, 2]², the new position minus the new velocity is in the unit square |
| Mobiles.WrapStepOvershoots | mobile.cpp:44-54 | a wrapping mobile at x = 0.999 moving 0.01 right ends the update at 1.009, outside the square |
| Steering.NarrowFieldSeesNothing | boid.cpp:102-108 | with a field of view that is not positive, the open interval (amin, amax) is empty and no boid is in sight |
| Steering.Visible | boid.cpp:100-114 | inSight never hands more members to the callback than the flock has |
| Steering.VisibleExactly | boid.cpp:106-112 | a state is handed to the callback exactly when it is in the flock, strictly closer than radius and within the field of view |
| Steering.VisibleConcat | boid.cpp:106-112 | what is seen of a + b is what is seen of a followed by what is seen of b |
| Steering.VisibleNext | boid.cpp:106-112 | each member of the flock in turn is either handed to the callback after the earlier ones or passed over, as the boid sees it or not |
| Steering.Accelerated | boid.cpp:41 | `velocity += delta` changes only boid i, only its velocity, by exactly delta |
| Steering.BoidStep | boid.cpp:90-98 | one boid's step changes only that boid, keeps its flags and leaves its speed within its limit |
| Steering.FlockStepIsLocal | boid.cpp:90-98 | the step used by the sweep changes only the stepping boid and limits its speed |
| Steering.SweepShape | flock.cpp:26-31 | compute() keeps the flock's size and every boid's speed limit |
| Steering.SweepLeavesRest | flock.cpp:26-31 | boids the loop has not reached yet are untouched |
| Steering.SweepKeepsDone | flock.cpp:26-31 | a boid the loop has passed keeps the state its own step gave it |
| Steering.SweepView | flock.cpp:26-31 | boid k steps seeing the boids before it in their final state and the boids after it in their old state |
| Steering.SweepLimitsSpeed | flock.cpp:26-31 | after compute() every boid is within its speed limit |
| Steering.OffsetsSum | boid.cpp:51-53 | the separation sum is n times the own position minus the summed positions |
| Steering.CohesionTowardGroup | boid.cpp:31-42 | with someone in sight, cohesion adds weight · (c - position) for a point c in the bounding box of the positions seen |
| Steering.CohesionAlone | boid.cpp:31-42 | a boid that sees only itself gets no cohesion |
| Steering.SeparationFromCentre | boid.cpp:47-56 | separation adds strength · n · (position - mean position of the boids seen) |
| Steering.AlignmentTowardGroup | boid.cpp:61-73 | with someone in sight, alignment steers toward a velocity in the bounding box of the velocities seen |
| Steering.AlignedKeepsVelocity | boid.cpp:61-73 | a boid flying like every boid it sees keeps its velocity |
| Flocking.TruncateToInt | flock.cpp:37-39 | the double-to-int conversion of add(x, y) truncates toward zero |
| Flocking.InitialVelocity | boid.cpp:15 | Vector::random(2 maxVelocity, -maxVelocity) has both components within [-maxVelocity, maxVelocity] |
| Flocking.Boid.At | boid.cpp:10-16 | a new boid of the flock at the position, with the flock's wrap and limit and a velocity within the limit |
| Flocking.Boid.AtPoint | boid.cpp:18-21 | a new boid at the integer point (x, y) |
| Flocking.Boid.constructor | boid.cpp:23-26 | a new boid at a point of the unit square |
| Flocking.Boid.AsWritten | boid.cpp:10-16 | the constructor as written: position and velocity set; the body's wrap flag and speed limit are whatever indeterminate values they held |
| Flocking.IndeterminateLimitOutrunsFlock | boid.cpp:10-16 | with an indeterminate speed limit of 1, a boid spawned at the flock's speed 0.001 near the left edge leaves update() at speed 0.0012 |
| Flocking.IndeterminateLimitFreezes | boid.cpp:10-16 | with an indeterminate speed limit of 0, a bouncing boid never moves |
| Flocking.Gather | boid.cpp:105-112 | the loop over the flock hands the callback exactly `Visible` of the boids' states, in order, and counts them |
| Flocking.Boid.InSight | boid.cpp:100-114 | the members handed to the callback are `Visible` of the flock's states, and the count returned is their number |
| Flocking.Boid.Accelerate | boid.cpp:41 | `velocity += delta` on this boid is `Accelerated` of the flock's states |
| Flocking.Boid.CohesionChange | boid.cpp:33-38 | the velocity change is `CohesionDelta` of the boids in sight |
| Flocking.Boid.Cohesion | boid.cpp:31-42 | the flock's new states are `Cohered` of the old ones |
| Flocking.Boid.SeparationChange | boid.cpp:49-53 | the velocity change is `SeparationDelta` of the boids within the flock's separationRadius |
| Flocking.Boid.Separation | boid.cpp:47-56 | the arguments are ignored; the flock's new states are `Separated` with the flock's own radius and strength |
| Flocking.Boid.AlignmentChange | boid.cpp:63-70 | the velocity change is `AlignmentDelta`; the callback's count is overwritten by inSight's result |
| Flocking.Boid.Alignment | boid.cpp:61-73 | the flock's new states are `Aligned` of the old ones |
| Flocking.Boid.Update | boid.cpp:90-98 | update() is Mobile::update on this boid only, since the rules are commented out |
| Flocking.Boid.Compute | flock.cpp:28-30 | one step of this boid is `BoidStep` of the flock's states |
| Flocking.Flock.constructor | flock.hpp:20-63 | the parameter defaults of flock.hpp, then numBoids new boids |
| Flocking.Flock.Spawn | flock.cpp:33-35 | one new boid appended, the others kept |
| Flocking.Flock.Init | flock.cpp:9-13 | the flock is emptied and refilled with size new boids |
| Flocking.Flock.Resize | flock.cpp:15-19 | boids are dropped from the end or new ones appended until there are size; the kept prefix is unchanged |
| Flocking.Flock.Add | flock.cpp:33-35 | one new boid at a random point, appended |
| Flocking.Flock.AddAt | flock.cpp:37-39 | one new boid at (x, y), each coordinate truncated toward zero, appended, with the flock's wrap and limit and a velocity within the limit; the others kept |
| Flocking.Flock.Size | flock.cpp:41 | size() is the number of boids; Resize, Add and AddAt state their result through it |
| Flocking.Flock.Each | flock.cpp:21-24 | the callback runs on every boid once, in flock order |
| Flocking.Flock.Compute | flock.cpp:26-31 | the new states are the in-order `Sweep` of `BoidStep` over the old ones |
| Flocking.Flock.Sweeps | flock.cpp:28-30 | the loop of compute() performs the whole sweep |
| Flocking.Flock.StepBoid | flock.cpp:29 | iteration k takes the flock from k steps swept to k + 1 |
| KdTrees.SqDistance | kd-tree.hpp:72-73 | the squared distance searchNode compares is never negative |
| KdTrees.Inserted | kd-tree.hpp:147-154 | insert gives a node, and an existing root keeps its element and dim |
| KdTrees.InsertedBelow | kd-tree.hpp:34-55 | insertNode below a node keeps that node's element and dim |
| KdTrees.InsertedElements | kd-tree.hpp:147-154 | after insert the elements are the old ones plus the new one |
| KdTrees.InsertAbsentAddsLeaf | kd-tree.hpp:48-53 | inserting an absent element adds exactly one leaf, at its parent's dim + 1, and changes nothing else |
| KdTrees.InsertPresentUnchanged | kd-tree.hpp:44-46 | in an ordered tree, inserting a stored element changes nothing |
| KdTrees.InsertIdempotent | kd-tree.hpp:44-46 | in an ordered tree, inserting the same element twice is inserting it once |
| KdTrees.InsertKeepsOrder | kd-tree.hpp:48-49 | insertion keeps left elements strictly below and right elements at or above each node on its axis |
| KdTrees.InsertKeepsDims | kd-tree.hpp:147-154 | insertion keeps every node's dim equal to its depth |
| KdTrees.InsertKeepsDistinct | kd-tree.hpp:44-46 | in an ordered tree, insertion never stores an element twice |
| KdTrees.InsertKeepsInvariants | kd-tree.hpp:147-154 | insertion keeps order, dims and distinctness together |
| KdTrees.FoundSound | kd-tree.hpp:72-76 | every element search returns is stored and strictly within r of the query |
| KdTrees.FoundComplete | kd-tree.hpp:66-70 | in an ordered tree and for r >= 0, the pruning tests never skip a stored element within r |
| KdTrees.FoundExactly | kd-tree.hpp:57-78 | in an ordered tree and for r >= 0, search returns exactly the stored elements within r |
| KdTrees.FoundOnce | kd-tree.hpp:57-78 | in a tree without repeated elements, search lists each match once |
| KdTrees.StackOrderElements | kd-tree.hpp:163-183 | traverse() lists exactly the stored elements, each once when none is stored twice |
| KdTrees.PreorderElements | kd-tree.hpp:118-130 | the pre-order listing has exactly the stored elements, each once when none is stored twice |
| KdTrees.TreeAfterLink | kd-tree.hpp:50-52 | linking the new leaf through `*indirect` makes the parent's subtree the inserted tree |
| KdTrees.LinkLeaf | kd-tree.hpp:50-52 | linking the leaf keeps the arena a forest and changes no node outside the parent's subtree |
| KdTrees.Descended | kd-tree.hpp:54 | a recursive insertNode below one child changes nothing outside the node's subtree and inserts below it |
| KdTrees.KDTree.constructor | kd-tree.hpp:142 | KDTree() is the empty tree, and satisfies the class invariant |
| KdTrees.KDTree.Insert | kd-tree.hpp:147-154 | the tree becomes `Inserted` of the old one, and order, dims and distinctness are kept |
| KdTrees.KDTree.InsertNode | kd-tree.hpp:34-55 | the subtree below node becomes `InsertedBelow` of the old one; nodes outside it and the root are unchanged |
| KdTrees.KDTree.Search | kd-tree.hpp:155-160 | the result is `Found` of the tree: for r >= 0 exactly the stored elements within r, each once, and the tree is not modified |
| KdTrees.KDTree.SearchNode | kd-tree.hpp:57-78 | appends to ids the matches below node in post-order: left, right, then the node |
| KdTrees.KDTree.Clear | kd-tree.hpp:161 | clear() leaves the tree as it was, since clearNode returns without acting |
| KdTrees.KDTree.Traverse | kd-tree.hpp:163-183 | the stack loop returns `StackOrder`: node, right subtree, left subtree; every stored element once; empty for an empty tree |
| KdTrees.PopStep | kd-tree.hpp:172-180 | one pass of the loop moves exactly the popped node's element from the pending ones to the output |
| KdTrees.KDTree.TraverseWith | kd-tree.hpp:185-188 | traverse(func) hands every node to func once, and their elements come in pre-order |
| KdTrees.KDTree.TraverseNode | kd-tree.hpp:118-130 | the nodes handed to func below node are `VisitOrder`: the node, then its left subtree, then its right one |
| KdTrees.VisitOrder | kd-tree.hpp:118-130 | every node handed to func lies in the subtree of the starting node |
| KdTrees.VisitOrderOnce | kd-tree.hpp:118-130 | no node is handed to func twice |
| KdTrees.VisitOrderElements | kd-tree.hpp:118-130 | the elements of the visited nodes are the subtree's elements in pre-order |
| Colors.ToByte | color.cpp:28 | storing an unsigned long into an sf::Uint8 keeps it modulo 256 |
| Colors.StrToUL | color.cpp:28 | the value read is below 2^64, the range of a 64-bit unsigned long; its digits are read by the lemmas below |
| Colors.StrToULPair | color.cpp:28-30 | two hexadecimal digits read as 16 · first + second |
| Colors.StrToULDigit | color.cpp:33-35 | one hexadecimal digit reads as its value |
| Colors.StrToULNoDigits | color.cpp:28 | a pair starting with neither digit, space nor sign reads as 0 |
| Colors.StrToULNegated | color.cpp:28 | "-d" reads as d negated in unsigned arithmetic |
| Colors.Extended | color.cpp:16-21 | the copy takes r, g and b from the argument and is opaque |
| Colors.ExtendedKeepsOpaque | color.cpp:16-21 | copying keeps a colour exactly when it is opaque, and copying twice is copying once |
| Colors.FromHex | color.cpp:23-38 | the result is opaque, and black for any length other than 7 or 4 |
| Colors.FromHexLong | color.cpp:26-30 | "#rrggbb" with six hexadecimal digits gives each channel its two digits |
| Colors.FromHexShort | color.cpp:31-35 | "#rgb" with three hexadecimal digits gives each channel its digit times 17 |
| Colors.FromHexIgnoresLead | color.cpp:28 | the first character is never read, so it need not be '#' |
| Colors.FromHexNoDigits | color.cpp:28 | a red pair that starts with no digit gives red 0 |
| Colors.FromHexNegated | color.cpp:28 | a red pair "-d" wraps around to (256 - d) mod 256 |
| Colors.FromHexRoundTrip | color.cpp:23-38 | every colour written as "#rrggbb" is read back with its r, g and b |
| Colors.Min | color.cpp:105-111 | min() is one of r, g, b and at most each of them |
| Colors.Max | color.cpp:113-119 | max() is one of r, g, b and at least each of them |
| Colors.MinAtMostMax | color.cpp:105-119 | min() <= max(), with equality exactly for greys |
| HslColors.TruncRem | hsl.cpp:146 | C++'s % is a remainder of truncated division, a == b · (a / b) + a % b; it has the dividend's sign and a magnitude below the divisor |
| HslColors.Ranged | hsl.cpp:141-152 | a field is assigned unless the value is -bound; an assigned one is within [0, bound], and a value already there is kept |
| HslColors.SequenceIsChain | hsl.cpp:167-180 | the luminance's three independent ifs give what the hue and saturation chain gives |
| HslColors.RangedIdempotent | hsl.cpp:142-151 | range control of an already controlled value changes nothing |
| HslColors.RangedCongruent | hsl.cpp:144-151 | an assigned value is v or -v plus a whole number of multiples of the bound |
| HslColors.Make | hsl.cpp:139-181 | hue is controlled against 360, saturation and luminance against 100 |
| HslColors.Default | hsl.cpp:137 | HSL() sets all three fields to 0 |
| HslColors.MakeAssigned | hsl.cpp:139-181 | every field is assigned exactly when H != -360, S != -100 and L != -100, and each lies in its range |
| HslColors.MakeKeepsInRange | hsl.cpp:137-143 | in-range arguments are stored as given, and HSL() is HSL(0, 0, 0) |
| HslColors.HueWrapsBelowFullTurn | hsl.cpp:145-151 | a hue beyond a full turn in either direction lands in [0, 360) |
| HslColors.TableAsWritten | hsl.cpp:11-41 | the table as written answers only for opaque colours, and exactly for white, black, red, yellow, green, cyan and blue |
| HslColors.TableAsWrittenMissesMagenta | hsl.cpp:39-41 | the table as written never returns (300, 100, 50) and leaves magenta to the floating-point path |
| HslColors.Table | hsl.cpp:11-41 | the corrected table answers exactly for the eight named opaque colours |
| HslColors.TableExtendsAsWritten | hsl.cpp:11-41 | the corrected table differs from the one as written only on magenta |
| HslColors.TableMatchesReference | hsl.cpp:11-37 | every entry of the table is what the textbook RGB-to-HSL conversion gives |

## Findings

| source | as written | input that shows it | evidently intended | confidence | as-written member | corrected member |
|---|---|---|---|---|---|---|
| hsl.cpp:39-41 | the eighth early return of `fromRGB` tests `sf::Color::Cyan` again, so it can never be reached | magenta (255, 0, 255) is not in the table and falls through to the floating-point path | the entry for (300, 100, 50) tests `sf::Color::Magenta` | high, not executed | HslColors.TableAsWritten, HslColors.TableAsWrittenMissesMagenta | HslColors.Table, HslColors.TableMatchesReference |
| boid.cpp:10-16 | the constructor sets only position and velocity; `Mobile::wrap` and `Mobile::max_velocity` have no initialiser (mobile.hpp:8-9), and `Flock::wrap` and `Flock::maxVelocity` never reach the boid's `Mobile::wrap` and `Mobile::max_velocity` (only the initial velocity reads `flock.maxVelocity`) | a speed limit left at 1 lets a boid spawned at speed 0.001 at (0.0001, 0.5) bounce to speed 0.0012; one left at 0 freezes every bouncing boid | a boid takes the flock's `wrap` and `maxVelocity` | high, not executed | Flocking.Boid.AsWritten, Flocking.IndeterminateLimitOutrunsFlock, Flocking.IndeterminateLimitFreezes | Flocking.Boid.At, Mobiles.UpdateLimitsSpeed, Steering.SweepLimitsSpeed |

## Left out

- SFML rendering, windows and events: `drawTree` and `main` of kdtree.cpp, kdtree-demo.cpp, scene.cpp, main.cpp and sample/test.cpp. `Flock::draw`, tails (`tailLength` is only stored) and frame timing are display-only.
- `KDTree::remove` and `removeNode`: they read a `node->id` that `Node` does not have, and `node = temp` only rebinds a local. No coherent behaviour exists to model.
- `KDTree::iterator`: its constructor assigns the shadowing parameter, and `++` does not enumerate the tree. `print` writes to the console.
- Floating point: coordinates and parameters are exact reals. `float` narrowing (the `float magnitude` in `normalize` and `limit`, `Position<T>::getX` returning `float`, `Mobile` returning `float`), rounding, NaN and infinities are not modelled.
- `Vector::rotate` and `operator std::string`: trigonometry and formatting. `angle` and `angle(other)` are modelled over an uninterpreted `atan2`, so the field-of-view test of `inSight` stays abstract apart from its interval shape.
- `Boid::fear`: it sums the positions of the predators in sight and divides the sum by the number of all boids in sight, with no guard for zero. It then rotates the boid's position (not its velocity) by the bearing of the normalised offset times the weight. The rotation is trigonometry, so fear is not modelled and is not among the rules `Flock::compute` applies here.
- Colour math in floating point: the non-table path of `HSL::fromRGB`, `toRGB`, `hueToRGB`, `ExtendedColor::hue2rgb`, `fromHSL`, `fromHSV`, and the HSL getters and setters of `ExtendedColor`.
- `ExtendedColor::toHex`: it streams `sf::Uint8` channels, which iostreams print as characters, so it depends on iostream formatting. `Colors.HexString` is a separate reference writer.
- hsl.hpp is not part of this model. The HSL fields are taken to be `int`, as the constructor assigns them.
- `rand()`: `Vector::random` picks its fractions in [0, 1] without constraint.
- Geometry.Vector.DivScalar: requires a non-zero scalar, because division by zero (an IEEE infinity or NaN) is not modelled. The same holds for Geometry.Vector.Div and Geometry.Vector.DivAssign.
- Geometry.Vector.Normalize: the norm is exact; the source narrows it to `float` first.
- Geometry.Vector.Limit: requires max >= 0, since a negative limit or NaN is not modelled; the norm is exact where the source narrows it to `float`.
- Mobiles.MobileState.Stepped: requires maxVelocity >= 0, for the same reason as `Limit`.
- Flocking.Boid.At, Flocking.Boid.AtPoint, Flocking.Boid.constructor and Flocking.Flock.Spawned: the body takes the flock's `wrap` and `maxVelocity`. This is the corrected behaviour of the boid.cpp:10-16 row under "## Findings"; `Flocking.Boid.AsWritten` is the code as written.
- Mobiles.Mobile.constructor: mobile.hpp declares no constructor. This one stands for the member initialisation of the derived `Boid`, with the flag and limit as parameters.
- Colors.FromHex: characters are single bytes, as `std::string::size()` counts them; a string holding multi-byte UTF-8 characters is not modelled.
- Flocking.TruncateToInt: a double whose truncation does not fit in an `int` is undefined behaviour in C++; the model does not bound the result.
- Flocking.Flock.Compute: applies cohesion, separation and alignment and then update to each boid. This is the evident meaning of the call to the missing `Boid::compute`; fear is not applied.
- Flocking.Boid.Cohesion: with no boid in sight the source divides the zero sum by 0 (a NaN it then discards). The model adds the zero vector and never forms that quotient.
- Flocking.Boid.AlignmentChange: the callback increments `neighbors` while it is being initialised, which is undefined. The model takes the count as the value inSight returns, which overwrites it.
- KdTrees.KDTree.InsertNode: requires a node that is not `nullptr`. Its `nullptr` branch (which would reset the root) cannot be reached from `insert`, the only caller.
- KdTrees.KDTree.Search: the exact-match statement holds for r >= 0. For a negative r the result is still `Found`, but `dist < r * r` can then match points farther than |r|.
- KdTrees.KDTree.TraverseWith: the callback `func` is modelled by the sequence of nodes it receives, in call order.
- Colors.StrToUL: `errno` is not modelled, and `unsigned long` is taken as 64 bits.
