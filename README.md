# Duplicate-circle suppression, modelled in Dafny

This project models `non_max_suppression` from `tools.py`. This is the
greedy filter that thins out the circles a Hough detector reports. Its
input is a list of integer circles `(x, y, r)` and an overlap threshold.
The filter works as follows:

- It gives every circle a reference area of `pi * r * r`.
- It orders the indices by radius, largest first.
- It repeatedly takes the last remaining index and keeps it. That index
  is the smallest remaining radius.
- It compares the kept circle with every other remaining circle. The
  intersection is taken between the two bounding squares
  `[x - r, x + r] x [y - r, y + r]`, with negative sides clamped to 0.
  The union is the sum of the two disk areas minus that intersection.
- It deletes the kept index, plus every index whose ratio
  intersection / union exceeds the threshold.
- It returns the kept circles unchanged, in the order they were kept.

The project has three modules:

- `Geometry` (`geometry.dfy`) covers the per-pair arithmetic:
  - the clamped overlap of two intervals;
  - the square intersection;
  - the disk areas and the union;
  - the ratio;
  - the deletion test `Suppresses`.
- `Suppression` (`suppression.dfy`) covers the filter itself:
  - the deletion step is the function `NextWorklist`;
  - the pick list the loop builds is the function `Picks`;
  - the sort is the function `RadiusOrder`;
  - the loop is the method `PickLoop`, with its invariant;
  - the entry point is the method `NonMaxSuppression`.
  `Picks` and `NextWorklist` take the deletion test as a relation
  parameter, so that their list properties hold for any test. The filter
  instantiates them with `OverlapTest(t)`.
- `Scenarios` (`scenarios.dfy`) holds concrete inputs. Each result is proved
  for every radius order the sort may produce.

The code differs from the usual description of this filter in three
places. The model follows the code in each case.

- **Processing order.** The filter is described as "largest first", and
  the comment at `tools.py:97` says "current largest circle". The code,
  however, pops the end of a descending list. Picks therefore go from the
  smallest radius up, and the output comes out in ascending radius order
  (`PicksAscending`, `NonMaxSuppression`).
- **The ratio is not bounded by 1.** The intersection is measured on
  squares, but the union is measured on disks. Two identical circles
  reach `4 / (2 pi - 4)`, about 1.75 (`IouOfIdentical`). The result is
  that threshold 1.0 is not a no-op. The circles `(0,0,10)` and
  `(1,1,10)` are not coincident, yet one of them is still dropped
  (`NearPairAtOne`).
- **Applying the filter twice.** Filtering the output again returns the
  same circles, each as often as before, but not necessarily in the same
  order. This is because the sort leaves the
  order among equal radii open (`Idempotent`).

Some inputs fall outside the usual description; the model handles them
as the code does:

- A radius of 0 or less is accepted.
- When both radii are 0, the union is 0 and the ratio is `0/0`, which
  is not a number. The comparison `iou > overlapThresh` is then false,
  so `Suppresses` is false for such a pair.
- No threshold is rejected, because the code does not check it.

## Model

| member | source | states |
|---|---|---|
| Geometry.Overlap | tools.py:103-110 | the clamped overlap of two intervals is never negative, is at most either interval's length, and is positive exactly when both intervals are proper and they properly overlap |
| Geometry.OverlapSymmetric | tools.py:103-110 | the overlap does not depend on which interval is the current circle's |
| Geometry.Width | tools.py:103-109 | the clamped x-overlap w of the two bounding squares is never negative and is at most each circle's diameter (0 for a non-positive radius) |
| Geometry.Height | tools.py:104-110 | the clamped y-overlap h of the two bounding squares is never negative and is at most each circle's diameter (0 for a non-positive radius) |
| Geometry.InterArea | tools.py:103-113 | inter_area is never negative; it is 0 when a radius is not positive; it is at most 4 min(r)^2 for positive radii; it is positive exactly when both clamped sides are positive |
| Geometry.InterAreaSymmetric | tools.py:103-113 | inter_area is the same from either circle's side |
| Geometry.InterAreaSelf | tools.py:103-113 | a circle's square intersected with itself is the whole square, 4 r^2 |
| Geometry.Area | tools.py:91 | the reference area pi r^2 is never negative and is 0 exactly for radius 0 |
| Geometry.UnionArea | tools.py:116 | union_area never exceeds the sum of the two reference areas, because the subtracted intersection is never negative |
| Geometry.UnionAreaPositive | tools.py:113-116 | union_area is never negative; it is 0 exactly when both radii are 0, so the division at line 119 is defined for every other pair; for positive radii it is at least (2 pi - 4) min(r)^2 |
| Geometry.InterAtMostMaxIouUnion | tools.py:113-116 | inter_area is at most MaxIou times union_area |
| Geometry.Iou | tools.py:116-119 | when the union is positive, iou lies between 0 and MaxIou = 4 / (2 pi - 4) |
| Geometry.Suppresses | tools.py:119-122 | a pair is deleted only when some radius is non-zero, and at a threshold of 0 or more only when the squares share area; for two zero radii iou is 0/0, the comparison is false and the pair is kept |
| Geometry.SuppressesWithoutDivision | tools.py:119-122 | for every pair, the deletion test iou > t is equivalent to inter_area > t * union_area; for two zero radii both sides are false |
| Geometry.SuppressesSymmetric | tools.py:103-122 | whether a pair is deleted does not depend on which circle is current |
| Geometry.SuppressesAtZero | tools.py:119-122 | for every pair, at threshold 0 the pair is deleted exactly when the bounding squares share area (two zero radii share none) |
| Geometry.IouOfIdentical | tools.py:103-119 | two identical circles with a positive radius have iou MaxIou, and MaxIou exceeds 1 |
| Suppression.NextWorklist | tools.py:103-122 | the worklist after one deletion still indexes the circles and is no longer than the rest of the worklist |
| Suppression.NextWorklistMembers | tools.py:119-122 | the next worklist holds exactly those remaining indices whose circles the current circle does not suppress |
| Suppression.NextWorklistDistinct | tools.py:122 | deletion keeps the worklist free of repeated indices |
| Suppression.NextWorklistDescending | tools.py:94-122 | deletion keeps the worklist ordered by radius, largest first |
| Suppression.Picks | tools.py:96-100 | the pick list holds valid indices and is no longer than the worklist |
| Suppression.PicksMembers | tools.py:98-100 | only worklist indices are picked |
| Suppression.FirstPickIsSmallest | tools.py:97-100 | each round picks the last worklist index; in a largest-first worklist its circle has the smallest radius still in the worklist |
| Suppression.PicksDistinct | tools.py:98-122 | no index is picked twice when the worklist has no repetitions |
| Suppression.Gather | tools.py:124 | circles[pick] holds one circle per picked index, the circle at that index, in pick order |
| Suppression.PicksAscending | tools.py:94-122 | from a largest-first worklist, the picked radii never decrease |
| Suppression.PicksSeparated | tools.py:116-122 | no picked circle suppresses a circle picked after it |
| Suppression.PicksCover | tools.py:116-122 | every worklist index is picked, or else some picked circle suppresses it |
| Suppression.PicksKeepAll | tools.py:96-122 | when no two worklist circles overlap, every index is picked, last entry first |
| Suppression.InsertPos | tools.py:94 | the insertion point of a new index lies after every radius at least as large and before the first smaller one |
| Suppression.RadiusOrder | tools.py:94 | argsort(r)[::-1] yields every index of the circles exactly once, largest radius first |
| Suppression.GatherRadiusOrder | tools.py:94 | gathering any radius order returns the input circles, each as often as it occurs in the input: the sort is a permutation |
| Suppression.PickLoop | tools.py:96-122 | the while loop ends; it returns exactly the pick list Picks defines, because its invariant ties the picks so far and the remaining worklist to that list |
| Suppression.Survivors | tools.py:124 | the result is no longer than the radius order, and every returned circle is an input circle |
| Suppression.SurvivorsAscending | tools.py:94-124 | the returned circles come out in ascending radius order |
| Suppression.SurvivorsSeparated | tools.py:116-124 | no two returned circles suppress each other, whichever of them is taken as current: their ratio is at most the threshold, or undefined for two zero radii |
| Suppression.SurvivorsCover | tools.py:116-124 | every input circle is kept, or else it is suppressed by a kept circle |
| Suppression.NonMaxSuppression | tools.py:77-124 | the method returns [] for empty input; for other input it returns the survivors of a largest-first radius order; the result is a repetition-free pick, with at most as many circles as the input, all of them input circles, in ascending radius, no two of them suppressing each other in either direction, and covering every input circle |
| Suppression.OverlapTestSymmetric | tools.py:103-122 | the deletion test at any threshold is a symmetric relation |
| Suppression.RerunKeepsAll | tools.py:77-124 | for a symmetric test, re-running the worklist on the kept circles, in any largest-first order, keeps each of them exactly as often as before: the second result is a permutation of the first |
| Suppression.Idempotent | tools.py:77-124 | running the filter on its own output returns a permutation of it: the same circles, each as often as before |
| Scenarios.NearPairSuppresses | tools.py:103-122 | circles (0,0,10) and (1,1,10) share a 19 x 19 square, and each suppresses the other at every threshold up to 1 |
| Scenarios.ClusterOrders | tools.py:94 | for the cluster of three circles, the only radius orders put the small circle last |
| Scenarios.ClusterSurvivors | tools.py:77-124 | at threshold 0.5 the cluster keeps two circles: the small far one first, then one of the near pair |
| Scenarios.NearPairAtOne | tools.py:116-124 | at threshold 1.0 the two near circles still reduce to one survivor |
| Scenarios.ApartPairKept | tools.py:77-124 | two circles whose squares do not meet both survive at any threshold of 0 or more |

## Left out

- `culatePoint` (tools.py:7-75) is not modelled. It consists of OpenCV image I/O and processing: reading, filtering, edge detection, the Hough transform, drawing, resizing and writing. These are foreign library calls.
- The date formatting and printing at tools.py:45 and 59-74 are not modelled. They are output side effects.
- The rounding of the Hough output to integers at tools.py:38 is not modelled. The model starts from integer circles.
- Floating point is not modelled. Areas, unions and ratios are exact reals. `PI` is 3.141592653589793, the shortest decimal form of `np.pi`; the double itself differs from it by about 1.2e-16. Rounding error in lines 91-119 is not represented.
- Integer overflow of numpy's integer arrays is not modelled. Coordinates and radii are unbounded integers.
- The `.astype("int")` at tools.py:124 is not modelled. It changes nothing, because the model's circles are already integers.
- Suppression.RadiusOrder fixes one order among equal radii, namely insertion order. numpy's argsort may pick a different one. The filter's properties (`NonMaxSuppression`, `Survivors*`, `Idempotent`) are therefore stated for every order that satisfies `IsRadiusOrder`, not just for this one.
- Suppression.Idempotent states that a second run returns a permutation of the first result. It does not state that it returns the same sequence, because the order among equal radii is left open.
- Rejecting thresholds outside [0, 1] is not modelled, because the code does not validate the threshold.
