# Vehicle counter: a verified model of the tracking core

The program counts vehicles in a traffic video. Each frame, a background
subtractor finds moving blobs, which are bounding boxes with centroids. The
`VehicleCounter` class then does four things with them:

1. It associates the blobs with the vehicles it already tracks.
2. It starts a new vehicle for every blob nobody took.
3. It counts every vehicle whose newest position has passed a horizontal
   divider line.
4. It drops vehicles that have not been seen for seven frames.

This project models that tracking core, `python/detection_alt.py` lines
22–160, in three modules.

- `Geometry` (`geometry.dfy`) models `get_vector` and `is_valid_vector`:
  - the (distance, angle) vector from a vehicle's last position to a candidate
    centroid, with the same sign branches as the source;
  - the acceptance radius `max(10, -0.008 a² + 0.4 a + 25)`.
- `Tracking` (`tracking.dfy`) describes one frame on values.
  - `VisitTrack` is one vehicle's turn.
  - `Associate` gives every vehicle its turn in list order on the shrinking
    pool of blobs.
  - `Spawn` creates the new vehicles, `CountAll`/`Crossings` count, and
    `Prune` removes.
  - `Step` is the whole frame.
  - The lemmas state what a frame guarantees:
    - the first acceptable blob wins;
    - no blob is used twice, and the blobs left over keep the detector's order;
    - every leftover blob starts exactly one vehicle, with consecutive ids;
    - counting happens once and is permanent;
    - the count is always exactly the number of distinct vehicles ever counted;
    - removal drops exactly the stale vehicles and keeps the others in order;
    - the counter invariant is preserved.
- `Detection` (`detection.dfy`) holds the program's two classes: `Vehicle`
  and `VehicleCounter`, whose fields are updated in place.
  - Each method that changes state is proved to do exactly what the `Tracking`
    function for it describes, on the objects' values (`Vehicle.Value()`,
    `VehicleCounter.Value()`).
  - So the properties above hold of the running objects.
  - `UpdateCount` is split along its four commented passes (association,
    creation, counting, removal). Each pass is a method with its own loop.
  - The association and counting loops call a one-vehicle step method
    (`UpdateAndTake`, `CountIfPast`).

## Model

| member | source | states |
|---|---|---|
| Geometry.AngleRange | python/detection_alt.py:59-88 | With a genuine arc tangent the angle lies in (-180, 180]. Downward motion gives an angle in (-90, 90), up-left gives (90, 180) and up-right gives (-180, -90). |
| Geometry.AxisVectors | python/detection_alt.py:66-86 | Along the axes the vector is exact: straight down is (\|dy\|, 0), straight up is (\|dy\|, 180), right is (\|dx\|, -90), left is (\|dx\|, 90), and no motion is (0, 0). |
| Geometry.Threshold | python/detection_alt.py:94 | The acceptance radius lies between 10 and 30. It is 10 exactly when the angle is at most -25 or at least 75, and 30 exactly at 25 degrees. |
| Geometry.IsValidVector | python/detection_alt.py:91-95 | A vector up to 10 long is always valid and one longer than 30 never is. Outside the angles (-25, 75) it is valid exactly when its length is at most 10. |
| Geometry.AcceptsByDistance | python/detection_alt.py:59-95 | With a genuine square root, a centroid within 10 pixels of the last position is always accepted and one more than 30 away never is, whatever the direction. |
| Tracking.FirstMatch | python/detection_alt.py:100-108 | The index returned is that of an acceptable blob, and every earlier blob is unacceptable. Nothing is returned only when no blob is acceptable. |
| Tracking.FirstMatchIs | python/detection_alt.py:100-115 | Conversely, an index whose blob is acceptable while every earlier blob is not is the index the search returns. If no blob is acceptable, the search returns nothing. |
| Tracking.VisitTrackEffect | python/detection_alt.py:98-125 | A vehicle that takes a blob takes an acceptable one at some index of the pool. It appends that blob's centroid as its newest position and is marked just seen. The pool left is the old pool with exactly that index deleted, the others in order. A vehicle that takes nothing found no blob acceptable, and only its unseen-frames count rises by exactly 1. |
| Tracking.AssociateEffect | python/detection_alt.py:121-125 | After association every vehicle keeps its id and counted flag. A vehicle that took a blob took an acceptable one and has its centroid as newest position. One that took nothing differs only by one more unseen frame. |
| Tracking.AssociateConserves | python/detection_alt.py:121-125 | No blob is used twice: the original pool, as a multiset, is exactly the leftover blobs plus the blobs taken. |
| Tracking.AssociateKeepsOrder | python/detection_alt.py:121-131 | Association only deletes blobs. The leftover blobs, whose order decides the ids new vehicles get, are a subsequence of the detector's list. |
| Tracking.AssociateUnmatchedRejectsRest | python/detection_alt.py:121-125 | A vehicle that took nothing finds none of the leftover blobs acceptable, and none of the blobs that later vehicles took. |
| Tracking.GreedyFirstComeFirstServed | python/detection_alt.py:121-125 | When two vehicles both accept the only blob, the earlier one in the list gets it and the later one goes one frame unseen. |
| Tracking.SpawnAt | python/detection_alt.py:128-132 | The k-th leftover blob becomes a vehicle with id `nextId + k` whose only position is that blob's centroid, unseen for 0 frames and not counted. |
| Tracking.Cross | python/detection_alt.py:137-140 | After the counting rule a vehicle is counted exactly when it already was or its newest y is past the divider. Nothing else changes. |
| Tracking.CountAllAt | python/detection_alt.py:137-140 | The counting pass applies the rule to each vehicle in place. |
| Tracking.CountAllTally | python/detection_alt.py:137-140 | The counting pass sets exactly as many new counted flags as the count rises by. |
| Tracking.PruneMembers | python/detection_alt.py:155-156 | A vehicle survives removal exactly when it was present and had been unseen for fewer than the limit. |
| Tracking.PruneAppend | python/detection_alt.py:155-156 | Removal keeps the relative order of the survivors: it distributes over concatenation. |
| Tracking.StepKeepsInv | python/detection_alt.py:118-160 | A frame keeps the counter invariant and never lowers the count. The next id rises by exactly the number of leftover blobs. The invariant says: every vehicle has a position, ids increase along the list and stay below the next id, no vehicle is stale, and the count covers every counted flag. |
| Tracking.StepCountRise | python/detection_alt.py:137-140 | The count rises in a frame by exactly the number of counted flags the counting pass set. |
| Tracking.CrossedIdsCard | python/detection_alt.py:137-140 | When ids are distinct, the counting pass counts exactly as many distinct ids as it has crossings. |
| Tracking.StepCountsIds | python/detection_alt.py:118-160 | Over any number of frames the count equals the number of distinct vehicle ids ever counted. Suppose before a frame the count is the size of a set of counted ids, a tracked vehicle is flagged exactly when its id is in the set, and every id in it has been handed out. Then after the frame the same holds for the set plus the ids of this frame's crossers, and none of those crossers was in the set. Removing a vehicle changes neither the count nor the set. |
| Tracking.StepKeepsCounted | python/detection_alt.py:137-140 | Counting is permanent: a vehicle counted before a frame that survives it is still counted. |
| Tracking.StepCountsCrossers | python/detection_alt.py:137-140 | After a frame every vehicle whose newest position is past the divider is counted. |
| Tracking.StepSpawnsLeftovers | python/detection_alt.py:128-140 | After a frame, the k-th leftover blob is the k-th of the trailing vehicles. It has id `nextId + k`, that blob's centroid as its only position and 0 unseen frames, and it is counted exactly when the centroid is past the divider. |
| Tracking.StepKeepsNewcomers | python/detection_alt.py:128-156 | Vehicles created in a frame are never removed in that same frame. |
| Detection.Vehicle.constructor | python/detection_alt.py:23-27 | A new vehicle has exactly one position, 0 unseen frames and is not counted. |
| Detection.Vehicle.LastPosition | python/detection_alt.py:29-31 | The last position is the newest position of the vehicle's value. |
| Detection.Vehicle.AddPosition | python/detection_alt.py:33-35 | Appends exactly one position, which becomes the last, resets the unseen-frames count to 0 and keeps the counted flag. |
| Detection.VehicleCounter.constructor | python/detection_alt.py:46-55 | A new counter has no vehicles, next id 0, count 0, no counted ids and a staleness limit of 7, and satisfies the invariant. |
| Detection.VehicleCounter.UpdateVehicle | python/detection_alt.py:98-115 | Returns the index of the first blob whose vector from the last position is valid, or nothing. The vehicle ends in the state `VisitTrack` describes. |
| Detection.VehicleCounter.UpdateCount | python/detection_alt.py:118-160 | One call performs exactly the frame `Step` describes on the counter's value and keeps the invariant. The invariant includes that the count equals the number of distinct ids ever counted (ghost `countedIds`). The ids counted this frame are new to that set, and the returned list is the blobs left after association. |
| Detection.VehicleCounter.UpdateVehicles | python/detection_alt.py:121-125 | The vehicles end in the states `Associate` gives, and the blobs left are its leftover pool. |
| Detection.VehicleCounter.UpdateAndTake | python/detection_alt.py:123-125 | Vehicle k takes its turn and the blob it took is deleted from the list. No other vehicle changes. |
| Detection.VehicleCounter.AddVehicles | python/detection_alt.py:128-132 | The new vehicles, one per blob, are appended after the existing ones, as `Spawn` gives. The next id advances by the number of blobs. |
| Detection.VehicleCounter.AddVehicle | python/detection_alt.py:129-132 | One new vehicle with the next id is appended, and the next id rises by one. |
| Detection.VehicleCounter.CountVehicles | python/detection_alt.py:137-140 | The vehicles end as `CountAll` gives, the count rises by exactly the number of crossings, and the ghost set of counted ids gains exactly the crossers' ids. |
| Detection.VehicleCounter.CountIfPast | python/detection_alt.py:138-140 | Applies the counting rule to vehicle k alone. The count rises by one, and the vehicle's id joins the counted ids, exactly when the vehicle crosses. |
| Detection.VehicleCounter.RemoveStale | python/detection_alt.py:152-156 | The tracked vehicles become exactly those `Prune` keeps, in order. |
| Detection.VehicleCounter.KeptVehicles | python/detection_alt.py:155-156 | The list built holds, in order, the vehicles unseen for fewer than the limit, and only tracked vehicles. |

## Left out

- Drawing is not modelled: `Vehicle.draw` (lines 37–41) and the optional
  `output_image` branch of `update_count` (lines 144–150). They only paint
  on an image and change no tracker state.
- Logging (`self.log`) is not modelled. Nor is the `removed` id list
  (lines 153–154, 157–158), which exists only to be logged.
- The video-processing script after line 162 is not part of this model:
  capture, background subtraction, contour filtering and the main loop.
- `math.sqrt` and `math.degrees(math.atan(...))` become the parameters
  `sqrt` and `atanDeg` of the counter. The lemmas that need their behaviour
  (`IsSqrt`, `IsAtanDeg`) take it as a hypothesis.
- Python floats are modelled as exact reals, so rounding in `get_vector` and
  in the threshold formula is not captured.
- Pixel coordinates are unbounded integers.
- `update_count` deletes the taken blobs from the caller's list in place.
  The model passes the list by value and returns what is left in it instead,
  so aliasing of that list is not captured.
- The contour part of a match appears only as an opaque `Box`. The tracker
  never looks at it.
- The counter owns its vehicle objects; a ghost set `Repr` records them.
  Vehicle objects shared with other code are not modelled.
