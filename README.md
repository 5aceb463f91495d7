# Face-login matching and tracking engine in Dafny

This project models the identity matching and tracking engine of an Android
face-login app, and proves properties of the model.

For every detected face, the engine looks at the face's detector tracking id.

- **Bound id.** If the id is already in the track map (`employeeMap`,
  tracking id to `Employee`), the engine refreshes that employee's
  timestamp and login streak.
- **Unbound id.** Otherwise it searches the whole registry of enrolled
  employees for the best-matching stored embedding, and binds the id to
  that employee.

After all faces, a sweep evicts idle tracks and decays the streaks. The app
holds two versions of this engine, and enrolment adds employees to the
registry.

## Files

| File | What it holds |
|---|---|
| `wrappers.dfy` | `Option` and `Result`. |
| `embedding.dfy` (module `Embeddings`) | The `Embedding` value: content equality, hash code, `normalize`, and the cosine, Euclidean and Manhattan scores. Floats are reals; a `Float` result that can be infinite or NaN is a `Score`. |
| `records.dfy` (module `Records`) | The `Employee` class, whose `lastTracked` and `framesTracked` are updated in place and shared between the registry and the track map. Also the output record `TrackedFace`, the `Candidate` pair, and a detected face (`Detection`). |
| `tracking.dfy` (module `Tracking`) | The engine's rules on values. |
| `legacy.dfy` (module `LegacyTracking`) | The older matching block of `detectFaces`, on values. |
| `camera_view_model.dfy` (module `ViewModel`) | `class CameraViewModel`: enrolment, reset, the registry search, and the older per-frame loop. |
| `model.dfy` (module `Recognition`) | `class Model` with `Run`, the per-frame pass of `Model.run`, and its end-of-frame sweep. |

`tracking.dfy` states the engine's rules on values:

- The registry is a sequence of embedding lists (`groups`). `TrackState` maps tracking ids to registry positions and holds `lastTracked` and `framesTracked` per position.
- `Search` is the best-candidate search, `Refresh` the bound path, and `FaceStep` one face.
- `FramePass` runs the faces of a frame, `Sweep` is the end-of-frame sweep, and `ProcessFrame` is one whole call of `run`.

### How the classes relate to the value-level rules

The class methods work on objects. `Groups()` and `State()` read the objects back as values. Every state-changing method ensures that the new `State()` is the value-level function applied to the old one, for example:

- `Run` ends in `ProcessFrame(old(Groups()), old(State()), faces, score, now).state`.
- `DetectFaces` ends in `LegacyProcessFrame(...)`.
- `AddNewEmployee` ends in `Enroll(...)`.

The engine's properties are then lemmas about those functions.

### Parameters in place of the environment

- **Scorer.** The similarity is a parameter `score(stored, probe)`. The app passes `compareCosineSimilarity`.
- **Time.** `now` is a parameter: `Model.run` reads the clock once per frame, `detectFaces` once per face (`StampedFace`).
- **`login()`.** It is counted, not performed.

### The older variant's crash

In the older variant, a bound track can be unbound inside the loop over its stored embeddings. The next stored embedding then looks the id up, gets null, and dereferences it.

The exception is thrown inside the detector's success callback (CameraViewModel.kt:127-203). The `try` at CameraViewModel.kt:123-211 only wraps registering that callback. The app therefore stops analysing frames for good: the process ends, and even if the exception were swallowed, `proxy.close()` would be skipped and no further frame would arrive.

The model keeps this faithfully:

- `LegacyRefresh` ends with `crashed`.
- `DetectFaces` returns `None` at that point. `None` stands for the end of analysis, not for one skipped frame. The state keeps the changes made before the crash.
- `StaleTrackWithTwoEmbeddingsCrashes` exhibits the crash for one face step.
- `LegacyNeverCrashesWithSingleEmbeddings` shows that the crash cannot happen while every employee has one stored embedding.
- Enrolment only ever creates such records: the constructor, `AddNewEmployee` and `ResetEmployeeMap` keep `SingleEmbeddings()`. `DetectFaces` ensures it always publishes when `SingleEmbeddings()` held.

### Behaviours of the code worth knowing

- **Login repeats.** Once the streak is at least 10, every refresh calls `login()` again: exactly once per stored embedding of the employee (`LoginRepeats`, `RefreshEffect`).
- **The first login.** Take an id that is already bound, with its employee freshly stamped and streak 0, as right after `addNewEmployee`, and one steadily matching embedding. The first login then comes on the ninth frame (`SteadyMatchLogsInOnNinthFrame`).
- **A binding made by the search is not stamped.** When `Model.run` binds an unbound id to the best candidate, it does not update that employee's `lastTracked`. If the employee was last seen more than 1000 ms ago, the same frame's sweep removes the new binding again. The face is still reported with that employee, and no `login()` is called (`SearchBindingIsNotStamped`).
- **Stale employees stay unbound.** As a consequence, an employee with no bound id and a stale timestamp stays unbound and unstamped through every frame whose tracking ids are distinct, with a clock that does not go back: `StaleEmployeeStaysUnbound` proves this for one `run`, and `StaleEmployeeStaysUnboundInSession` for any sequence of frames by induction over it. So once an employee has no bound id and was last seen more than 1000 ms ago (as after its track is swept, or 1000 ms after a reset), `Model.run` still reports the employee on each face the search matches, but never keeps it bound, never refreshes its streak and never logs it in, unless it is enrolled again.
- **Enrolment never merges.** Enrolling an existing id with another embedding adds a second record (`EnrolTwiceKeepsBoth`).
- **Different unbinding rules.** The older variant unbinds after 2000 ms inside the bound path. The main engine evicts after 1000 ms in the sweep.

## Model

Source paths are relative to the repository root.

| member | source | states |
|---|---|---|
| Embeddings.GreaterIsTransitive | app/src/main/java/com/zachm/employeelogin/util/Model.kt:109 | Float `>` as used by the candidate search is transitive, NaN included (NaN is never greater nor smaller). |
| Embeddings.ContentEquals | app/src/main/java/com/zachm/employeelogin/util/Embedding.kt:26 | `contentEquals` holds iff same length and equal elements index by index. |
| Embeddings.Equals | app/src/main/java/com/zachm/employeelogin/util/Embedding.kt:20-27 | Two embeddings are equal iff their component sequences are equal. |
| Embeddings.ToInt32 | app/src/main/java/com/zachm/employeelogin/util/Embedding.kt:29-31 | The 32-bit wrap used by the hash: result in Int range and congruent to the input mod 2^32. |
| Embeddings.ContentHash | app/src/main/java/com/zachm/employeelogin/util/Embedding.kt:29-31 | The `contentHashCode` recurrence (31 * h + bits, from 1) wrapped at 32 bits always yields a Java Int. |
| Embeddings.HashCode | app/src/main/java/com/zachm/employeelogin/util/Embedding.kt:29-31 | `contentHashCode` is always a Java Int. |
| Embeddings.HashCodeAgreesWithEquals | app/src/main/java/com/zachm/employeelogin/util/Embedding.kt:20-31 | Equal embeddings have equal hash codes. |
| Embeddings.ScaleSquareSum | app/src/main/java/com/zachm/employeelogin/util/Embedding.kt:17 | Dividing every component by a non-zero norm divides the squared norm by the norm squared. |
| Embeddings.Normalized | app/src/main/java/com/zachm/employeelogin/util/Embedding.kt:12-18 | `normalize` keeps the length of the vector. |
| Embeddings.NormalizedIsUnit | app/src/main/java/com/zachm/employeelogin/util/Embedding.kt:12-18 | With an exact square root, `normalize` of a non-zero vector has squared norm 1, and the zero vector comes back unchanged. |
| Embeddings.Normalize | app/src/main/java/com/zachm/employeelogin/util/Embedding.kt:12-18 | The accumulating loop computes the squared norm and returns the scaled vector when the norm is positive, the input otherwise. |
| Embeddings.CompareCosineSimilarity | app/src/main/java/com/zachm/employeelogin/util/Embedding.kt:37-54 | The loop's dot product and norms give `dot / (normA * normB)` under IEEE division; it fails (index out of bounds) exactly when `other` is shorter. |
| Embeddings.CosineIgnoresTail | app/src/main/java/com/zachm/employeelogin/util/Embedding.kt:42-46 | Components of `other` beyond this embedding's length are never read. |
| Embeddings.CosineSymmetric | app/src/main/java/com/zachm/employeelogin/util/Embedding.kt:37-54 | For equal lengths the cosine score is symmetric. |
| Embeddings.CosineSelf | app/src/main/java/com/zachm/employeelogin/util/Embedding.kt:33-54 | A non-zero embedding scores exactly 1 against itself under an exact square root. |
| Embeddings.CosineSelfOfZeroIsNaN | app/src/main/java/com/zachm/employeelogin/util/Embedding.kt:51 | The all-zero embedding scores NaN (0/0) against itself, so it never matches. |
| Embeddings.CompareEuclideanDistance | app/src/main/java/com/zachm/employeelogin/util/Embedding.kt:60-75 | Returns 0 when the lengths differ, otherwise `1 - sqrt(sum of squared differences of the normalised vectors) / sqrt(4n)`. |
| Embeddings.SquaredDistance | app/src/main/java/com/zachm/employeelogin/util/Embedding.kt:66-71 | The loop accumulates the sum of squared differences, which is never negative. |
| Embeddings.EuclideanSymmetric | app/src/main/java/com/zachm/employeelogin/util/Embedding.kt:60-75 | The Euclidean score is symmetric. |
| Embeddings.EuclideanSelf | app/src/main/java/com/zachm/employeelogin/util/Embedding.kt:60-75 | A non-empty embedding scores exactly 1 against itself. |
| Embeddings.CompareManhattanDistance | app/src/main/java/com/zachm/employeelogin/util/Embedding.kt:81-91 | Returns 0 when the lengths differ, otherwise `1 - (sum of absolute differences) / (2n)`. |
| Embeddings.ManhattanSymmetric | app/src/main/java/com/zachm/employeelogin/util/Embedding.kt:86-90 | The Manhattan score is symmetric. |
| Embeddings.ManhattanSelf | app/src/main/java/com/zachm/employeelogin/util/Embedding.kt:84-90 | A non-empty embedding scores exactly 1 against itself; two empty ones give NaN (0/0). |
| Embeddings.ManhattanInUnitRange | app/src/main/java/com/zachm/employeelogin/util/Embedding.kt:77-90 | For equal-length non-empty embeddings with components in [-1, 1] the score is finite and in [0, 1]. |
| Records.Employee.constructor | app/src/main/java/com/zachm/employeelogin/util/Employee.kt:3 | A record carries the five given properties. |
| Records.Employee.SameData | app/src/main/java/com/zachm/employeelogin/util/Employee.kt:3 | Data-class equality: all five properties equal, the embedding lists element by element under `Embedding.equals`. |
| Tracking.Enroll | app/src/main/java/com/zachm/employeelogin/CameraViewModel.kt:104-111 | Appending a record and binding `currentId` to it keeps the state well formed for the grown registry. |
| Tracking.ScanEmployee | app/src/main/java/com/zachm/employeelogin/util/Model.kt:105-113 | Scanning one employee's embeddings either keeps the best so far or replaces it by a matching score of that employee. |
| Tracking.Search | app/src/main/java/com/zachm/employeelogin/util/Model.kt:102-114 | A chosen candidate is a registry position whose score matches (>= 0.8). |
| Tracking.ScanEmployeeIsBest | app/src/main/java/com/zachm/employeelogin/util/Model.kt:105-113 | One employee's scan extends the best-of invariant from the employees before it to its own embeddings. |
| Tracking.SearchIsBestOf | app/src/main/java/com/zachm/employeelogin/util/Model.kt:104-114 | The whole search satisfies the best-of invariant over the registry. |
| Tracking.SearchFindsBest | app/src/main/java/com/zachm/employeelogin/util/Model.kt:102-114 | No candidate iff no stored embedding scores >= 0.8; otherwise the chosen score is attained by the chosen employee, no stored score is strictly greater, and every matching score of an earlier employee is strictly smaller (ties keep the first). |
| Tracking.Refresh | app/src/main/java/com/zachm/employeelogin/util/Model.kt:85-99 | A bound refresh never lowers the streak or the login count. |
| Tracking.RefreshEffect | app/src/main/java/com/zachm/employeelogin/util/Model.kt:85-99 | The streak grows by exactly 2 per matching embedding, `lastTracked` becomes `now` iff something matched, `login()` is called iff there was an embedding and the final streak is >= 10, at most once per embedding, and exactly once per embedding when the streak already stood at 10. |
| Tracking.FaceStep | app/src/main/java/com/zachm/employeelogin/util/Model.kt:83-123 | One face keeps the state well formed, reports the tracking id or 0, and resolves only to registry positions. |
| Tracking.FaceStepBound | app/src/main/java/com/zachm/employeelogin/util/Model.kt:84-100 | A bound id is never searched for or rebound: the map is unchanged, only its employee's fields move (by 2 per match, stamped iff matched), login iff embeddings exist and streak >= 10, and every other employee is untouched. |
| Tracking.FaceStepUnbound | app/src/main/java/com/zachm/employeelogin/util/Model.kt:101-118 | An unbound id changes no timestamp or streak; it resolves to nobody and leaves the map alone iff nothing scores >= 0.8, otherwise it is bound to an employee holding a matching score no stored score exceeds. |
| Tracking.FaceStepWithoutId | app/src/main/java/com/zachm/employeelogin/util/Model.kt:83-123 | A face without a tracking id changes no binding, timestamp or streak, calls no `login()`, and is reported as id 0 with no employee. |
| Tracking.SearchBindingIsNotStamped | app/src/main/java/com/zachm/employeelogin/util/Model.kt:101-137 | One face with an unbound id: no `login()`, reported with its id; if it is bound to an employee, the binding survives the frame's sweep iff that employee was last seen within 1000 ms, since the binding does not stamp it. |
| Tracking.FramePassLeavesUnboundStamp | app/src/main/java/com/zachm/employeelogin/util/Model.kt:63-123 | With distinct tracking ids, the faces of a frame leave the timestamp of an employee with no bound id alone, and any id bound to it belongs to a face of the frame. |
| Tracking.StaleEmployeeStaysUnbound | app/src/main/java/com/zachm/employeelogin/util/Model.kt:51-143 | An employee with no bound id, last seen more than 1000 ms ago, still has no bound id and the same timestamp after a whole `run` with distinct tracking ids. |
| Tracking.Session | app/src/main/java/com/zachm/employeelogin/util/Model.kt:51-143 | Any sequence of frames, each run in turn at its own timestamp, keeps the state well formed. |
| Tracking.StaleEmployeeStaysUnboundInSession | app/src/main/java/com/zachm/employeelogin/util/Model.kt:51-143 | Over any sequence of frames with distinct tracking ids per frame and a clock that never goes back, an employee with no bound id, last seen more than 1000 ms before the first frame, ends with no bound id and its timestamp unchanged. |
| Tracking.FramePass | app/src/main/java/com/zachm/employeelogin/util/Model.kt:63-128 | The faces of a frame in order give one resolution per face and keep the state well formed. |
| Tracking.DecayIsRepeatedDecrement | app/src/main/java/com/zachm/employeelogin/util/Model.kt:135-137 | The closed form of the streak decay equals one guarded decrement per visited map entry. |
| Tracking.Sweep | app/src/main/java/com/zachm/employeelogin/util/Model.kt:130-138 | The sweep never adds or rebinds an entry, keeps the lengths of the per-employee fields, and every remaining entry was seen within 1000 ms. |
| Tracking.SweepEffect | app/src/main/java/com/zachm/employeelogin/util/Model.kt:130-138 | The sweep keeps exactly the entries idle for at most 1000 ms, never rebinds, keeps timestamps, decrements each positive streak once per id bound to it and never below 0, and leaves unbound employees' streaks alone. |
| Tracking.ProcessFrame | app/src/main/java/com/zachm/employeelogin/util/Model.kt:51-143 | A whole `run` keeps the state well formed with one resolution per face. |
| Tracking.FramePassReports | app/src/main/java/com/zachm/employeelogin/util/Model.kt:63-123 | One output per face in detection order, carrying the tracking id or 0; a face without an id resolves to nobody. |
| Tracking.FramePassKeepsBindings | app/src/main/java/com/zachm/employeelogin/util/Model.kt:84-118 | Within a frame no binding is lost or changed, and every new binding belongs to a face of the frame. |
| Tracking.FramePassRaisesStreaks | app/src/main/java/com/zachm/employeelogin/util/Model.kt:90-93 | The faces of a frame never lower a streak. |
| Tracking.ProcessFrameKeepsStreaksNonNegative | app/src/main/java/com/zachm/employeelogin/util/Model.kt:135-137 | Non-negative streaks stay non-negative across a whole `run`. |
| Tracking.ProcessFrameEvictsIdle | app/src/main/java/com/zachm/employeelogin/util/Model.kt:131-134 | After `run` no remaining track has been idle for more than 1000 ms. |
| Tracking.RefreshSingle | app/src/main/java/com/zachm/employeelogin/util/Model.kt:85-99 | Against one matching embedding a refresh stamps `now`, adds 2 to the streak and calls `login()` once iff the new streak is >= 10. |
| Tracking.SteadyFrame | app/src/main/java/com/zachm/employeelogin/util/Model.kt:51-143 | One frame with one bound, matching face from streak f >= 0: the streak ends at f + 1, the track is stamped `now` and stays bound, and `login()` is called once iff f + 2 >= 10. |
| Tracking.LoginRepeats | app/src/main/java/com/zachm/employeelogin/util/Model.kt:96-98 | With a streak already >= 10, every refresh calls `login()` again: there is no one-shot guard. |
| Tracking.SteadyMatchLogsInOnNinthFrame | app/src/main/java/com/zachm/employeelogin/util/Model.kt:85-137 | One bound employee with one steadily matching embedding: after k frames the streak is k and `login()` has been called k - 8 times once k >= 9. |
| LegacyTracking.LegacyRefresh | app/src/main/java/com/zachm/employeelogin/CameraViewModel.kt:158-172 | The older bound loop never rebinds an unbound id, a crash arising in it happens only after the id was unbound, and the timestamp ends either unchanged or `now`. |
| LegacyTracking.LegacyRefreshEffect | app/src/main/java/com/zachm/employeelogin/CameraViewModel.kt:158-172 | The older bound path aborts iff there are >= 2 embeddings, the first does not match and the track is already idle > 2000 ms; otherwise it stamps `now` iff something matched and keeps the binding iff then idle <= 2000 ms. |
| LegacyTracking.LegacyRefreshAbortIsFinal | app/src/main/java/com/zachm/employeelogin/CameraViewModel.kt:158-172 | After the null dereference the remaining embeddings change nothing. |
| LegacyTracking.SingleEmbeddingNeverCrashes | app/src/main/java/com/zachm/employeelogin/CameraViewModel.kt:158-172 | With at most one stored embedding the older bound path never aborts. |
| LegacyTracking.LegacyFaceStep | app/src/main/java/com/zachm/employeelogin/CameraViewModel.kt:156-193 | One face of the older variant keeps the state well formed, never touches a streak, and reports the tracking id or 0. |
| LegacyTracking.LegacyFaceStepUnbindsIdle | app/src/main/java/com/zachm/employeelogin/CameraViewModel.kt:164-171 | A bound id that does not abort stays bound iff its refreshed track is idle <= 2000 ms (or it has no embeddings); `lastTracked` is `now` iff something matched; no other binding changes. |
| LegacyTracking.LegacyProcessFrame | app/src/main/java/com/zachm/employeelogin/CameraViewModel.kt:138-198 | The older frame keeps the state well formed, never changes a streak, and resolves every face unless it aborted. |
| LegacyTracking.LegacyCrashIsFinal | app/src/main/java/com/zachm/employeelogin/CameraViewModel.kt:138-198 | Once a face aborts the frame, the later faces change nothing. |
| LegacyTracking.LegacyNeverCrashesWithSingleEmbeddings | app/src/main/java/com/zachm/employeelogin/CameraViewModel.kt:156-172 | When every employee has at most one embedding (all enrolment creates) the older frame never aborts. |
| LegacyTracking.StaleTrackWithTwoEmbeddingsCrashes | app/src/main/java/com/zachm/employeelogin/CameraViewModel.kt:158-172 | Two embeddings, the first not matching, on a track idle > 2000 ms: the older face step aborts. |
| ViewModel.CameraViewModel.constructor | app/src/main/java/com/zachm/employeelogin/CameraViewModel.kt:49-50 | The registry and the track map start empty, so every record holds one embedding. |
| ViewModel.CameraViewModel.Contains | app/src/main/java/com/zachm/employeelogin/CameraViewModel.kt:107 | `contains` is true iff some registry record is data-equal to the new one. |
| ViewModel.CameraViewModel.AddNewEmployee | app/src/main/java/com/zachm/employeelogin/CameraViewModel.kt:104-111 | If a record with the same five properties exists, neither registry nor map changes; otherwise exactly one fresh record with one embedding, stamped `now`, streak 0, is appended and `currentId` is bound to it, other entries unchanged, and the state becomes `Enroll` of the old one; every record still holds one embedding if each did before. |
| ViewModel.CameraViewModel.Append | app/src/main/java/com/zachm/employeelogin/CameraViewModel.kt:108-109 | The registry grows by exactly the record and the map gains exactly the binding. |
| ViewModel.CameraViewModel.ResetEmployeeMap | app/src/main/java/com/zachm/employeelogin/CameraViewModel.kt:286 | The track map becomes empty; the registry and every record are unchanged, so single-embedding records stay so. |
| ViewModel.CameraViewModel.BestCandidate | app/src/main/java/com/zachm/employeelogin/CameraViewModel.kt:175-187 | The nested loops find exactly the candidate `Search` finds (so `SearchFindsBest` applies). |
| ViewModel.CameraViewModel.BindBest | app/src/main/java/com/zachm/employeelogin/CameraViewModel.kt:174-191 | An unbound id is bound to the found candidate, or nothing changes when there is none. |
| ViewModel.CameraViewModel.RefreshBoundLegacy | app/src/main/java/com/zachm/employeelogin/CameraViewModel.kt:157-172 | The bound loop of the older variant moves the objects as `LegacyRefresh` says, including the abort. |
| ViewModel.CameraViewModel.LegacyScan | app/src/main/java/com/zachm/employeelogin/CameraViewModel.kt:157-172 | The loop over the bound employee's embeddings stamps, unbinds and aborts as `LegacyRefresh` says; it touches only that employee's timestamp and the track map. |
| ViewModel.CameraViewModel.LegacyTrackFace | app/src/main/java/com/zachm/employeelogin/CameraViewModel.kt:156-196 | One face moves the objects as `LegacyFaceStep` says and yields its output record unless it aborted. |
| ViewModel.CameraViewModel.DetectFaces | app/src/main/java/com/zachm/employeelogin/CameraViewModel.kt:138-198 | The matching block ends in the state `LegacyProcessFrame` gives, publishes the output list iff no bound refresh dereferenced null, and never changes the registry; with one embedding per record (all enrolment creates) it always publishes. |
| ViewModel.CameraViewModel.DetectNext | app/src/main/java/com/zachm/employeelogin/CameraViewModel.kt:138-197 | One turn of the per-face loop extends the frame by one face. |
| ViewModel.EnrolTwiceKeepsBoth | app/src/main/java/com/zachm/employeelogin/CameraViewModel.kt:104-111 | Enrolling the same employee id twice with different embeddings gives two records with that id: no merge. |
| Recognition.Model.constructor | app/src/main/java/com/zachm/employeelogin/util/Model.kt:24 | The model works on the given view model. |
| Recognition.Model.RefreshBound | app/src/main/java/com/zachm/employeelogin/util/Model.kt:84-100 | The bound loop moves the shared record as `Refresh` says, counts the `login()` calls, and changes no other record. |
| Recognition.Model.TrackFace | app/src/main/java/com/zachm/employeelogin/util/Model.kt:63-124 | One face moves the objects as `FaceStep` says and yields its output record. |
| Recognition.Model.Sweep | app/src/main/java/com/zachm/employeelogin/util/Model.kt:130-138 | The objects end as the value-level `Sweep` of their state; the registry and the embeddings are unchanged. |
| Recognition.Model.SweepEntries | app/src/main/java/com/zachm/employeelogin/util/Model.kt:131-138 | Visiting every entry once removes exactly the idle ones and decrements each employee's positive streak once per entry bound to it. |
| Recognition.Model.SweepStep | app/src/main/java/com/zachm/employeelogin/util/Model.kt:131-138 | One turn of the sweep visits one pending entry and keeps the sweep invariant. |
| Recognition.SweepAdvance | app/src/main/java/com/zachm/employeelogin/util/Model.kt:131-138 | Visiting a pending entry moves it to the visited ones, takes one from its employee's positive streak only, and drops it from the kept entries exactly when its employee is idle > 1000 ms. |
| Recognition.Model.Visit | app/src/main/java/com/zachm/employeelogin/util/Model.kt:132-137 | One entry: removed iff idle > 1000 ms; its employee's positive streak drops by 1 and no other employee changes. |
| Recognition.Model.Run | app/src/main/java/com/zachm/employeelogin/util/Model.kt:51-143 | The objects end as `ProcessFrame` of their old state, the `login()` count is its count, the output has one record per face as resolved, and the registry is unchanged. |
| Recognition.Model.TrackNext | app/src/main/java/com/zachm/employeelogin/util/Model.kt:63-128 | One turn of the per-face loop extends the frame pass by one face. |

## Left out

- Floating point: scores and components are reals, so `Float` rounding, signed zero and overflow are not modelled. IEEE infinities and NaN from division are modelled (`Score`).
- The threshold: `Model.run` compares against the `Float` 0.8f and `detectFaces` against the `Double` 0.8; both are the real 0.8 here, so the tiny difference between the two literals is not modelled.
- `sqrt` is a parameter: the platform square root is not part of this model, so the cosine and Euclidean lemmas assume what they need of it.
- The cosine score's index-out-of-bounds exception is modelled in `CompareCosineSimilarity`, but the engine takes its scorer as a total function, so an exception thrown from inside `run` is not modelled.
- The sweep removes from the `HashMap` while iterating it; the JVM iterator would throw a concurrent-modification exception at the next entry. The sweep is modelled as the intended filter.
- `HashSet.contains` is modelled as a scan for a data-equal record; hash buckets (and a record whose hash changed after its fields were mutated) are not modelled.
- `lastTracked` (a `Long`) and `framesTracked` (an `Int`) are unbounded integers; 64-bit and 32-bit wrap-around are not modelled.
- `login()`, `updateFaceBitmap` and `updateTrackedFaces` are called by `Model.run` but not defined by `CameraViewModel`; `login()` is modelled as a count of calls, and the other two (publication of the bitmap and of the output list) are left out.
- `Model.run` iterates the registry as a map (`employee.value`) while `CameraViewModel` declares a `HashSet`; both are the registry sequence here, in iteration order.
- Nothing in the app calls the existing `Model.run`; it is modelled on its own.
- The registry is a `HashSet`, which the search walks in hash-bucket order. The model walks it in enrolment order instead. The two orders differ only in which employee wins when two stored embeddings score exactly the same: `SearchFindsBest` keeps the earliest, which here means the earliest enrolled.
- `TrackedFaces` declares three properties but both call sites pass four (id, box, employee, embedding); the model's `TrackedFace` has the four the call sites pass. `Candidate` is not defined in the app's sources and is modelled as a (score, employee) pair.
- The `Log.d` calls in `detectFaces` read `embeddings[0]` of both embeddings, which throws on an empty embedding; logging is not modelled, so neither is that exception.
- Camera, ML Kit detection, TFLite inference, bitmap rotation and cropping, YUV conversion, `getScaledRect` (boxes are carried through unchanged), coroutines, `withTimeout`, `LiveData`/`StateFlow` publication and the UI are not part of this model.
- The clock: `System.currentTimeMillis` is the parameter `now`.
