/**
 * The identity matching and tracking rules, stated on values.
 *
 * The registry is a sequence of employees; `groups[j]` holds the embeddings
 * of employee `j`. The mutable parts of each employee (`lastTracked`,
 * `framesTracked`) and the track map from detector tracking ids to
 * employees are a `TrackState` whose map values are registry positions.
 * The classes in `camera_view_model.dfy` and `model.dfy` are proved to act
 * on their objects exactly as these functions act on values.
 */
module Tracking {
  import opened Wrappers
  import opened Embeddings
  import opened Records

  /** Scores at or above this are a match. */
  const Threshold: real := 0.8
  /** Streak gained by every matching stored embedding. */
  const StreakStep: int := 2
  /** Streak at which the bound path calls `login()`. */
  const LoginFrames: int := 10
  /** A track idle for longer than this many milliseconds is swept. */
  const IdleTimeout: int := 1000
  /** The older variant unbinds a track idle for longer than this. */
  const LegacyTimeout: int := 2000

  /** `scorer(stored, probe)`: the similarity of a probe to a stored embedding. */
  type Scorer = (Embedding, Embedding) -> Score

  /** `distance >= threshold` on a Kotlin `Float`. */
  predicate Matches(s: Score) {
    AtLeast(s, Threshold)
  }

  /** Per-employee mutable fields, by registry position, and the track map. */
  datatype TrackState = TrackState(employeeMap: map<int, nat>, lastTracked: seq<int>, framesTracked: seq<int>)

  /** The state describes a registry with `groups` employees. */
  predicate WellFormed(groups: seq<seq<Embedding>>, st: TrackState) {
    && |st.lastTracked| == |groups|
    && |st.framesTracked| == |groups|
    && forall id :: id in st.employeeMap ==> st.employeeMap[id] < |groups|
  }

  /**
   * Enrolment of a new record (stamped `now`, streak 0) at the end of the
   * registry, with `currentId` bound to it.
   */
  function Enroll(st: TrackState, currentId: int, now: int): (r: TrackState)
    ensures forall groups, embedding :: WellFormed(groups, st) ==> WellFormed(groups + [[embedding]], r)
  {
    TrackState(st.employeeMap[currentId := |st.lastTracked|], st.lastTracked + [now], st.framesTracked + [0])
  }

  // ---------------------------------------------------------------------------
  // Best-candidate search over the registry
  // ---------------------------------------------------------------------------

  /** A candidate: its score and its registry position. */
  datatype Choice = Choice(distance: Score, employee: nat)

  /**
   * Scans the embeddings of employee `index` in order, replacing `best` by a
   * score that matches and is strictly greater (or when there is none yet).
   */
  function ScanEmployee(best: Option<Choice>, index: nat, embs: seq<Embedding>, probe: Embedding, score: Scorer): (r: Option<Choice>)
    ensures r == best || (r.Some? && r.value.employee == index && Matches(r.value.distance))
  {
    if embs == [] then best
    else
      var prev := ScanEmployee(best, index, embs[..|embs| - 1], probe, score);
      var d := score(embs[|embs| - 1], probe);
      if Matches(d) && (prev.None? || Greater(d, prev.value.distance)) then Some(Choice(d, index)) else prev
  }

  /** The whole registry scanned employee by employee. */
  function Search(groups: seq<seq<Embedding>>, probe: Embedding, score: Scorer): (r: Option<Choice>)
    ensures r.Some? ==> r.value.employee < |groups| && Matches(r.value.distance)
  {
    if groups == [] then None
    else ScanEmployee(Search(groups[..|groups| - 1], probe, score), |groups| - 1, groups[|groups| - 1], probe, score)
  }

  /**
   * `r` is the outcome of a search over the employees `done` followed by the
   * first `|cur|` embeddings of employee `|done|`.
   */
  ghost predicate BestOf(done: seq<seq<Embedding>>, cur: seq<Embedding>, probe: Embedding, score: Scorer, r: Option<Choice>) {
    match r
    case None =>
      && (forall i, j :: 0 <= i < |done| && 0 <= j < |done[i]| ==> !Matches(score(done[i][j], probe)))
      && (forall j :: 0 <= j < |cur| ==> !Matches(score(cur[j], probe)))
    case Some(c) =>
      && Matches(c.distance)
      && c.employee <= |done|
      && (c.employee == |done| ==> exists j :: 0 <= j < |cur| && score(cur[j], probe) == c.distance)
      && (c.employee < |done| ==> exists j :: 0 <= j < |done[c.employee]| && score(done[c.employee][j], probe) == c.distance)
      && (forall i, j :: 0 <= i < |done| && 0 <= j < |done[i]| ==> !Greater(score(done[i][j], probe), c.distance))
      && (forall j :: 0 <= j < |cur| ==> !Greater(score(cur[j], probe), c.distance))
      && (forall i, j :: 0 <= i < c.employee && 0 <= j < |done[i]| && Matches(score(done[i][j], probe)) ==>
            Greater(c.distance, score(done[i][j], probe)))
  }

  lemma {:induction false} ScanEmployeeIsBest(done: seq<seq<Embedding>>, best: Option<Choice>, embs: seq<Embedding>, probe: Embedding, score: Scorer)
    requires BestOf(done, [], probe, score, best)
    ensures BestOf(done, embs, probe, score, ScanEmployee(best, |done|, embs, probe, score))
  {
    if embs != [] {
      var n := |embs| - 1;
      var prefix := embs[..n];
      ScanEmployeeIsBest(done, best, prefix, probe, score);
      var prev := ScanEmployee(best, |done|, prefix, probe, score);
      var d := score(embs[n], probe);
      assert forall j :: 0 <= j < n ==> prefix[j] == embs[j];
      if Matches(d) && (prev.None? || Greater(d, prev.value.distance)) {
        var r := Choice(d, |done|);
        assert score(embs[n], probe) == r.distance;
        if prev.Some? {
          forall i, j | 0 <= i < |done| && 0 <= j < |done[i]|
            ensures !Greater(score(done[i][j], probe), d)
          {
            if Greater(score(done[i][j], probe), d) {
              GreaterIsTransitive(score(done[i][j], probe), d, prev.value.distance);
            }
          }
          forall j | 0 <= j < n
            ensures !Greater(score(embs[j], probe), d)
          {
            if Greater(score(embs[j], probe), d) {
              assert score(prefix[j], probe) == score(embs[j], probe);
              GreaterIsTransitive(score(embs[j], probe), d, prev.value.distance);
            }
          }
          forall i, j | 0 <= i < |done| && 0 <= j < |done[i]| && Matches(score(done[i][j], probe))
            ensures Greater(d, score(done[i][j], probe))
          {
            if i < prev.value.employee {
              GreaterIsTransitive(d, prev.value.distance, score(done[i][j], probe));
            } else {
              assert !Greater(score(done[i][j], probe), prev.value.distance);
            }
          }
        }
      } else {
        assert BestOf(done, prefix, probe, score, prev);
      }
    }
  }

  lemma {:induction false} SearchIsBestOf(groups: seq<seq<Embedding>>, probe: Embedding, score: Scorer)
    ensures BestOf(groups, [], probe, score, Search(groups, probe, score))
  {
    if groups != [] {
      var n := |groups| - 1;
      var done := groups[..n];
      SearchIsBestOf(done, probe, score);
      ScanEmployeeIsBest(done, Search(done, probe, score), groups[n], probe, score);
      assert done + [groups[n]] == groups;
      assert forall i :: 0 <= i < n ==> done[i] == groups[i];
    }
  }

  /**
   * The search finds nothing exactly when no stored embedding matches;
   * otherwise it returns a matching score that some embedding of the chosen
   * employee achieves, that no stored score exceeds, and that every matching
   * score of an earlier employee falls strictly below (ties keep the first).
   */
  lemma SearchFindsBest(groups: seq<seq<Embedding>>, probe: Embedding, score: Scorer)
    ensures var r := Search(groups, probe, score);
      && (r.None? <==> forall i, j :: 0 <= i < |groups| && 0 <= j < |groups[i]| ==> !Matches(score(groups[i][j], probe)))
      && (r.Some? ==>
        && r.value.employee < |groups|
        && Matches(r.value.distance)
        && (exists j :: 0 <= j < |groups[r.value.employee]| && score(groups[r.value.employee][j], probe) == r.value.distance)
        && (forall i, j :: 0 <= i < |groups| && 0 <= j < |groups[i]| ==> !Greater(score(groups[i][j], probe), r.value.distance))
        && (forall i, j :: 0 <= i < r.value.employee && 0 <= j < |groups[i]| && Matches(score(groups[i][j], probe)) ==>
              Greater(r.value.distance, score(groups[i][j], probe))))
  {
    SearchIsBestOf(groups, probe, score);
    var r := Search(groups, probe, score);
    if r.Some? {
      var e := r.value.employee;
      assert exists j :: 0 <= j < |groups[e]| && score(groups[e][j], probe) == r.value.distance;
    }
  }

  // ---------------------------------------------------------------------------
  // Refreshing a bound track
  // ---------------------------------------------------------------------------

  /** The fields one bound refresh updates, and the `login()` calls it makes. */
  datatype Streak = Streak(lastTracked: int, framesTracked: int, logins: nat)

  /**
   * For each stored embedding in order: a match stamps `now` and adds
   * `StreakStep`; then, match or not, a streak of at least `LoginFrames`
   * calls `login()` once.
   */
  function Refresh(embs: seq<Embedding>, probe: Embedding, score: Scorer, now: int, start: Streak): (r: Streak)
    ensures r.framesTracked >= start.framesTracked && r.logins >= start.logins
  {
    if embs == [] then start
    else
      var s := Refresh(embs[..|embs| - 1], probe, score, now, start);
      var matched := Matches(score(embs[|embs| - 1], probe));
      var frames := if matched then s.framesTracked + StreakStep else s.framesTracked;
      Streak(if matched then now else s.lastTracked, frames, if frames >= LoginFrames then s.logins + 1 else s.logins)
  }

  /** How many stored embeddings match the probe. */
  function MatchCount(embs: seq<Embedding>, probe: Embedding, score: Scorer): (n: nat)
    ensures n <= |embs|
  {
    if embs == [] then 0
    else (if Matches(score(embs[0], probe)) then 1 else 0) + MatchCount(embs[1..], probe, score)
  }

  lemma {:induction false} MatchCountSnoc(embs: seq<Embedding>, probe: Embedding, score: Scorer)
    requires embs != []
    ensures MatchCount(embs, probe, score)
         == MatchCount(embs[..|embs| - 1], probe, score) + (if Matches(score(embs[|embs| - 1], probe)) then 1 else 0)
  {
    if |embs| > 1 {
      MatchCountSnoc(embs[1..], probe, score);
      assert embs[1..][..|embs[1..]| - 1] == embs[..|embs| - 1][1..];
    }
  }

  /**
   * A bound refresh adds `StreakStep` per matching embedding, stamps `now`
   * exactly when something matched, and calls `login()` at least once
   * exactly when there was an embedding to compare and the final streak
   * reaches `LoginFrames`; it calls it at most once per embedding, and
   * exactly once per embedding when the streak already stood at
   * `LoginFrames`.
   */
  lemma {:induction false} RefreshEffect(embs: seq<Embedding>, probe: Embedding, score: Scorer, now: int, start: Streak)
    ensures var r := Refresh(embs, probe, score, now, start);
      && r.framesTracked == start.framesTracked + StreakStep * MatchCount(embs, probe, score)
      && r.lastTracked == (if MatchCount(embs, probe, score) > 0 then now else start.lastTracked)
      && (r.logins > start.logins <==> embs != [] && r.framesTracked >= LoginFrames)
      && r.logins <= start.logins + |embs|
      && (start.framesTracked >= LoginFrames ==> r.logins == start.logins + |embs|)
  {
    if embs != [] {
      RefreshEffect(embs[..|embs| - 1], probe, score, now, start);
      MatchCountSnoc(embs, probe, score);
    }
  }

  // ---------------------------------------------------------------------------
  // One face, one frame (Model.run)
  // ---------------------------------------------------------------------------

  /** What a face resolved to: the reported id and the employee's position, if any. */
  datatype Resolved = Resolved(currentId: int, employee: Option<nat>)

  datatype Step = Step(state: TrackState, resolved: Resolved, logins: nat)

  /**
   * One detected face: no tracking id leaves everything alone; a bound id
   * refreshes its employee; an unbound id is bound to the best candidate,
   * if there is one.
   */
  function FaceStep(groups: seq<seq<Embedding>>, st: TrackState, face: Detection, score: Scorer, now: int): (r: Step)
    requires WellFormed(groups, st)
    ensures WellFormed(groups, r.state)
    ensures r.resolved.currentId == face.trackingId.GetOr(0)
    ensures r.resolved.employee.Some? ==> r.resolved.employee.value < |groups|
  {
    match face.trackingId
    case None => Step(st, Resolved(0, None), 0)
    case Some(id) =>
      if id in st.employeeMap then
        var j := st.employeeMap[id];
        var s := Refresh(groups[j], face.embedding, score, now, Streak(st.lastTracked[j], st.framesTracked[j], 0));
        Step(st.(lastTracked := st.lastTracked[j := s.lastTracked], framesTracked := st.framesTracked[j := s.framesTracked]),
             Resolved(id, if groups[j] == [] then None else Some(j)), s.logins)
      else
        match Search(groups, face.embedding, score)
        case None => Step(st, Resolved(id, None), 0)
        case Some(c) => Step(st.(employeeMap := st.employeeMap[id := c.employee]), Resolved(id, Some(c.employee)), 0)
  }

  datatype Pass = Pass(state: TrackState, resolved: seq<Resolved>, logins: nat)

  /** The faces of one frame, in order, all at the frame's single timestamp. */
  function FramePass(groups: seq<seq<Embedding>>, st: TrackState, faces: seq<Detection>, score: Scorer, now: int): (r: Pass)
    requires WellFormed(groups, st)
    ensures WellFormed(groups, r.state)
    ensures |r.resolved| == |faces|
  {
    if faces == [] then Pass(st, [], 0)
    else
      var p := FramePass(groups, st, faces[..|faces| - 1], score, now);
      var s := FaceStep(groups, p.state, faces[|faces| - 1], score, now);
      Pass(s.state, p.resolved + [s.resolved], p.logins + s.logins)
  }

  // ---------------------------------------------------------------------------
  // The sweep at the end of a frame
  // ---------------------------------------------------------------------------

  /** The tracking ids currently bound to employee `j`. */
  function Aliases(m: map<int, nat>, j: nat): (ids: set<int>)
  {
    set id | id in m && m[id] == j
  }

  /** `n` decrements that each apply only to a positive value. */
  function DecrementTimes(f: int, n: nat): int {
    if n == 0 then f
    else
      var g := DecrementTimes(f, n - 1);
      if g > 0 then g - 1 else g
  }

  /** The closed form of `DecrementTimes`. */
  function Decay(f: int, n: nat): int {
    if f <= 0 then f else if f > n then f - n else 0
  }

  lemma {:induction false} DecayIsRepeatedDecrement(f: int, n: nat)
    ensures Decay(f, n) == DecrementTimes(f, n)
  {
    if n > 0 {
      DecayIsRepeatedDecrement(f, n - 1);
    }
  }

  /**
   * Every entry of the track map is visited once: an entry idle for more
   * than `IdleTimeout` is removed, and, removed or not, its employee's
   * positive streak drops by one. An employee bound under several ids is
   * decremented once per id.
   */
  function Sweep(st: TrackState, now: int): (r: TrackState)
    requires |st.lastTracked| == |st.framesTracked|
    requires forall id :: id in st.employeeMap ==> st.employeeMap[id] < |st.lastTracked|
    ensures |r.lastTracked| == |st.lastTracked| && |r.framesTracked| == |st.framesTracked|
    ensures forall id :: id in r.employeeMap ==>
              && id in st.employeeMap && r.employeeMap[id] == st.employeeMap[id]
              && now - r.lastTracked[r.employeeMap[id]] <= IdleTimeout
  {
    TrackState(
      map id | id in st.employeeMap && now - st.lastTracked[st.employeeMap[id]] <= IdleTimeout :: st.employeeMap[id],
      st.lastTracked,
      seq(|st.framesTracked|, j requires 0 <= j < |st.framesTracked| => Decay(st.framesTracked[j], |Aliases(st.employeeMap, j)|)))
  }

  /**
   * The sweep keeps exactly the entries tracked within `IdleTimeout`, never
   * rebinds them, leaves every timestamp alone, and lowers each positive
   * streak by the number of ids bound to it, never below zero; an unbound
   * employee's streak is unchanged.
   */
  lemma SweepEffect(groups: seq<seq<Embedding>>, st: TrackState, now: int)
    requires WellFormed(groups, st)
    ensures var r := Sweep(st, now);
      && WellFormed(groups, r)
      && (forall id :: id in r.employeeMap <==> id in st.employeeMap && now - st.lastTracked[st.employeeMap[id]] <= IdleTimeout)
      && (forall id :: id in r.employeeMap ==> r.employeeMap[id] == st.employeeMap[id])
      && r.lastTracked == st.lastTracked
      && (forall j :: 0 <= j < |groups| ==>
            r.framesTracked[j] == DecrementTimes(st.framesTracked[j], |Aliases(st.employeeMap, j)|))
      && (forall j :: 0 <= j < |groups| && st.framesTracked[j] >= 0 ==> 0 <= r.framesTracked[j] <= st.framesTracked[j])
      && (forall j :: 0 <= j < |groups| && Aliases(st.employeeMap, j) == {} ==> r.framesTracked[j] == st.framesTracked[j])
  {
    forall j | 0 <= j < |groups|
      ensures Sweep(st, now).framesTracked[j] == DecrementTimes(st.framesTracked[j], |Aliases(st.employeeMap, j)|)
    {
      DecayIsRepeatedDecrement(st.framesTracked[j], |Aliases(st.employeeMap, j)|);
    }
  }

  /** `Model.run`: every face in order, then the sweep. */
  function ProcessFrame(groups: seq<seq<Embedding>>, st: TrackState, faces: seq<Detection>, score: Scorer, now: int): (r: Pass)
    requires WellFormed(groups, st)
    ensures WellFormed(groups, r.state)
    ensures |r.resolved| == |faces|
  {
    var p := FramePass(groups, st, faces, score, now);
    Pass(Sweep(p.state, now), p.resolved, p.logins)
  }

  // ---------------------------------------------------------------------------
  // Properties of a frame
  // ---------------------------------------------------------------------------

  /**
   * A face whose id is already bound is never searched for or rebound: the
   * track map is unchanged, only its employee's timestamp and streak move,
   * as a refresh from them says, and it is reported with that employee
   * unless the employee has no stored embeddings.
   */
  lemma FaceStepBound(groups: seq<seq<Embedding>>, st: TrackState, face: Detection, score: Scorer, now: int, id: int)
    requires WellFormed(groups, st)
    requires face.trackingId == Some(id) && id in st.employeeMap
    ensures var j := st.employeeMap[id];
      var r := FaceStep(groups, st, face, score, now);
      var s := Refresh(groups[j], face.embedding, score, now, Streak(st.lastTracked[j], st.framesTracked[j], 0));
      && r.state.employeeMap == st.employeeMap
      && (forall k :: 0 <= k < |groups| && k != j ==>
            r.state.lastTracked[k] == st.lastTracked[k] && r.state.framesTracked[k] == st.framesTracked[k])
      && r.state.framesTracked[j] == st.framesTracked[j] + StreakStep * MatchCount(groups[j], face.embedding, score)
      && r.state.lastTracked[j] == (if MatchCount(groups[j], face.embedding, score) > 0 then now else st.lastTracked[j])
      && r.logins == s.logins
      && (r.logins > 0 <==> groups[j] != [] && r.state.framesTracked[j] >= LoginFrames)
      && r.resolved == Resolved(id, if groups[j] == [] then None else Some(j))
  {
    var j := st.employeeMap[id];
    RefreshEffect(groups[j], face.embedding, score, now, Streak(st.lastTracked[j], st.framesTracked[j], 0));
  }

  /**
   * A face whose id is not bound leaves every timestamp and streak alone and
   * calls no `login()`. It resolves to nobody, and the map is unchanged,
   * exactly when no stored embedding matches; otherwise the id is bound to
   * an employee owning a matching embedding whose score no stored
   * embedding exceeds.
   */
  lemma FaceStepUnbound(groups: seq<seq<Embedding>>, st: TrackState, face: Detection, score: Scorer, now: int, id: int)
    requires WellFormed(groups, st)
    requires face.trackingId == Some(id) && id !in st.employeeMap
    ensures var r := FaceStep(groups, st, face, score, now);
      && r.state.lastTracked == st.lastTracked && r.state.framesTracked == st.framesTracked && r.logins == 0
      && r.resolved.currentId == id
      && (r.resolved.employee.None? <==>
            forall i, k :: 0 <= i < |groups| && 0 <= k < |groups[i]| ==> !Matches(score(groups[i][k], face.embedding)))
      && (r.resolved.employee.None? ==> r.state.employeeMap == st.employeeMap)
      && (r.resolved.employee.Some? ==>
            var j := r.resolved.employee.value;
            && j < |groups|
            && r.state.employeeMap == st.employeeMap[id := j]
            && (exists k :: 0 <= k < |groups[j]| && Matches(score(groups[j][k], face.embedding))
                  && forall i, k' :: 0 <= i < |groups| && 0 <= k' < |groups[i]| ==>
                       !Greater(score(groups[i][k'], face.embedding), score(groups[j][k], face.embedding))))
  {
    SearchFindsBest(groups, face.embedding, score);
  }

  /** A face without a tracking id changes nothing, calls no `login()` and resolves to nobody. */
  lemma FaceStepWithoutId(groups: seq<seq<Embedding>>, st: TrackState, face: Detection, score: Scorer, now: int)
    requires WellFormed(groups, st) && face.trackingId.None?
    ensures FaceStep(groups, st, face, score, now) == Step(st, Resolved(0, None), 0)
  {
  }

  /**
   * A binding made by the search does not stamp `lastTracked`. So a face
   * whose unbound id is bound to an employee last seen more than
   * `IdleTimeout` ago loses that binding in the same frame's sweep, though
   * the face is still reported with that employee and no `login()` is called.
   */
  lemma SearchBindingIsNotStamped(groups: seq<seq<Embedding>>, st: TrackState, face: Detection, score: Scorer, now: int, id: int)
    requires WellFormed(groups, st)
    requires face.trackingId == Some(id) && id !in st.employeeMap
    ensures var r := ProcessFrame(groups, st, [face], score, now);
      && r.logins == 0
      && |r.resolved| == 1 && r.resolved[0].currentId == id
      && (r.resolved[0].employee.None? ==> id !in r.state.employeeMap)
      && (r.resolved[0].employee.Some? ==>
            (id in r.state.employeeMap <==> now - st.lastTracked[r.resolved[0].employee.value] <= IdleTimeout))
  {
    assert [face][..0] == [];
    var s := FaceStep(groups, st, face, score, now);
    FaceStepUnbound(groups, st, face, score, now, id);
    assert FramePass(groups, st, [face], score, now) == Pass(s.state, [s.resolved], s.logins);
    SweepEffect(groups, s.state, now);
  }

  /** The tracking ids of `faces` that are present are pairwise different. */
  predicate DistinctIds(faces: seq<Detection>) {
    forall a, b :: 0 <= a < b < |faces| && faces[a].trackingId.Some? ==> faces[a].trackingId != faces[b].trackingId
  }

  /**
   * During the faces of a frame with distinct tracking ids, an employee no id
   * is bound to keeps its timestamp, and any id bound to it belongs to a face
   * of the frame.
   */
  lemma {:induction false} FramePassLeavesUnboundStamp(groups: seq<seq<Embedding>>, st: TrackState, faces: seq<Detection>, score: Scorer, now: int, j: nat)
    requires WellFormed(groups, st) && j < |groups| && DistinctIds(faces)
    requires forall id :: id in st.employeeMap ==> st.employeeMap[id] != j
    ensures var p := FramePass(groups, st, faces, score, now);
      && p.state.lastTracked[j] == st.lastTracked[j]
      && forall id :: id in p.state.employeeMap && p.state.employeeMap[id] == j ==>
           exists i :: 0 <= i < |faces| && faces[i].trackingId == Some(id)
  {
    if faces != [] {
      var n := |faces| - 1;
      var prefix := faces[..n];
      assert forall i :: 0 <= i < n ==> prefix[i] == faces[i];
      FramePassLeavesUnboundStamp(groups, st, prefix, score, now, j);
      var p := FramePass(groups, st, prefix, score, now);
      var face := faces[n];
      if face.trackingId.Some? {
        var id := face.trackingId.value;
        if id in p.state.employeeMap {
          if p.state.employeeMap[id] == j {
            assert false;
          }
          FaceStepBound(groups, p.state, face, score, now, id);
        } else {
          FaceStepUnbound(groups, p.state, face, score, now, id);
        }
      }
    }
  }

  /**
   * An employee no id is bound to and last seen more than `IdleTimeout` ago
   * stays that way through a frame whose tracking ids are distinct: the
   * search may bind an id to it, but never stamps it, so the sweep removes
   * that binding again. With a clock that does not go back, the same holds
   * for every later frame, so `Model.run` never keeps such an employee bound.
   */
  lemma StaleEmployeeStaysUnbound(groups: seq<seq<Embedding>>, st: TrackState, faces: seq<Detection>, score: Scorer, now: int, j: nat)
    requires WellFormed(groups, st) && j < |groups| && DistinctIds(faces)
    requires forall id :: id in st.employeeMap ==> st.employeeMap[id] != j
    requires now - st.lastTracked[j] > IdleTimeout
    ensures var r := ProcessFrame(groups, st, faces, score, now);
      && r.state.lastTracked[j] == st.lastTracked[j]
      && forall id :: id in r.state.employeeMap ==> r.state.employeeMap[id] != j
  {
    FramePassLeavesUnboundStamp(groups, st, faces, score, now, j);
    SweepEffect(groups, FramePass(groups, st, faces, score, now).state, now);
  }

  /** The track state after `run` on each frame of `frames` in turn, frame `f` at the timestamp `times[f]`. */
  function Session(groups: seq<seq<Embedding>>, st: TrackState, frames: seq<seq<Detection>>, times: seq<int>, score: Scorer): (r: TrackState)
    requires WellFormed(groups, st) && |frames| == |times|
    ensures WellFormed(groups, r)
  {
    if frames == [] then st
    else
      var n := |frames| - 1;
      ProcessFrame(groups, Session(groups, st, frames[..n], times[..n], score), frames[n], score, times[n]).state
  }

  /**
   * Frame after frame: an employee with no bound id, last seen more than
   * `IdleTimeout` before the first frame, still has no bound id and the same
   * timestamp after any run of frames whose tracking ids are distinct within
   * each frame, with a clock that never goes back.
   */
  lemma {:induction false} StaleEmployeeStaysUnboundInSession(groups: seq<seq<Embedding>>, st: TrackState, frames: seq<seq<Detection>>,
                                                             times: seq<int>, score: Scorer, j: nat)
    requires WellFormed(groups, st) && j < |groups| && |frames| == |times|
    requires forall f :: 0 <= f < |frames| ==> DistinctIds(frames[f])
    requires forall a, b :: 0 <= a <= b < |times| ==> times[a] <= times[b]
    requires forall id :: id in st.employeeMap ==> st.employeeMap[id] != j
    requires times != [] ==> times[0] - st.lastTracked[j] > IdleTimeout
    ensures var r := Session(groups, st, frames, times, score);
      && r.lastTracked[j] == st.lastTracked[j]
      && forall id :: id in r.employeeMap ==> r.employeeMap[id] != j
  {
    if frames != [] {
      var n := |frames| - 1;
      assert forall f :: 0 <= f < n ==> frames[..n][f] == frames[f];
      assert forall f :: 0 <= f < n ==> times[..n][f] == times[f];
      StaleEmployeeStaysUnboundInSession(groups, st, frames[..n], times[..n], score, j);
      assert times[0] <= times[n];
      StaleEmployeeStaysUnbound(groups, Session(groups, st, frames[..n], times[..n], score), frames[n], score, times[n], j);
    }
  }

  /**
   * One output per face, in order: it carries the face's tracking id (0 when
   * the detector gave none), a face without an id resolves to nobody, and a
   * resolved employee is a registry position.
   */
  lemma {:induction false} FramePassReports(groups: seq<seq<Embedding>>, st: TrackState, faces: seq<Detection>, score: Scorer, now: int)
    requires WellFormed(groups, st)
    ensures var r := FramePass(groups, st, faces, score, now);
      forall i :: 0 <= i < |faces| ==>
        && r.resolved[i].currentId == faces[i].trackingId.GetOr(0)
        && (faces[i].trackingId.None? ==> r.resolved[i].employee.None?)
        && (r.resolved[i].employee.Some? ==> r.resolved[i].employee.value < |groups|)
  {
    if faces != [] {
      var n := |faces| - 1;
      FramePassReports(groups, st, faces[..n], score, now);
      assert forall i :: 0 <= i < n ==> faces[..n][i] == faces[i];
    }
  }

  /**
   * Within a frame a bound tracking id keeps its employee, and every id bound
   * by the end of the pass was bound before or belongs to a face of the frame.
   */
  lemma {:induction false} FramePassKeepsBindings(groups: seq<seq<Embedding>>, st: TrackState, faces: seq<Detection>, score: Scorer, now: int)
    requires WellFormed(groups, st)
    ensures var r := FramePass(groups, st, faces, score, now);
      && (forall id :: id in st.employeeMap ==> id in r.state.employeeMap && r.state.employeeMap[id] == st.employeeMap[id])
      && (forall id :: id in r.state.employeeMap && id !in st.employeeMap ==>
            exists i :: 0 <= i < |faces| && faces[i].trackingId == Some(id))
  {
    if faces != [] {
      var n := |faces| - 1;
      FramePassKeepsBindings(groups, st, faces[..n], score, now);
      var p := FramePass(groups, st, faces[..n], score, now);
      var r := FramePass(groups, st, faces, score, now);
      forall id | id in r.state.employeeMap && id !in st.employeeMap
        ensures exists i :: 0 <= i < |faces| && faces[i].trackingId == Some(id)
      {
        if id in p.state.employeeMap {
          var i :| 0 <= i < n && faces[..n][i].trackingId == Some(id);
          assert faces[i].trackingId == Some(id);
        } else {
          assert faces[n].trackingId == Some(id);
        }
      }
    }
  }

  /** A pass never lowers a streak: refreshes only add to it. */
  lemma {:induction false} FramePassRaisesStreaks(groups: seq<seq<Embedding>>, st: TrackState, faces: seq<Detection>, score: Scorer, now: int)
    requires WellFormed(groups, st)
    ensures var r := FramePass(groups, st, faces, score, now);
      forall j :: 0 <= j < |groups| ==> r.state.framesTracked[j] >= st.framesTracked[j]
  {
    if faces != [] {
      FramePassRaisesStreaks(groups, st, faces[..|faces| - 1], score, now);
    }
  }

  /** Streaks that start non-negative stay non-negative across a frame. */
  lemma ProcessFrameKeepsStreaksNonNegative(groups: seq<seq<Embedding>>, st: TrackState, faces: seq<Detection>, score: Scorer, now: int)
    requires WellFormed(groups, st)
    requires forall j :: 0 <= j < |groups| ==> st.framesTracked[j] >= 0
    ensures var r := ProcessFrame(groups, st, faces, score, now);
      forall j :: 0 <= j < |groups| ==> r.state.framesTracked[j] >= 0
  {
    FramePassRaisesStreaks(groups, st, faces, score, now);
    var p := FramePass(groups, st, faces, score, now);
    SweepEffect(groups, p.state, now);
    assert ProcessFrame(groups, st, faces, score, now).state == Sweep(p.state, now);
    forall j | 0 <= j < |groups| ensures ProcessFrame(groups, st, faces, score, now).state.framesTracked[j] >= 0 {
      assert p.state.framesTracked[j] >= st.framesTracked[j];
      assert p.state.framesTracked[j] >= 0;
      assert Sweep(p.state, now).framesTracked[j] >= 0;
    }
  }

  /** After a frame, every remaining track was seen within `IdleTimeout`. */
  lemma ProcessFrameEvictsIdle(groups: seq<seq<Embedding>>, st: TrackState, faces: seq<Detection>, score: Scorer, now: int)
    requires WellFormed(groups, st)
    ensures var r := ProcessFrame(groups, st, faces, score, now);
      forall id :: id in r.state.employeeMap ==> now - r.state.lastTracked[r.state.employeeMap[id]] <= IdleTimeout
  {
    SweepEffect(groups, FramePass(groups, st, faces, score, now).state, now);
  }

  /**
   * Login is not one-shot: a bound employee with stored embeddings whose
   * streak is already at `LoginFrames` calls `login()` again on every refresh,
   * match or not.
   */
  lemma LoginRepeats(embs: seq<Embedding>, probe: Embedding, score: Scorer, now: int, start: Streak)
    requires embs != [] && start.framesTracked >= LoginFrames
    ensures Refresh(embs, probe, score, now, start).logins > start.logins
  {
    RefreshEffect(embs, probe, score, now, start);
  }

  /** A refresh against a single matching embedding. */
  lemma RefreshSingle(stored: Embedding, probe: Embedding, score: Scorer, now: int, start: Streak)
    requires Matches(score(stored, probe))
    ensures Refresh([stored], probe, score, now, start)
         == Streak(now, start.framesTracked + StreakStep,
                   if start.framesTracked + StreakStep >= LoginFrames then start.logins + 1 else start.logins)
  {
    assert [stored][..0] == [];
  }

  /** One frame of the steady-match scenario, from streak `f`. */
  lemma SteadyFrame(stored: Embedding, face: Detection, id: int, score: Scorer, now: int, last: int, f: int)
    requires face.trackingId == Some(id) && Matches(score(stored, face.embedding)) && f >= 0
    ensures ProcessFrame([[stored]], TrackState(map[id := 0], [last], [f]), [face], score, now)
         == Pass(TrackState(map[id := 0], [now], [f + 1]), [Resolved(id, Some(0))], if f + 2 >= LoginFrames then 1 else 0)
  {
    var st := TrackState(map[id := 0], [last], [f]);
    RefreshSingle(stored, face.embedding, score, now, Streak(last, f, 0));
    var s := FaceStep([[stored]], st, face, score, now);
    assert s == Step(TrackState(map[id := 0], [now], [f + 2]), Resolved(id, Some(0)), if f + 2 >= LoginFrames then 1 else 0);
    assert [face][..0] == [];
    var pass := FramePass([[stored]], st, [face], score, now);
    var empty := FramePass([[stored]], st, [face][..0], score, now);
    assert empty == Pass(st, [], 0);
    assert pass == Pass(s.state, empty.resolved + [s.resolved], empty.logins + s.logins);
    assert pass == Pass(s.state, [s.resolved], s.logins);
    assert Aliases(map[id := 0], 0) == {id};
  }

  /** The track state and the login calls after a run of frames with the same faces. */
  function Frames(groups: seq<seq<Embedding>>, st: TrackState, faces: seq<Detection>, score: Scorer, times: seq<int>): (r: Pass)
    requires WellFormed(groups, st)
    ensures WellFormed(groups, r.state)
  {
    if times == [] then Pass(st, [], 0)
    else
      var p := Frames(groups, st, faces, score, times[..|times| - 1]);
      var q := ProcessFrame(groups, p.state, faces, score, times[|times| - 1]);
      Pass(q.state, q.resolved, p.logins + q.logins)
  }

  /**
   * One employee with one stored embedding, one face whose tracking id is
   * bound to it and whose probe matches, streak 0 at the start (as right
   * after binding): after `k` frames the streak is `k` (plus 2 from the
   * refresh, minus 1 from the sweep, each frame) and `login()` has been
   * called `k - 8` times once `k >= 9`, so the first login comes on the
   * ninth frame after the binding one, and one more follows every frame.
   */
  lemma {:induction false} SteadyMatchLogsInOnNinthFrame(stored: Embedding, face: Detection, id: int, score: Scorer, times: seq<int>, last: int)
    requires face.trackingId == Some(id) && Matches(score(stored, face.embedding))
    ensures var st := TrackState(map[id := 0], [last], [0]);
      var r := Frames([[stored]], st, [face], score, times);
      && r.state.framesTracked == [|times|]
      && r.logins == (if |times| >= 9 then |times| - 8 else 0)
      && (times != [] ==> r.state == TrackState(map[id := 0], [times[|times| - 1]], [|times|]))
  {
    if times != [] {
      var n := |times| - 1;
      var st := TrackState(map[id := 0], [last], [0]);
      SteadyMatchLogsInOnNinthFrame(stored, face, id, score, times[..n], last);
      var p := Frames([[stored]], st, [face], score, times[..n]);
      SteadyFrame(stored, face, id, score, times[n], p.state.lastTracked[0], n);
      assert p.state == TrackState(map[id := 0], [p.state.lastTracked[0]], [n]);
    }
  }
}
