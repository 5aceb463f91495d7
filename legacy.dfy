/**
 * The older matching block of `CameraViewModel.detectFaces`, stated on
 * values. It shares the registry search with `Model.run` but has no streak,
 * no login and no sweep: a bound track refreshes `lastTracked` and is
 * unbound, inside the embedding loop, once it has gone unmatched for more
 * than `LegacyTimeout`. The loop then looks the id up again on its next
 * embedding, finds nothing and dereferences null. That exception is thrown
 * in the detector's success callback, outside any `try`, so the app stops
 * analysing frames for good; `crashed` marks that end, after which nothing
 * else happens.
 */
module LegacyTracking {
  import opened Wrappers
  import opened Embeddings
  import opened Records
  import opened Tracking

  /** A detected face with the clock reading taken for it (one per face). */
  datatype StampedFace = StampedFace(face: Detection, currentTime: int)

  /** A bound refresh in progress: the timestamp, whether the id is still bound, and whether it aborted. */
  datatype Progress = Progress(lastTracked: int, bound: bool, crashed: bool)

  /**
   * For each stored embedding in order: the id is looked up (null once
   * unbound, which aborts); a match stamps `now`; a track idle for more
   * than `LegacyTimeout` is unbound.
   */
  function LegacyRefresh(embs: seq<Embedding>, probe: Embedding, score: Scorer, now: int, start: Progress): (r: Progress)
    ensures r.bound ==> start.bound
    ensures r.crashed && !start.crashed ==> !r.bound
    ensures r.lastTracked == start.lastTracked || r.lastTracked == now
  {
    if embs == [] then start
    else
      var p := LegacyRefresh(embs[..|embs| - 1], probe, score, now, start);
      if p.crashed then p
      else if !p.bound then p.(crashed := true)
      else
        var last := if Matches(score(embs[|embs| - 1], probe)) then now else p.lastTracked;
        Progress(last, now - last <= LegacyTimeout, false)
  }

  /**
   * A bound refresh aborts exactly when there are at least two stored
   * embeddings, the first does not match, and the track was already idle
   * for more than `LegacyTimeout`. Otherwise it stamps `now` exactly when
   * something matched and leaves the id bound exactly when the track is
   * then idle for at most `LegacyTimeout`.
   */
  lemma {:induction false} LegacyRefreshEffect(embs: seq<Embedding>, probe: Embedding, score: Scorer, now: int, last: int)
    ensures var r := LegacyRefresh(embs, probe, score, now, Progress(last, true, false));
      && (r.crashed <==> |embs| >= 2 && !Matches(score(embs[0], probe)) && now - last > LegacyTimeout)
      && (!r.crashed ==>
            && r.lastTracked == (if MatchCount(embs, probe, score) > 0 then now else last)
            && (r.bound <==> embs == [] || now - r.lastTracked <= LegacyTimeout))
  {
    if embs != [] {
      var n := |embs| - 1;
      var prefix := embs[..n];
      LegacyRefreshEffect(prefix, probe, score, now, last);
      MatchCountSnoc(embs, probe, score);
      if n > 0 {
        assert prefix[0] == embs[0];
      }
    }
  }

  /** Once a bound refresh has aborted, the remaining embeddings change nothing. */
  lemma {:induction false} LegacyRefreshAbortIsFinal(embs: seq<Embedding>, probe: Embedding, score: Scorer, now: int, start: Progress, k: nat)
    requires k <= |embs| && LegacyRefresh(embs[..k], probe, score, now, start).crashed
    ensures LegacyRefresh(embs, probe, score, now, start) == LegacyRefresh(embs[..k], probe, score, now, start)
  {
    if k < |embs| {
      var n := |embs| - 1;
      assert embs[..n][..k] == embs[..k];
      LegacyRefreshAbortIsFinal(embs[..n], probe, score, now, start, k);
    } else {
      assert embs[..k] == embs;
    }
  }

  /** With at most one stored embedding a bound refresh never aborts. */
  lemma SingleEmbeddingNeverCrashes(embs: seq<Embedding>, probe: Embedding, score: Scorer, now: int, last: int)
    requires |embs| <= 1
    ensures !LegacyRefresh(embs, probe, score, now, Progress(last, true, false)).crashed
  {
    LegacyRefreshEffect(embs, probe, score, now, last);
  }

  datatype LegacyStep = LegacyStep(state: TrackState, resolved: Resolved, crashed: bool)

  /**
   * One face: no tracking id leaves everything alone; a bound id is
   * refreshed and possibly unbound; an unbound id goes through the same
   * search and binding as in `Model.run`.
   */
  function LegacyFaceStep(groups: seq<seq<Embedding>>, st: TrackState, face: Detection, score: Scorer, now: int): (r: LegacyStep)
    requires WellFormed(groups, st)
    ensures WellFormed(groups, r.state)
    ensures r.state.framesTracked == st.framesTracked
    ensures r.resolved.currentId == face.trackingId.GetOr(0)
  {
    match face.trackingId
    case None => LegacyStep(st, Resolved(0, None), false)
    case Some(id) =>
      if id in st.employeeMap then
        var j := st.employeeMap[id];
        var p := LegacyRefresh(groups[j], face.embedding, score, now, Progress(st.lastTracked[j], true, false));
        LegacyStep(
          TrackState(if p.bound then st.employeeMap else st.employeeMap - {id}, st.lastTracked[j := p.lastTracked], st.framesTracked),
          Resolved(id, if groups[j] == [] then None else Some(j)),
          p.crashed)
      else
        var s := FaceStep(groups, st, face, score, now);
        LegacyStep(s.state, s.resolved, false)
  }

  /**
   * A bound id that does not abort keeps its employee exactly when its
   * refreshed track is idle for at most `LegacyTimeout` (or there was
   * nothing to compare), and no other binding changes.
   */
  lemma LegacyFaceStepUnbindsIdle(groups: seq<seq<Embedding>>, st: TrackState, face: Detection, score: Scorer, now: int)
    requires WellFormed(groups, st)
    requires face.trackingId.Some? && face.trackingId.value in st.employeeMap
    ensures var id := face.trackingId.value;
      var j := st.employeeMap[id];
      var r := LegacyFaceStep(groups, st, face, score, now);
      !r.crashed ==>
        && (id in r.state.employeeMap <==> groups[j] == [] || now - r.state.lastTracked[j] <= LegacyTimeout)
        && r.state.lastTracked[j] == (if MatchCount(groups[j], face.embedding, score) > 0 then now else st.lastTracked[j])
        && (forall other :: other != id ==> (other in r.state.employeeMap <==> other in st.employeeMap))
        && (forall other :: other in r.state.employeeMap ==> r.state.employeeMap[other] == st.employeeMap[other])
  {
    var id := face.trackingId.value;
    var j := st.employeeMap[id];
    LegacyRefreshEffect(groups[j], face.embedding, score, now, st.lastTracked[j]);
  }

  /** The detections of a frame without their timestamps. */
  function Detections(faces: seq<StampedFace>): (r: seq<Detection>)
  {
    seq(|faces|, i requires 0 <= i < |faces| => faces[i].face)
  }

  datatype LegacyPass = LegacyPass(state: TrackState, resolved: seq<Resolved>, crashed: bool)

  /** The faces of one frame in order; after an abort nothing else runs. */
  function LegacyProcessFrame(groups: seq<seq<Embedding>>, st: TrackState, faces: seq<StampedFace>, score: Scorer): (r: LegacyPass)
    requires WellFormed(groups, st)
    ensures WellFormed(groups, r.state)
    ensures r.state.framesTracked == st.framesTracked
    ensures |r.resolved| <= |faces|
    ensures !r.crashed ==> |r.resolved| == |faces|
  {
    if faces == [] then LegacyPass(st, [], false)
    else
      var p := LegacyProcessFrame(groups, st, faces[..|faces| - 1], score);
      if p.crashed then p
      else
        var s := LegacyFaceStep(groups, p.state, faces[|faces| - 1].face, score, faces[|faces| - 1].currentTime);
        LegacyPass(s.state, p.resolved + [s.resolved], s.crashed)
  }

  /** Once a prefix of the frame has aborted, the rest of the frame changes nothing. */
  lemma {:induction false} LegacyCrashIsFinal(groups: seq<seq<Embedding>>, st: TrackState, faces: seq<StampedFace>, score: Scorer, k: nat)
    requires WellFormed(groups, st)
    requires k <= |faces| && LegacyProcessFrame(groups, st, faces[..k], score).crashed
    ensures LegacyProcessFrame(groups, st, faces, score) == LegacyProcessFrame(groups, st, faces[..k], score)
  {
    if k < |faces| {
      var n := |faces| - 1;
      assert faces[..n][..k] == faces[..k];
      LegacyCrashIsFinal(groups, st, faces[..n], score, k);
    } else {
      assert faces[..k] == faces;
    }
  }

  /**
   * When every employee has at most one stored embedding (which is all
   * enrolment ever creates) the older variant never aborts a frame.
   */
  lemma {:induction false} LegacyNeverCrashesWithSingleEmbeddings(groups: seq<seq<Embedding>>, st: TrackState, faces: seq<StampedFace>, score: Scorer)
    requires WellFormed(groups, st)
    requires forall j :: 0 <= j < |groups| ==> |groups[j]| <= 1
    ensures !LegacyProcessFrame(groups, st, faces, score).crashed
  {
    if faces != [] {
      var n := |faces| - 1;
      LegacyNeverCrashesWithSingleEmbeddings(groups, st, faces[..n], score);
      var p := LegacyProcessFrame(groups, st, faces[..n], score);
      var face := faces[n].face;
      if face.trackingId.Some? && face.trackingId.value in p.state.employeeMap {
        var id := face.trackingId.value;
        var j := p.state.employeeMap[id];
        SingleEmbeddingNeverCrashes(groups[j], face.embedding, score, faces[n].currentTime, p.state.lastTracked[j]);
      }
    }
  }

  /**
   * Two stored embeddings, the first not matching, on a track idle for more
   * than `LegacyTimeout`: the face step of the older variant aborts.
   */
  lemma StaleTrackWithTwoEmbeddingsCrashes(groups: seq<seq<Embedding>>, st: TrackState, face: Detection, score: Scorer, now: int, id: int, j: nat)
    requires WellFormed(groups, st)
    requires face.trackingId == Some(id) && id in st.employeeMap && st.employeeMap[id] == j
    requires |groups[j]| == 2 && !Matches(score(groups[j][0], face.embedding))
    requires now - st.lastTracked[j] > LegacyTimeout
    ensures LegacyFaceStep(groups, st, face, score, now).crashed
  {
    LegacyRefreshEffect(groups[j], face.embedding, score, now, st.lastTracked[j]);
  }
}
