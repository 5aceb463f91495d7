/**
 * `Model.run`: the per-frame matching pass of the face-login engine, on the
 * objects of a `CameraViewModel`. Each face is resolved against the track
 * map and the registry at the frame's single timestamp; afterwards the
 * track map is swept. The result is proved to be `ProcessFrame` on the
 * values the objects represent.
 */
module Recognition {
  import opened Wrappers
  import opened Embeddings
  import opened Records
  import opened Tracking
  import opened ViewModel

  class Model {
    const viewModel: CameraViewModel

    constructor (viewModel: CameraViewModel)
      ensures this.viewModel == viewModel
    {
      this.viewModel := viewModel;
    }

    /**
     * The bound path for one face: every stored embedding of the bound
     * employee is compared with the probe; a match stamps `now` and adds
     * `StreakStep` to the streak, and after each comparison a streak of at
     * least `LoginFrames` calls `login()` (counted in `logins`).
     */
    method RefreshBound(id: int, probe: Embedding, score: Scorer, now: int, ghost st: TrackState) returns (employee: Option<Employee>, logins: nat)
      requires viewModel.Valid() && viewModel.Represents(st) && WellFormed(viewModel.Groups(), st)
      requires id in viewModel.employeeMap
      modifies viewModel.employeeMap[id]
      ensures viewModel.Valid() && viewModel.Groups() == old(viewModel.Groups())
      ensures var j := st.employeeMap[id];
        var s := Refresh(old(viewModel.Groups())[j], probe, score, now, Streak(st.lastTracked[j], st.framesTracked[j], 0));
        && viewModel.Represents(st.(lastTracked := st.lastTracked[j := s.lastTracked], framesTracked := st.framesTracked[j := s.framesTracked]))
        && logins == s.logins
        && employee == EmployeeAt(viewModel.employees, if old(viewModel.Groups())[j] == [] then None else Some(j))
    {
      var e := viewModel.employeeMap[id];
      var embs := e.embeddings;
      ghost var start := Streak(e.lastTracked, e.framesTracked, 0);
      employee := None;
      logins := 0;
      for k := 0 to |embs|
        invariant e.embeddings == embs
        invariant var s := Refresh(embs[..k], probe, score, now, start);
          e.lastTracked == s.lastTracked && e.framesTracked == s.framesTracked && logins == s.logins
        invariant employee == if k == 0 then None else Some(e)
      {
        var distance := score(embs[k], probe);
        assert embs[..k + 1][..k] == embs[..k];
        employee := Some(viewModel.employeeMap[id]);
        if Matches(distance) {
          e.lastTracked := now;
          e.framesTracked := e.framesTracked + StreakStep;
        }
        if e.framesTracked >= LoginFrames {
          logins := logins + 1;
        }
      }
      assert embs[..|embs|] == embs;
      assert forall k :: 0 <= k < |viewModel.employees| && viewModel.employees[k] != e ==>
        viewModel.employees[k].lastTracked == old(viewModel.employees[k].lastTracked)
        && viewModel.employees[k].framesTracked == old(viewModel.employees[k].framesTracked);
    }

    /** One face of `run`: its output record and the `login()` calls it makes. */
    method TrackFace(face: Detection, now: int, score: Scorer, ghost st: TrackState) returns (tracked: TrackedFace, logins: nat)
      requires viewModel.Valid() && viewModel.Represents(st) && WellFormed(viewModel.Groups(), st)
      modifies viewModel, viewModel.employees
      ensures viewModel.Valid() && viewModel.employees == old(viewModel.employees) && viewModel.Groups() == old(viewModel.Groups())
      ensures var r := FaceStep(old(viewModel.Groups()), st, face, score, now);
        && viewModel.Represents(r.state)
        && logins == r.logins
        && tracked == TrackedFace(r.resolved.currentId, face.screenBox, EmployeeAt(viewModel.employees, r.resolved.employee), face.embedding)
    {
      var employee: Option<Employee> := None;
      logins := 0;
      if face.trackingId.Some? {
        var id := face.trackingId.value;
        if id in viewModel.employeeMap {
          employee, logins := RefreshBound(id, face.embedding, score, now, st);
        } else {
          employee := viewModel.BindBest(id, face.embedding, score, st);
        }
      }
      tracked := TrackedFace(face.trackingId.GetOr(0), face.screenBox, employee, face.embedding);
    }

    /**
     * The end-of-frame sweep: every entry of the track map is visited once;
     * an entry idle for more than `IdleTimeout` is removed, and the entry's
     * employee, removed or not, loses one from a positive streak.
     */
    method Sweep(now: int, ghost st: TrackState)
      requires viewModel.Valid() && viewModel.Represents(st) && WellFormed(viewModel.Groups(), st)
      modifies viewModel, viewModel.employees
      ensures viewModel.Valid() && viewModel.employees == old(viewModel.employees) && viewModel.Groups() == old(viewModel.Groups())
      ensures viewModel.Represents(Tracking.Sweep(st, now))
    {
      ghost var groups := viewModel.Groups();
      ghost var employees := viewModel.employees;
      SweepEntries(now, employees, st.employeeMap, groups, st.lastTracked, st.framesTracked);
      assert viewModel.Groups() == groups;
      assert forall j :: 0 <= j < |employees| ==> employees[j].framesTracked == Tracking.Sweep(st, now).framesTracked[j];
    }

    /**
     * The loop of the sweep, over the entries of the track map: the map
     * keeps the entries whose employee is not idle, and each employee's
     * streak loses one per entry bound to it, never going below zero.
     */
    method SweepEntries(now: int, ghost employees: seq<Employee>, ghost index: map<int, nat>,
                        ghost groups: seq<seq<Embedding>>, ghost last: seq<int>, ghost frames0: seq<int>)
      requires viewModel.employees == employees && Distinct(employees)
      requires Fields(employees, groups, last, frames0)
      requires forall id :: id in viewModel.employeeMap <==> id in index
      requires forall id :: id in index ==> index[id] < |employees| && viewModel.employeeMap[id] == employees[index[id]]
      modifies viewModel, employees
      ensures viewModel.employees == employees
      ensures forall id :: id in viewModel.employeeMap <==> id in index && now - last[index[id]] <= IdleTimeout
      ensures forall id :: id in viewModel.employeeMap ==> viewModel.employeeMap[id] == employees[index[id]]
      ensures Fields(employees, groups, last, seq(|employees|, j requires 0 <= j < |employees| => Decay(frames0[j], |Aliases(index, j)|)))
    {
      ghost var frames := frames0;
      ghost var visited: seq<int> := [];
      var entries := viewModel.employeeMap;
      var pending := entries.Keys;
      SweepStarts(now, employees, index, groups, last, frames0);
      while pending != {}
        invariant Sweeping(now, employees, index, groups, last, frames0, entries, pending, visited, frames)
        decreases pending
      {
        pending, visited, frames := SweepStep(now, employees, index, groups, last, frames0, entries, pending, visited, frames);
      }
      SweepEnds(now, employees, index, groups, last, frames0, entries, visited, frames);
    }

    /** Before the first entry: nothing visited, the map as found, the streaks as they were. */
    lemma SweepStarts(now: int, employees: seq<Employee>, index: map<int, nat>,
                      groups: seq<seq<Embedding>>, last: seq<int>, frames0: seq<int>)
      requires viewModel.employees == employees && Distinct(employees)
      requires Fields(employees, groups, last, frames0)
      requires forall id :: id in viewModel.employeeMap <==> id in index
      requires forall id :: id in index ==> index[id] < |employees| && viewModel.employeeMap[id] == employees[index[id]]
      ensures Sweeping(now, employees, index, groups, last, frames0, viewModel.employeeMap, viewModel.employeeMap.Keys, [], frames0)
    {
      KeptAll(viewModel.employeeMap, index, last, now);
      assert Decayed(index, [], frames0) == frames0;
    }

    /** After the last entry: the idle entries are gone and every alias has cost its employee one. */
    lemma SweepEnds(now: int, employees: seq<Employee>, index: map<int, nat>, groups: seq<seq<Embedding>>,
                    last: seq<int>, frames0: seq<int>, entries: map<int, Employee>, visited: seq<int>, frames: seq<int>)
      requires Sweeping(now, employees, index, groups, last, frames0, entries, {}, visited, frames)
      ensures forall id :: id in viewModel.employeeMap <==> id in index && now - last[index[id]] <= IdleTimeout
      ensures forall id :: id in viewModel.employeeMap ==> viewModel.employeeMap[id] == employees[index[id]]
      ensures Fields(employees, groups, last, seq(|employees|, j requires 0 <= j < |employees| => Decay(frames0[j], |Aliases(index, j)|)))
    {
      forall j | 0 <= j < |employees|
        ensures frames[j] == Decay(frames0[j], |Aliases(index, j)|)
      {
        CountIsAliases(index, visited, j);
      }
    }

    /**
     * Part way through the sweep: `visited` lists the entries swept so far,
     * in order, and `pending` holds the rest; the map has lost the idle
     * entries among `visited`, and the streaks have been decremented once
     * per visited entry.
     */
    ghost predicate Sweeping(now: int, employees: seq<Employee>, index: map<int, nat>, groups: seq<seq<Embedding>>,
                             last: seq<int>, frames0: seq<int>, entries: map<int, Employee>,
                             pending: set<int>, visited: seq<int>, frames: seq<int>)
      reads this, viewModel, employees
    {
      && viewModel.employees == employees
      && Bookkeeping(employees, index, last, frames0, entries, pending, visited, frames)
      && viewModel.employeeMap == Kept(entries, index, last, pending, now)
      && Fields(employees, groups, last, frames)
    }

    /** One turn of the sweep loop: visit some pending entry. */
    method SweepStep(now: int, ghost employees: seq<Employee>, ghost index: map<int, nat>, ghost groups: seq<seq<Embedding>>,
                     ghost last: seq<int>, ghost frames0: seq<int>, entries: map<int, Employee>,
                     pending: set<int>, ghost visited: seq<int>, ghost frames: seq<int>)
      returns (pending': set<int>, ghost visited': seq<int>, ghost frames': seq<int>)
      requires pending != {}
      requires Sweeping(now, employees, index, groups, last, frames0, entries, pending, visited, frames)
      modifies viewModel, employees
      ensures pending' < pending
      ensures Sweeping(now, employees, index, groups, last, frames0, entries, pending', visited', frames')
    {
      HasMember(pending);
      var id :| id in pending;
      ghost var j0 := index[id];
      SweepAdvance(now, employees, index, last, frames0, entries, pending, visited, frames, id);
      Visit(id, entries[id], now, employees, j0, groups, last, frames);
      frames' := frames[j0 := if frames[j0] > 0 then frames[j0] - 1 else frames[j0]];
      pending' := pending - {id};
      visited' := visited + [id];
    }

    /**
     * One entry of the sweep: drop the entry when its employee is idle, and
     * take one from a positive streak. `employees[j0]` is the entry's
     * employee; every other employee is left alone.
     */
    method Visit(id: int, employee: Employee, now: int, ghost employees: seq<Employee>, ghost j0: nat,
                 ghost groups: seq<seq<Embedding>>, ghost last: seq<int>, ghost frames: seq<int>)
      requires j0 < |employees| && employees[j0] == employee && Distinct(employees)
      requires Fields(employees, groups, last, frames)
      modifies viewModel, employee
      ensures viewModel.employees == old(viewModel.employees)
      ensures viewModel.employeeMap ==
        if now - last[j0] > IdleTimeout then old(viewModel.employeeMap) - {id} else old(viewModel.employeeMap)
      ensures Fields(employees, groups, last, frames[j0 := if frames[j0] > 0 then frames[j0] - 1 else frames[j0]])
    {
      if now - employee.lastTracked > IdleTimeout {
        viewModel.employeeMap := viewModel.employeeMap - {id};
      }
      if employee.framesTracked > 0 {
        employee.framesTracked := employee.framesTracked - 1;
      }
      forall j | 0 <= j < |employees| && j != j0
        ensures employees[j] != employee
      {
      }
    }

    /**
     * `run` on the faces of one frame, all at the timestamp `now`: the
     * output records, one per face in order, and the number of `login()`
     * calls. The track map and the employees' fields end as
     * `ProcessFrame` says; the registry is never changed.
     */
    method Run(faces: seq<Detection>, now: int, score: Scorer) returns (trackedFaces: seq<TrackedFace>, logins: nat)
      requires viewModel.Valid()
      modifies viewModel, viewModel.employees
      ensures viewModel.Valid() && viewModel.employees == old(viewModel.employees) && viewModel.Groups() == old(viewModel.Groups())
      ensures var r := ProcessFrame(old(viewModel.Groups()), old(viewModel.State()), faces, score, now);
        && viewModel.State() == r.state
        && logins == r.logins
        && Reports(viewModel.employees, trackedFaces, faces, r.resolved)
    {
      ghost var groups := viewModel.Groups();
      ghost var st0 := viewModel.State();
      ghost var employees := viewModel.employees;
      trackedFaces := [];
      logins := 0;
      for i := 0 to |faces|
        invariant Ran(employees, groups, st0, faces[..i], score, now, trackedFaces, logins)
      {
        assert faces[..i + 1] == faces[..i] + [faces[i]];
        trackedFaces, logins := TrackNext(faces[i], now, score, employees, groups, st0, faces[..i], trackedFaces, logins);
      }
      assert faces[..|faces|] == faces;
      ghost var pass := FramePass(groups, st0, faces, score, now);
      Sweep(now, pass.state);
      viewModel.RepresentedIsState(Tracking.Sweep(pass.state, now));
    }

    /**
     * Part way through `run`, after the faces `done`: the objects hold the
     * state `FramePass` reaches on them, and `tracked` and `logins` are its
     * output records and `login()` count.
     */
    ghost predicate Ran(employees: seq<Employee>, groups: seq<seq<Embedding>>, st0: TrackState, done: seq<Detection>,
                        score: Scorer, now: int, tracked: seq<TrackedFace>, logins: nat)
      reads this, viewModel, viewModel.employees
    {
      && WellFormed(groups, st0)
      && viewModel.Valid() && viewModel.employees == employees && viewModel.Groups() == groups
      && var p := FramePass(groups, st0, done, score, now);
        && viewModel.Represents(p.state)
        && logins == p.logins
        && Reports(employees, tracked, done, p.resolved)
    }

    /** One turn of the loop of `run`: the next face. */
    method TrackNext(face: Detection, now: int, score: Scorer, ghost employees: seq<Employee>, ghost groups: seq<seq<Embedding>>,
                     ghost st0: TrackState, ghost done: seq<Detection>, tracked: seq<TrackedFace>, logins: nat)
      returns (tracked': seq<TrackedFace>, logins': nat)
      requires Ran(employees, groups, st0, done, score, now, tracked, logins)
      modifies viewModel, viewModel.employees
      ensures Ran(employees, groups, st0, done + [face], score, now, tracked', logins')
    {
      ghost var p := FramePass(groups, st0, done, score, now);
      assert (done + [face])[..|done|] == done;
      var t, n := TrackFace(face, now, score, p.state);
      tracked' := tracked + [t];
      logins' := logins + n;
    }
  }

  /** No employee object appears twice in `employees`. */
  ghost predicate Distinct(employees: seq<Employee>) {
    forall a, b :: 0 <= a < b < |employees| ==> employees[a] != employees[b]
  }

  /** The fields of `employees` hold `groups`, `last` and `frames`, entry by entry. */
  ghost predicate Fields(employees: seq<Employee>, groups: seq<seq<Embedding>>, last: seq<int>, frames: seq<int>)
    reads employees
  {
    && |groups| == |employees| && |last| == |employees| && |frames| == |employees|
    && forall j :: 0 <= j < |employees| ==>
      && employees[j].embeddings == groups[j]
      && employees[j].lastTracked == last[j]
      && employees[j].framesTracked == frames[j]
  }

  /** A set is empty or has a member. */
  lemma HasMember(s: set<int>)
    ensures s == {} || exists x :: x in s
  {
    if forall x :: x !in s {
      assert s == {};
    }
  }

  /**
   * The sweep's bookkeeping: `entries` is the track map as the sweep found
   * it, bound to `employees` through `index`; its keys are split between the
   * entries still `pending` and those `visited`, each visited once.
   */
  ghost predicate Partition(employees: seq<Employee>, index: map<int, nat>, entries: map<int, Employee>,
                            pending: set<int>, visited: seq<int>)
  {
    && Distinct(employees)
    && (forall id :: id in index ==> index[id] < |employees| && id in entries && entries[id] == employees[index[id]])
    && (forall id :: id in index <==> id in pending || id in visited)
    && (forall id :: id in visited ==> id !in pending)
    && (forall a, b :: 0 <= a < b < |visited| ==> visited[a] != visited[b])
  }

  /**
   * The sweep's bookkeeping on values: the partition of the entries and the
   * streaks after the `visited` entries.
   */
  ghost predicate Bookkeeping(employees: seq<Employee>, index: map<int, nat>, last: seq<int>, frames0: seq<int>,
                              entries: map<int, Employee>, pending: set<int>, visited: seq<int>, frames: seq<int>)
  {
    && |frames0| == |employees| && |last| == |employees|
    && Partition(employees, index, entries, pending, visited)
    && frames == Decayed(index, visited, frames0)
  }

  /**
   * Visiting the pending entry `id` moves it to `visited`, takes one from its
   * employee's positive streak, and removes it from the kept entries exactly
   * when its employee is idle.
   */
  lemma SweepAdvance(now: int, employees: seq<Employee>, index: map<int, nat>, last: seq<int>, frames0: seq<int>,
                     entries: map<int, Employee>, pending: set<int>, visited: seq<int>, frames: seq<int>, id: int)
    requires Bookkeeping(employees, index, last, frames0, entries, pending, visited, frames) && id in pending
    ensures id in index && index[id] < |employees| && id in entries && entries[id] == employees[index[id]]
    ensures Distinct(employees)
    ensures var j0 := index[id];
      Bookkeeping(employees, index, last, frames0, entries, pending - {id}, visited + [id],
                  frames[j0 := if frames[j0] > 0 then frames[j0] - 1 else frames[j0]])
    ensures Kept(entries, index, last, pending - {id}, now) ==
      if now - last[index[id]] > IdleTimeout then Kept(entries, index, last, pending, now) - {id}
      else Kept(entries, index, last, pending, now)
  {
    KeptStep(entries, index, last, pending, now, id);
    PartitionStep(employees, index, entries, pending, visited, id);
    FramesStep(index, visited, id, frames0);
  }

  lemma PartitionStep(employees: seq<Employee>, index: map<int, nat>, entries: map<int, Employee>,
                      pending: set<int>, visited: seq<int>, id: int)
    requires Partition(employees, index, entries, pending, visited) && id in pending
    ensures Partition(employees, index, entries, pending - {id}, visited + [id])
  {
  }

  /** The entries of `entries` that survive once those outside `pending` have been swept. */
  ghost function Kept(entries: map<int, Employee>, index: map<int, nat>, last: seq<int>, pending: set<int>, now: int): (kept: map<int, Employee>)
    requires forall id :: id in index ==> index[id] < |last|
  {
    map id | id in entries && id in index && (id in pending || now - last[index[id]] <= IdleTimeout) :: entries[id]
  }

  /** Before the sweep every entry is pending, so all are kept. */
  lemma KeptAll(entries: map<int, Employee>, index: map<int, nat>, last: seq<int>, now: int)
    requires forall id :: id in index ==> index[id] < |last|
    requires forall id :: id in entries <==> id in index
    ensures Kept(entries, index, last, entries.Keys, now) == entries
  {
    var kept := Kept(entries, index, last, entries.Keys, now);
    assert forall id :: id in kept <==> id in entries;
    assert forall id :: id in kept ==> kept[id] == entries[id];
  }

  /** Sweeping entry `id` removes it exactly when its employee is idle. */
  lemma KeptStep(entries: map<int, Employee>, index: map<int, nat>, last: seq<int>, pending: set<int>, now: int, id: int)
    requires forall id :: id in index ==> index[id] < |last|
    requires id in pending && id in entries && id in index
    ensures Kept(entries, index, last, pending - {id}, now) ==
      if now - last[index[id]] > IdleTimeout then Kept(entries, index, last, pending, now) - {id}
      else Kept(entries, index, last, pending, now)
  {
  }

  /** How many of the tracking ids in `ids` are bound to employee `j` in `m`. */
  ghost function Count(m: map<int, nat>, ids: seq<int>, j: nat): nat {
    if ids == [] then 0
    else
      var id := ids[|ids| - 1];
      Count(m, ids[..|ids| - 1], j) + (if id in m && m[id] == j then 1 else 0)
  }

  /** The streaks after the entries `visited`, in that order, have been swept. */
  ghost function Decayed(m: map<int, nat>, visited: seq<int>, frames0: seq<int>): (f: seq<int>)
    ensures |f| == |frames0|
  {
    seq(|frames0|, j requires 0 <= j < |frames0| => Decay(frames0[j], Count(m, visited, j)))
  }

  /**
   * Visiting entry `id` takes one decrement from its employee's streak and
   * from no one else's.
   */
  lemma FramesStep(m: map<int, nat>, visited: seq<int>, id: int, frames0: seq<int>)
    requires id in m && m[id] < |frames0|
    ensures var f := Decayed(m, visited, frames0);
      Decayed(m, visited + [id], frames0) == f[m[id] := if f[m[id]] > 0 then f[m[id]] - 1 else f[m[id]]]
  {
    assert (visited + [id])[..|visited|] == visited;
  }

  /** Counting a list of distinct ids that covers the map counts the aliases. */
  lemma {:induction false} CountIsAliases(m: map<int, nat>, ids: seq<int>, j: nat)
    requires forall a, b :: 0 <= a < b < |ids| ==> ids[a] != ids[b]
    requires forall id :: id in ids <==> id in m
    ensures Count(m, ids, j) == |Aliases(m, j)|
  {
    CountIsCardinality(m, ids, j);
    var counted := set id | id in ids && id in m && m[id] == j;
    forall id
      ensures id in counted <==> id in Aliases(m, j)
    {
    }
    assert counted == Aliases(m, j);
  }

  lemma {:induction false} CountIsCardinality(m: map<int, nat>, ids: seq<int>, j: nat)
    requires forall a, b :: 0 <= a < b < |ids| ==> ids[a] != ids[b]
    ensures Count(m, ids, j) == |set id | id in ids && id in m && m[id] == j|
  {
    if ids != [] {
      var last := ids[|ids| - 1];
      var init := ids[..|ids| - 1];
      CountIsCardinality(m, init, j);
      assert last !in init by {
        forall k | 0 <= k < |init|
          ensures init[k] != last
        {
          assert init[k] == ids[k];
        }
      }
      var before := set id | id in init && id in m && m[id] == j;
      var after := set id | id in ids && id in m && m[id] == j;
      assert forall id :: id in ids <==> id in init || id == last;
      if last in m && m[last] == j {
        assert after == before + {last};
      } else {
        assert after == before;
      }
    }
  }
}
