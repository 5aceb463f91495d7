/**
 * `CameraViewModel`: the employee registry (a hash set of `Employee`
 * records), the track map from detector tracking ids to employees,
 * enrolment, reset, and the older matching block of `detectFaces`.
 *
 * The registry is a sequence here (its iteration order); `Groups()` and
 * `State()` read the objects back as the values `Tracking` works on, and
 * each method is proved to move them exactly as the value-level function.
 */
module ViewModel {
  import opened Wrappers
  import opened Embeddings
  import opened Records
  import opened Tracking
  import opened LegacyTracking

  /** The position of `e` in `s`. */
  ghost function IndexOf(s: seq<Employee>, e: Employee): (i: nat)
    requires e in s
    ensures i < |s| && s[i] == e
  {
    if s[0] == e then 0 else 1 + IndexOf(s[1..], e)
  }

  class CameraViewModel {
    var employees: seq<Employee>
    var employeeMap: map<int, Employee>

    /**
     * The registry holds each record once, the track map only points into
     * the registry, and no streak is negative.
     */
    ghost predicate Valid()
      reads this, employees
    {
      && (forall i, j :: 0 <= i < j < |employees| ==> employees[i] != employees[j])
      && (forall id :: id in employeeMap ==> employeeMap[id] in employees)
      && (forall j :: 0 <= j < |employees| ==> employees[j].framesTracked >= 0)
    }

    /** The stored embeddings of each registry entry. */
    ghost function Groups(): (g: seq<seq<Embedding>>)
      reads this, employees
    {
      seq(|employees|, j reads this, employees requires 0 <= j < |employees| => employees[j].embeddings)
    }

    /** The objects agree with the value `st`, entry by entry. */
    ghost predicate Represents(st: TrackState)
      reads this, employees
    {
      && |st.lastTracked| == |employees|
      && |st.framesTracked| == |employees|
      && (forall j :: 0 <= j < |employees| ==>
            employees[j].lastTracked == st.lastTracked[j] && employees[j].framesTracked == st.framesTracked[j])
      && (forall id :: id in employeeMap <==> id in st.employeeMap)
      && (forall id :: id in st.employeeMap ==>
            st.employeeMap[id] < |employees| && id in employeeMap && employeeMap[id] == employees[st.employeeMap[id]])
    }

    /** The mutable fields and the track map as a value. */
    ghost function State(): (st: TrackState)
      requires Valid()
      reads this, employees
      ensures Represents(st) && WellFormed(Groups(), st)
    {
      TrackState(
        map id | id in employeeMap :: IndexOf(employees, employeeMap[id]),
        seq(|employees|, j reads this, employees requires 0 <= j < |employees| => employees[j].lastTracked),
        seq(|employees|, j reads this, employees requires 0 <= j < |employees| => employees[j].framesTracked))
    }

    /** A value the objects represent is their state. */
    lemma RepresentedIsState(st: TrackState)
      requires Valid() && Represents(st)
      ensures State() == st
    {
      var s := State();
      forall id | id in st.employeeMap
        ensures s.employeeMap[id] == st.employeeMap[id]
      {
        var i := s.employeeMap[id];
        var k := st.employeeMap[id];
        assert employees[i] == employeeMap[id] == employees[k];
      }
      assert forall id :: id in s.employeeMap <==> id in st.employeeMap;
      assert s.employeeMap == st.employeeMap;
      assert s.lastTracked == st.lastTracked;
      assert s.framesTracked == st.framesTracked;
    }

    /** Every record holds exactly one stored embedding, which is all enrolment creates. */
    ghost predicate SingleEmbeddings()
      reads this, employees
    {
      forall j :: 0 <= j < |employees| ==> |employees[j].embeddings| == 1
    }

    /** Some registry record carries exactly these five properties. */
    ghost predicate HasRecord(name: string, id: int, embeddings: seq<Embedding>, lastTracked: int, framesTracked: int)
      reads this, employees
    {
      exists j ::
        && 0 <= j < |employees|
        && employees[j].name == name && employees[j].id == id && employees[j].embeddings == embeddings
        && employees[j].lastTracked == lastTracked && employees[j].framesTracked == framesTracked
    }

    constructor ()
      ensures Valid() && employees == [] && employeeMap == map[]
      ensures SingleEmbeddings()
    {
      employees := [];
      employeeMap := map[];
    }

    /** `HashSet.contains`: some record is data-equal to `employee`. */
    method Contains(employee: Employee) returns (found: bool)
      ensures found <==> exists j :: 0 <= j < |employees| && employees[j].SameData(employee)
    {
      for j := 0 to |employees|
        invariant forall k :: 0 <= k < j ==> !employees[k].SameData(employee)
      {
        if employees[j].SameData(employee) {
          return true;
        }
      }
      return false;
    }

    /**
     * Enrols a record with one embedding, stamped `now` and streak 0, and
     * binds `currentId` to it, unless a data-equal record is already
     * enrolled, in which case nothing changes. Enrolling an id that is
     * already present with another embedding adds a second record.
     */
    method AddNewEmployee(name: string, id: int, embedding: Embedding, currentId: int, now: int)
      requires Valid()
      modifies this
      ensures Valid()
      ensures old(SingleEmbeddings()) ==> SingleEmbeddings()
      ensures old(HasRecord(name, id, [embedding], now, 0)) ==> employees == old(employees) && employeeMap == old(employeeMap)
      ensures !old(HasRecord(name, id, [embedding], now, 0)) ==>
        && |employees| == |old(employees)| + 1
        && employees[..|old(employees)|] == old(employees)
        && fresh(employees[|old(employees)|])
        && var e := employees[|old(employees)|];
           && e.name == name && e.id == id && e.embeddings == [embedding] && e.lastTracked == now && e.framesTracked == 0
           && employeeMap == old(employeeMap)[currentId := e]
           && Groups() == old(Groups()) + [[embedding]]
           && State() == Enroll(old(State()), currentId, now)
    {
      var employee := new Employee(name, id, [embedding], now, 0);
      var found := Contains(employee);
      if !found {
        Append(employee, currentId, now);
      }
    }

    /** The enrolling branch of `addNewEmployee`: append the record and bind `currentId` to it. */
    method Append(employee: Employee, currentId: int, now: int)
      requires Valid() && employee !in employees
      requires employee.lastTracked == now && employee.framesTracked == 0
      modifies this
      ensures employees == old(employees) + [employee] && employeeMap == old(employeeMap)[currentId := employee]
      ensures Valid() && Groups() == old(Groups()) + [employee.embeddings]
      ensures State() == Enroll(old(State()), currentId, now)
    {
      ghost var groups := Groups();
      ghost var st := Enroll(State(), currentId, now);
      employees := employees + [employee];
      employeeMap := employeeMap[currentId := employee];
      assert Represents(st);
      RepresentedIsState(st);
      assert Groups() == groups + [employee.embeddings];
    }

    /** Drops every binding; the registry is untouched. */
    method ResetEmployeeMap()
      requires Valid()
      modifies this
      ensures Valid() && employees == old(employees) && employeeMap == map[]
      ensures State() == old(State()).(employeeMap := map[])
      ensures old(SingleEmbeddings()) ==> SingleEmbeddings()
    {
      ghost var st := State().(employeeMap := map[]);
      employeeMap := map[];
      RepresentedIsState(st);
    }

    /**
     * The best candidate for `probe`: a scan over every stored embedding of
     * every record, keeping a matching score that beats the best so far.
     * It finds exactly what `Search` finds.
     */
    method BestCandidate(probe: Embedding, score: Scorer) returns (best: Option<Candidate>)
      ensures match Search(Groups(), probe, score)
        case None => best.None?
        case Some(c) => best == Some(Candidate(c.distance, employees[c.employee]))
    {
      ghost var groups := Groups();
      ghost var choice: Option<Choice> := None;
      best := None;
      for i := 0 to |employees|
        invariant choice == Search(groups[..i], probe, score)
        invariant choice.None? ==> best.None?
        invariant choice.Some? ==> choice.value.employee < i && best == Some(Candidate(choice.value.distance, employees[choice.value.employee]))
      {
        var employee := employees[i];
        var embs := employee.embeddings;
        ghost var before := choice;
        for k := 0 to |embs|
          invariant choice == ScanEmployee(before, i, embs[..k], probe, score)
          invariant choice.None? ==> best.None?
          invariant choice.Some? ==> choice.value.employee <= i && best == Some(Candidate(choice.value.distance, employees[choice.value.employee]))
        {
          var distance := score(embs[k], probe);
          assert embs[..k + 1][..k] == embs[..k];
          if Matches(distance) && (best.None? || Greater(distance, best.value.distance)) {
            best := Some(Candidate(distance, employee));
            choice := Some(Choice(distance, i));
          }
        }
        assert embs[..|embs|] == embs == groups[i];
        assert groups[..i + 1][..i] == groups[..i];
      }
      assert groups[..|employees|] == groups;
    }

    /**
     * The unbound path shared by both variants: bind `id` to the best
     * candidate, if there is one.
     */
    method BindBest(id: int, probe: Embedding, score: Scorer, ghost st: TrackState) returns (employee: Option<Employee>)
      requires Valid() && Represents(st) && WellFormed(Groups(), st)
      requires id !in employeeMap
      modifies this
      ensures Valid() && employees == old(employees)
      ensures match Search(old(Groups()), probe, score)
        case None => employee.None? && employeeMap == old(employeeMap) && Represents(st)
        case Some(c) =>
          && employee == Some(employees[c.employee])
          && employeeMap == old(employeeMap)[id := employees[c.employee]]
          && Represents(st.(employeeMap := st.employeeMap[id := c.employee]))
    {
      ghost var groups := Groups();
      employee := None;
      var best := BestCandidate(probe, score);
      if best.Some? {
        ghost var j := Search(groups, probe, score).value.employee;
        employee := Some(best.value.employee);
        employeeMap := employeeMap[id := best.value.employee];
        ghost var bound := st.(employeeMap := st.employeeMap[id := j]);
        assert forall k :: k in employeeMap <==> k in bound.employeeMap;
        assert Represents(bound);
      }
    }

    /**
     * The bound path of the older variant for one face: each stored
     * embedding may stamp `now`, and the id is unbound once the track is
     * idle for more than `LegacyTimeout`; looking the id up after that
     * aborts.
     */
    method RefreshBoundLegacy(id: int, probe: Embedding, score: Scorer, now: int, ghost st: TrackState) returns (employee: Option<Employee>, crashed: bool)
      requires Valid() && Represents(st) && WellFormed(Groups(), st)
      requires id in employeeMap
      modifies this, employeeMap[id]
      ensures Valid() && Groups() == old(Groups())
      ensures var j := st.employeeMap[id];
        var p := LegacyRefresh(old(Groups())[j], probe, score, now, Progress(st.lastTracked[j], true, false));
        Represents(TrackState(if p.bound then st.employeeMap else st.employeeMap - {id}, st.lastTracked[j := p.lastTracked], st.framesTracked))
      ensures var e := old(employeeMap[id]);
        var p := LegacyRefresh(old(e.embeddings), probe, score, now, Progress(old(e.lastTracked), true, false));
        && crashed == p.crashed
        && e.lastTracked == p.lastTracked
        && e.embeddings == old(e.embeddings) && e.framesTracked == old(e.framesTracked)
        && employees == old(employees)
        && employeeMap == (if p.bound then old(employeeMap) else old(employeeMap) - {id})
        && (!crashed ==> employee == if e.embeddings == [] then None else Some(e))
    {
      var e := employeeMap[id];
      ghost var j := st.employeeMap[id];
      ghost var embs := e.embeddings;
      employee, crashed := LegacyScan(id, e, probe, score, now);
      ghost var p := LegacyRefresh(embs, probe, score, now, Progress(old(e.lastTracked), true, false));
      ghost var after := TrackState(if p.bound then st.employeeMap else st.employeeMap - {id}, st.lastTracked[j := p.lastTracked], st.framesTracked);
      forall k | 0 <= k < |employees|
        ensures employees[k].lastTracked == after.lastTracked[k] && employees[k].framesTracked == after.framesTracked[k]
      {
        if k != j {
          assert employees[k] != e;
        }
      }
      assert forall k :: k in employeeMap <==> k in after.employeeMap;
    }

    /**
     * The loop of the older bound path over the stored embeddings of `e`,
     * the employee bound to `id`: a match stamps `now`, a track idle for
     * more than `LegacyTimeout` loses `id`, and a later lookup of `id`
     * aborts.
     */
    method LegacyScan(id: int, e: Employee, probe: Embedding, score: Scorer, now: int) returns (employee: Option<Employee>, crashed: bool)
      requires id in employeeMap && employeeMap[id] == e
      modifies this, e
      ensures var p := LegacyRefresh(old(e.embeddings), probe, score, now, Progress(old(e.lastTracked), true, false));
        && crashed == p.crashed
        && e.lastTracked == p.lastTracked
        && e.embeddings == old(e.embeddings) && e.framesTracked == old(e.framesTracked)
        && employees == old(employees)
        && employeeMap == (if p.bound then old(employeeMap) else old(employeeMap) - {id})
        && (!crashed ==> employee == if e.embeddings == [] then None else Some(e))
    {
      var embs := e.embeddings;
      ghost var start := Progress(e.lastTracked, true, false);
      employee := None;
      crashed := false;
      for k := 0 to |embs|
        invariant e.embeddings == embs && e.framesTracked == old(e.framesTracked) && employees == old(employees)
        invariant var p := LegacyRefresh(embs[..k], probe, score, now, start);
          && !p.crashed
          && e.lastTracked == p.lastTracked
          && employeeMap == (if p.bound then old(employeeMap) else old(employeeMap) - {id})
        invariant employee == if k == 0 then None else Some(e)
      {
        var distance := score(embs[k], probe);
        assert embs[..k + 1][..k] == embs[..k];
        if id !in employeeMap {
          // The lookup yields null and the dereference throws.
          crashed := true;
          LegacyRefreshAbortIsFinal(embs, probe, score, now, start, k + 1);
          break;
        }
        employee := Some(employeeMap[id]);
        if Matches(distance) {
          e.lastTracked := now;
        }
        if now - e.lastTracked > LegacyTimeout {
          employeeMap := employeeMap - {id};
        }
      }
      assert embs[..|embs|] == embs;
    }

    /**
     * One face of the older variant: the output record for it, or an abort.
     * The track map and timestamps move as `LegacyFaceStep` says.
     */
    method LegacyTrackFace(face: Detection, now: int, score: Scorer, ghost st: TrackState) returns (tracked: TrackedFace, crashed: bool)
      requires Valid() && Represents(st) && WellFormed(Groups(), st)
      modifies this, employees
      ensures Valid() && employees == old(employees) && Groups() == old(Groups())
      ensures var r := LegacyFaceStep(old(Groups()), st, face, score, now);
        && Represents(r.state)
        && crashed == r.crashed
        && (!crashed ==> tracked == TrackedFace(r.resolved.currentId, face.screenBox, EmployeeAt(employees, r.resolved.employee), face.embedding))
    {
      ghost var groups := Groups();
      var employee: Option<Employee> := None;
      crashed := false;
      if face.trackingId.Some? {
        var id := face.trackingId.value;
        if id in employeeMap {
          employee, crashed := RefreshBoundLegacy(id, face.embedding, score, now, st);
        } else {
          employee := BindBest(id, face.embedding, score, st);
        }
      }
      tracked := TrackedFace(face.trackingId.GetOr(0), face.screenBox, employee, face.embedding);
    }

    /**
     * The matching block of `detectFaces`: each face with its own clock
     * reading; the output list, or `None` when a bound refresh dereferences
     * null. The app stops analysing for good at that point, so `None` marks
     * its end, not a skipped frame. The track map and timestamps end as
     * `LegacyProcessFrame` says, including the changes made before the
     * crash. A registry built by enrolment alone never crashes.
     */
    method DetectFaces(faces: seq<StampedFace>, score: Scorer) returns (published: Option<seq<TrackedFace>>)
      requires Valid()
      modifies this, employees
      ensures Valid() && employees == old(employees) && Groups() == old(Groups())
      ensures var r := LegacyProcessFrame(old(Groups()), old(State()), faces, score);
        && State() == r.state
        && (published.Some? <==> !r.crashed)
        && (published.Some? ==> Reports(employees, published.value, Detections(faces), r.resolved))
      ensures old(SingleEmbeddings()) ==> published.Some?
    {
      ghost var groups := Groups();
      ghost var st0 := State();
      ghost var registry := employees;
      if SingleEmbeddings() {
        LegacyNeverCrashesWithSingleEmbeddings(groups, st0, faces, score);
      }
      var tracked: seq<TrackedFace> := [];
      for i := 0 to |faces|
        invariant Detected(registry, groups, st0, faces[..i], score, tracked)
      {
        assert faces[..i + 1] == faces[..i] + [faces[i]];
        var crashed;
        tracked, crashed := DetectNext(faces[i], score, registry, groups, st0, faces[..i], tracked);
        if crashed {
          LegacyCrashIsFinal(groups, st0, faces, score, i + 1);
          RepresentedIsState(LegacyProcessFrame(groups, st0, faces[..i + 1], score).state);
          return None;
        }
      }
      assert faces[..|faces|] == faces;
      RepresentedIsState(LegacyProcessFrame(groups, st0, faces, score).state);
      published := Some(tracked);
    }

    /**
     * Part way through the matching block, after the faces `done`, none of
     * which aborted: the objects hold the state `LegacyProcessFrame` reaches
     * on them and `tracked` is its output list.
     */
    ghost predicate Detected(registry: seq<Employee>, groups: seq<seq<Embedding>>, st0: TrackState, done: seq<StampedFace>,
                             score: Scorer, tracked: seq<TrackedFace>)
      reads this, employees
    {
      && WellFormed(groups, st0)
      && Valid() && employees == registry && Groups() == groups
      && var p := LegacyProcessFrame(groups, st0, done, score);
        && !p.crashed
        && Represents(p.state)
        && Reports(registry, tracked, Detections(done), p.resolved)
    }

    /** One turn of the loop of `detectFaces`: the next face, which may abort the frame. */
    method DetectNext(face: StampedFace, score: Scorer, ghost registry: seq<Employee>, ghost groups: seq<seq<Embedding>>,
                      ghost st0: TrackState, ghost done: seq<StampedFace>, tracked: seq<TrackedFace>)
      returns (tracked': seq<TrackedFace>, crashed: bool)
      requires Detected(registry, groups, st0, done, score, tracked)
      modifies this, employees
      ensures var r := LegacyProcessFrame(groups, st0, done + [face], score);
        && crashed == r.crashed
        && Valid() && employees == registry && Groups() == groups && Represents(r.state)
        && (!crashed ==> Detected(registry, groups, st0, done + [face], score, tracked'))
    {
      ghost var p := LegacyProcessFrame(groups, st0, done, score);
      assert (done + [face])[..|done|] == done;
      assert Detections(done + [face]) == Detections(done) + [face.face];
      var t;
      t, crashed := LegacyTrackFace(face.face, face.currentTime, score, p.state);
      tracked' := tracked + [t];
    }
  }

  /**
   * Enrolling the same employee id twice with different embeddings keeps
   * both records: enrolment never merges into an existing record.
   */
  method EnrolTwiceKeepsBoth(name: string, id: int, first: Embedding, second: Embedding, now: int) returns (n: nat, sameId: bool)
    requires first != second
    ensures n == 2 && sameId
  {
    var vm := new CameraViewModel();
    vm.AddNewEmployee(name, id, first, 1, now);
    vm.AddNewEmployee(name, id, second, 2, now);
    n := |vm.employees|;
    sameId := vm.employees[0].id == vm.employees[1].id;
  }

  /** The employee at a resolved registry position. */
  function EmployeeAt(employees: seq<Employee>, j: Option<nat>): Option<Employee> {
    if j.Some? && j.value < |employees| then Some(employees[j.value]) else None
  }

  /** `tracked` is the output list for `faces` resolved as `resolved` against `employees`. */
  ghost predicate Reports(employees: seq<Employee>, tracked: seq<TrackedFace>, faces: seq<Detection>, resolved: seq<Resolved>) {
    && |tracked| == |faces| && |resolved| == |faces|
    && forall i :: 0 <= i < |faces| ==>
         tracked[i] == TrackedFace(resolved[i].currentId, faces[i].screenBox, EmployeeAt(employees, resolved[i].employee), faces[i].embedding)
  }
}
