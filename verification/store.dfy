/**
 The three tables the endpoint writes (restrictions, jobs and the
 job-to-restriction links called jobbings) and the restrictions cache, as one
 immutable value. Every table carries an auto-increment counter: a new row
 takes the counter as its id and the counter moves on.
 */
module Store {

  datatype RestrictionState = Enabled | Disabled

  datatype Restriction = Restriction(id: nat, category: string, scope: string, value: string, state: RestrictionState)

  datatype Job = Job(id: nat, description: string, jobType: string, startAt: int, finishAt: int)

  /** A link from a job to the restriction it governs (`reference`). */
  datatype Jobbing = Jobbing(id: nat, jobId: nat, referenceId: nat)

  /** Cached snapshots of effective restrictions, keyed by name. */
  type RestrictionCache = map<string, seq<Restriction>>

  datatype Store = Store(
    restrictions: seq<Restriction>,
    jobs: seq<Job>,
    jobbings: seq<Jobbing>,
    nextRestrictionId: nat,
    nextJobId: nat,
    nextJobbingId: nat,
    cache: RestrictionCache)

  function RestrictionIds(rs: seq<Restriction>): set<nat> {
    set r | r in rs :: r.id
  }

  function JobIds(js: seq<Job>): set<nat> {
    set j | j in js :: j.id
  }

  /** Every id lies below its table's counter, so the counter is always a fresh id. */
  predicate CountersFresh(s: Store) {
    && (forall i :: 0 <= i < |s.restrictions| ==> s.restrictions[i].id < s.nextRestrictionId)
    && (forall i :: 0 <= i < |s.jobs| ==> s.jobs[i].id < s.nextJobId)
    && (forall i :: 0 <= i < |s.jobbings| ==> s.jobbings[i].id < s.nextJobbingId)
  }

  /** Ids are primary keys. */
  predicate KeysUnique(s: Store) {
    && (forall i, j :: 0 <= i < j < |s.restrictions| ==> s.restrictions[i].id != s.restrictions[j].id)
    && (forall i, j :: 0 <= i < j < |s.jobs| ==> s.jobs[i].id != s.jobs[j].id)
    && (forall i, j :: 0 <= i < j < |s.jobbings| ==> s.jobbings[i].id != s.jobbings[j].id)
  }

  /** Every link names an existing job and an existing restriction. */
  predicate LinksResolve(s: Store) {
    forall l :: l in s.jobbings ==> l.jobId in JobIds(s.jobs) && l.referenceId in RestrictionIds(s.restrictions)
  }

  predicate Wf(s: Store) {
    CountersFresh(s) && KeysUnique(s) && LinksResolve(s)
  }

  /** `s'` keeps every row of `s` unchanged and in place: the tables only grow at the end. */
  predicate Extends(s: Store, s': Store) {
    && s.restrictions <= s'.restrictions
    && s.jobs <= s'.jobs
    && s.jobbings <= s'.jobbings
  }

  /** `Restriction.create`: appends a row and returns its id. */
  function InsertRestriction(s: Store, category: string, scope: string, value: string, state: RestrictionState): (Store, nat) {
    var row := Restriction(s.nextRestrictionId, category, scope, value, state);
    (s.(restrictions := s.restrictions + [row], nextRestrictionId := s.nextRestrictionId + 1), row.id)
  }

  /** `Job#save` once validation passed: appends a row and returns its id. */
  function InsertJob(s: Store, description: string, jobType: string, startAt: int, finishAt: int): (Store, nat) {
    var row := Job(s.nextJobId, description, jobType, startAt, finishAt);
    (s.(jobs := s.jobs + [row], nextJobId := s.nextJobId + 1), row.id)
  }

  /** `Jobbing.create!`: appends a link. */
  function InsertJobbing(s: Store, jobId: nat, referenceId: nat): Store {
    s.(jobbings := s.jobbings + [Jobbing(s.nextJobbingId, jobId, referenceId)], nextJobbingId := s.nextJobbingId + 1)
  }

  lemma InsertRestrictionKeepsWf(s: Store, category: string, scope: string, value: string, state: RestrictionState)
    requires Wf(s)
    ensures var (s', id) := InsertRestriction(s, category, scope, value, state);
            Wf(s') && id in RestrictionIds(s'.restrictions) && id !in RestrictionIds(s.restrictions)
  {
  }

  lemma InsertJobKeepsWf(s: Store, description: string, jobType: string, startAt: int, finishAt: int)
    requires Wf(s)
    ensures var (s', id) := InsertJob(s, description, jobType, startAt, finishAt);
            Wf(s') && id in JobIds(s'.jobs) && id !in JobIds(s.jobs)
  {
  }

  /** A link keeps the store well formed exactly when both ends exist. */
  lemma InsertJobbingKeepsWf(s: Store, jobId: nat, referenceId: nat)
    requires Wf(s)
    ensures Wf(InsertJobbing(s, jobId, referenceId)) <==> jobId in JobIds(s.jobs) && referenceId in RestrictionIds(s.restrictions)
  {
  }
}
