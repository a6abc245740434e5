/** Properties of the create-job handler that relate the store before and after one or two calls. */
module JobsProperties {
  import opened Store
  import opened Params
  import opened Restrictions
  import opened Jobs
  import Cache

  /**
   A call that gets past the parameter checks leaves exactly one marker of its
   type if there was at most one before: the marker is reused, and whitelist
   rows never count as markers.
   */
  lemma ScheduleMarkerCount(s: Store, req: Request, jobValid: JobFields -> bool, state: RestrictionState)
    requires Valid(req)
    ensures var t := req.jobType.value;
            var before := CountMarkers(s.restrictions, t);
            CountMarkers(Schedule(s, req, jobValid, state).store.restrictions, t) == if before == 0 then 1 else before
  {
    var t := req.jobType.value;
    var r := Schedule(s, req, jobValid, state);
    var marker := MissingMarker(s, t);
    var ips := if r.status.Created? then Whitelist(req) else [];
    var firstId := s.nextRestrictionId + |marker|;
    assert r.store.restrictions == s.restrictions + marker + WhitelistRows(firstId, ips, state);
    MarkerThenWhitelistCount(s, t, firstId, ips, state);
  }

  /**
   Two windows of the same type: the second call creates no marker, both
   jobs are distinct rows, and both link to the same marker row.
   */
  lemma SameTypeReusesMarker(s: Store, req1: Request, req2: Request, jobValid: JobFields -> bool, state: RestrictionState)
    requires Valid(req1) && Valid(req2) && req1.jobType == req2.jobType
    requires CountMarkers(s.restrictions, req1.jobType.value) <= 1
    ensures var r1 := Schedule(s, req1, jobValid, state);
            var r2 := Schedule(r1.store, req2, jobValid, state);
            && CountMarkers(r2.store.restrictions, req1.jobType.value) == 1
            && MissingMarker(r1.store, req2.jobType.value) == []
            && (r1.status.Created? && r2.status.Created? ==>
                  && r1.status.jobId != r2.status.jobId
                  && r2.store.jobbings[|r1.store.jobbings|].referenceId == r1.store.jobbings[|s.jobbings|].referenceId)
  {
    var t := req1.jobType.value;
    var r1 := Schedule(s, req1, jobValid, state);
    var r2 := Schedule(r1.store, req2, jobValid, state);
    ScheduleMarkerCount(s, req1, jobValid, state);
    ScheduleMarkerCount(r1.store, req2, jobValid, state);
    CountMarkersZero(r1.store.restrictions, t);
    if r1.status.Created? && r2.status.Created? {
      var rs := r2.store.restrictions;
      var n1 := |s.jobbings|;
      var n2 := |r1.store.jobbings|;
      var i :| 0 <= i < |r1.store.restrictions| && r1.store.restrictions[i].id == r1.store.jobbings[n1].referenceId
               && IsMarker(r1.store.restrictions[i], t);
      var j :| 0 <= j < |rs| && rs[j].id == r2.store.jobbings[n2].referenceId && IsMarker(rs[j], t);
      assert rs[i] == r1.store.restrictions[i];
      SingleMarkerUnique(rs, t, i, j);
      assert r2.store.jobbings[n1] == r1.store.jobbings[n1];
    }
  }

  /** The whitelist loop keeps the store well formed: each new link names its own new row and an existing job. */
  lemma {:induction false} FanOutKeepsWf(s: Store, jobId: nat, ips: seq<string>, state: RestrictionState)
    requires Wf(s) && jobId in JobIds(s.jobs)
    ensures Wf(FanOut(s, jobId, ips, state))
    decreases |ips|
  {
    if |ips| > 0 {
      var (s1, rid) := InsertRestriction(s, "whitelist", "ip", ips[0], state);
      InsertRestrictionKeepsWf(s, "whitelist", "ip", ips[0], state);
      var s2 := InsertJobbing(s1, jobId, rid);
      InsertJobbingKeepsWf(s1, jobId, rid);
      FanOutKeepsWf(s2, jobId, ips[1..], state);
    }
  }

  /**
   The handler keeps the store well formed: ids stay fresh and unique, and
   every link, old or new, names an existing job and restriction. The job it
   creates has an id no earlier job had.
   */
  lemma ScheduleKeepsWf(s: Store, req: Request, jobValid: JobFields -> bool, state: RestrictionState)
    requires Wf(s)
    ensures var r := Schedule(s, req, jobValid, state);
            && Wf(r.store)
            && (r.status.Created? ==> r.status.jobId !in JobIds(s.jobs))
  {
    if Valid(req) {
      var f := Fields(req);
      var MarkerLookup(s1, markerId) := FindOrCreateMarker(s, f.jobType);
      if !HasMarker(s.restrictions, f.jobType) {
        InsertRestrictionKeepsWf(s, f.jobType, "all", "all", Disabled);
      }
      assert markerId in RestrictionIds(s1.restrictions);
      if jobValid(f) {
        var (s2, jobId) := InsertJob(s1, f.description, f.jobType, f.startAt, f.finishAt);
        InsertJobKeepsWf(s1, f.description, f.jobType, f.startAt, f.finishAt);
        assert JobIds(s.jobs) == JobIds(s1.jobs);
        var s3 := InsertJobbing(s2, jobId, markerId);
        InsertJobbingKeepsWf(s2, jobId, markerId);
        FanOutKeepsWf(s3, jobId, Whitelist(req), state);
        var s4 := FanOut(s3, jobId, Whitelist(req), state);
        assert Schedule(s, req, jobValid, state) == Response(s4.(cache := Cache.Delete(s4.cache, Cache.RestrictionsKey)), Created(jobId));
      } else {
        assert Schedule(s, req, jobValid, state).store == s1;
      }
    }
  }

  /**
   The handler as written saves the job and its marker link and then fails:
   no whitelist row or link is created, and a cached restrictions snapshot
   taken before the call survives it. The intended handler succeeds on the
   same input with all 1 + |whitelist| links and the cache entry dropped.
   */
  lemma AsWrittenSkipsWhitelist(s: Store, req: Request, jobValid: JobFields -> bool, state: RestrictionState)
    requires Valid(req) && jobValid(Fields(req))
    ensures var written := ScheduleAsWritten(s, req, jobValid);
            var intended := Schedule(s, req, jobValid, state);
            && written.status == Rejected(UndefinedName("whitelist_ip"))
            && written.store.restrictions == s.restrictions + MissingMarker(s, req.jobType.value)
            && written.store.jobbings == intended.store.jobbings[..|s.jobbings| + 1]
            && written.store.jobs == intended.store.jobs
            && |written.store.jobbings| == |s.jobbings| + 1
            && written.store.cache == s.cache
            && intended.status.Created?
            && |intended.store.jobbings| == |s.jobbings| + 1 + |Whitelist(req)|
            && Cache.RestrictionsKey !in intended.store.cache
  {
  }

  /** A concrete input on which the two differ: one whitelisted address and a warm cache. */
  lemma AsWrittenCounterexample(s: Store, state: RestrictionState)
    requires Cache.RestrictionsKey in s.cache
    ensures var req := Request(Wrappers.Some("scheduled upgrade"), Wrappers.Some("maintenance"),
                               Wrappers.Some(0), Wrappers.Some(1), Wrappers.Some(["10.0.0.5"]));
            var accept := (f: JobFields) => true;
            && Cache.RestrictionsKey in ScheduleAsWritten(s, req, accept).store.cache
            && Cache.RestrictionsKey !in Schedule(s, req, accept, state).store.cache
            && |Schedule(s, req, accept, state).store.jobbings| == |s.jobbings| + 2
  {
    var req := Request(Wrappers.Some("scheduled upgrade"), Wrappers.Some("maintenance"),
                       Wrappers.Some(0), Wrappers.Some(1), Wrappers.Some(["10.0.0.5"]));
    assert !IsSpace(req.description.value[0]);
    AsWrittenSkipsWhitelist(s, req, (f: JobFields) => true, state);
  }
}
