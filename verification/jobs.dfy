/**
 The `POST /admin/jobs` handler: validate the parameters, find or create the
 maintenance marker, save the job, link it to the marker, create and link one
 whitelist restriction per address, and drop the cached restrictions.

 Authorization, the HTTP plumbing and the job model's own validations are
 outside this model; the latter is the `jobValid` parameter, standing for
 whatever makes `job.save` return false.
 */
module Jobs {
  import opened Wrappers
  import opened Store
  import opened Params
  import opened Restrictions
  import Cache

  datatype Error =
    | InvalidParams(errors: seq<FieldError>)  // rejected by the parameter declarations
    | JobInvalid                              // `job.save` returned false (HTTP 422)
    | UndefinedName(name: string)             // a `NameError` raised by the handler

  datatype Status = Created(jobId: nat) | Rejected(error: Error)

  /** The store after the request (a rejected request may still have written) and its outcome. */
  datatype Response = Response(store: Store, status: Status)

  /** The links the whitelist loop creates, one per address, each to its own fresh restriction. */
  function WhitelistLinks(firstId: nat, jobId: nat, firstRestrictionId: nat, n: nat): seq<Jobbing> {
    seq(n, i requires 0 <= i < n => Jobbing(firstId + i, jobId, firstRestrictionId + i))
  }

  /**
   The whitelist loop: for each address in order, `Restriction.create!` a
   `whitelist`/`ip` row (no lookup, so duplicates are created again) and link
   it to the job. `state` is the column default of restrictions, which the
   call does not set.
   */
  function FanOut(s: Store, jobId: nat, ips: seq<string>, state: RestrictionState): (r: Store)
    ensures r.restrictions == s.restrictions + WhitelistRows(s.nextRestrictionId, ips, state)
    ensures r.jobbings == s.jobbings + WhitelistLinks(s.nextJobbingId, jobId, s.nextRestrictionId, |ips|)
    ensures r.nextRestrictionId == s.nextRestrictionId + |ips|
    ensures r.nextJobbingId == s.nextJobbingId + |ips|
    ensures r.jobs == s.jobs && r.nextJobId == s.nextJobId && r.cache == s.cache
    decreases |ips|
  {
    if |ips| == 0 then s
    else
      var (s1, rid) := InsertRestriction(s, "whitelist", "ip", ips[0], state);
      var s2 := InsertJobbing(s1, jobId, rid);
      var r := FanOut(s2, jobId, ips[1..], state);
      assert WhitelistRows(s.nextRestrictionId, ips, state)
          == [s1.restrictions[|s.restrictions|]] + WhitelistRows(s1.nextRestrictionId, ips[1..], state);
      assert WhitelistLinks(s.nextJobbingId, jobId, s.nextRestrictionId, |ips|)
          == [s2.jobbings[|s.jobbings|]] + WhitelistLinks(s2.nextJobbingId, jobId, s1.nextRestrictionId, |ips| - 1);
      r
  }

  /** Where the handler stands after linking the job to its marker, if it got that far. */
  datatype Progress = Halted(response: Response) | Linked(store: Store, jobId: nat)

  /**
   Everything up to and including the marker link: the parameter checks that
   run before the handler, find-or-create of the marker, `job.save` and the
   first `Jobbing.create!`.
   */
  function SaveAndLink(s: Store, req: Request, jobValid: JobFields -> bool): Progress {
    if !Valid(req) then Halted(Response(s, Rejected(InvalidParams(Errors(req)))))
    else
      var f := Fields(req);
      var MarkerLookup(s1, markerId) := FindOrCreateMarker(s, f.jobType);
      if !jobValid(f) then Halted(Response(s1, Rejected(JobInvalid)))
      else
        var (s2, jobId) := InsertJob(s1, f.description, f.jobType, f.startAt, f.finishAt);
        Linked(InsertJobbing(s2, jobId, markerId), jobId)
  }

  /**
   The handler as intended: the whitelist loop reads the `whitelist_ip`
   parameter. (The source indexes `params[whitelist_ip]` with a bare name
   rather than the symbol `:whitelist_ip`; `ScheduleAsWritten` models that.)
   */
  function Schedule(s: Store, req: Request, jobValid: JobFields -> bool, whitelistState: RestrictionState): (r: Response)
    // Rejected parameters change nothing at all, cache included.
    ensures !Valid(req) ==> r == Response(s, Rejected(InvalidParams(Errors(req))))
    ensures r.status.Created? <==> Valid(req) && jobValid(Fields(req))
    ensures Extends(s, r.store)
    ensures r.status.Rejected? ==> r.store.cache == s.cache
    // A job that does not save leaves nothing behind but a marker that was missing.
    ensures Valid(req) && !jobValid(Fields(req)) ==>
      && r.status == Rejected(JobInvalid)
      && r.store == s.(restrictions := s.restrictions + MissingMarker(s, req.jobType.value),
                       nextRestrictionId := s.nextRestrictionId + |MissingMarker(s, req.jobType.value)|)
    ensures r.status.Created? ==>
      var f := Fields(req);
      var ips := Whitelist(req);
      var marker := MissingMarker(s, f.jobType);
      var n := |s.jobbings|;
      var k := |s.restrictions| + |marker|;
      // exactly one new job, built from the declared fields
      && r.status.jobId == s.nextJobId
      && r.store.jobs == s.jobs + [Job(s.nextJobId, f.description, f.jobType, f.startAt, f.finishAt)]
      // the marker if it was missing, then one fresh whitelist row per address
      && r.store.restrictions == s.restrictions + marker + WhitelistRows(s.nextRestrictionId + |marker|, ips, whitelistState)
      // 1 + |ips| new links, all from the new job
      && |r.store.jobbings| == n + 1 + |ips|
      && (forall i :: n <= i < |r.store.jobbings| ==> r.store.jobbings[i].jobId == s.nextJobId)
      // the first to a marker row of the job's type
      && (exists j :: 0 <= j < |r.store.restrictions|
            && r.store.restrictions[j].id == r.store.jobbings[n].referenceId
            && IsMarker(r.store.restrictions[j], f.jobType))
      // the rest to the whitelist rows, in input order
      && (forall i :: 0 <= i < |ips| ==>
            && r.store.jobbings[n + 1 + i].referenceId == r.store.restrictions[k + i].id
            && r.store.restrictions[k + i].value == ips[i])
      // and the cached restrictions are gone, every other cache entry kept
      && Cache.RestrictionsKey !in r.store.cache
      && r.store.cache.Keys == s.cache.Keys - {Cache.RestrictionsKey}
      && (forall key :: key in r.store.cache ==> r.store.cache[key] == s.cache[key])
  {
    match SaveAndLink(s, req, jobValid)
    case Halted(response) => response
    case Linked(s3, jobId) =>
      var s4 := FanOut(s3, jobId, Whitelist(req), whitelistState);
      assert forall j :: 0 <= j < |s3.restrictions| ==> s4.restrictions[j] == s3.restrictions[j];
      Response(s4.(cache := Cache.Delete(s4.cache, Cache.RestrictionsKey)), Created(jobId))
  }

  /**
   The handler as written: `whitelist_ip` is an undefined name, so once the
   job and its marker link are saved the handler raises before any whitelist
   row is created and before the cache is cleared.
   */
  function ScheduleAsWritten(s: Store, req: Request, jobValid: JobFields -> bool): (r: Response)
    ensures r.status.Rejected?
    ensures Extends(s, r.store) && r.store.cache == s.cache
  {
    match SaveAndLink(s, req, jobValid)
    case Halted(response) => response
    case Linked(s3, _) => Response(s3, Rejected(UndefinedName("whitelist_ip")))
  }
}
