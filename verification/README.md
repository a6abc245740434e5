# Scheduling a maintenance window (barong admin `POST /jobs`)

This project models the admin endpoint that creates a maintenance job in
barong, `app/api/v2/admin/jobs.rb`. The handler works on three tables and one
cache entry:

- restrictions (`category`, `scope`, `value`, `state`),
- jobs (`description`, `type`, `start_at`, `finish_at`),
- jobbings, the links from a job to the restrictions it governs,
- the `'restrictions'` entry of the Rails cache.

A request is handled in this order:

1. The parameter declarations check the request.
2. The `maintenance` marker restriction is found or created. The match is on
   `(type, 'all', 'all', 'disabled')`.
3. The job is saved.
4. The job is linked to the marker.
5. For each whitelisted address, a `whitelist`/`ip` restriction is created and
   linked to the job.
6. The cached restrictions are deleted.

The model is pure. `Store.Store` is an immutable record with one sequence per
table, an auto-increment counter per table, and the cache as a map.
`Jobs.Schedule(store, request, jobValid, whitelistState)` returns the new store
together with the outcome. It returns a store even on failure, because a job
that fails to save still leaves the marker row behind.

Modules:

- `Wrappers`: `Option`, standing in for `nil`.
- `Store`: entities, the store record, well-formedness, and row insertion.
- `Cache`: deleting a cache key.
- `Params`: the request and the checks of the `params do … end` block.
- `Restrictions`: marker find-or-create, counting markers, and whitelist rows.
- `Jobs`: the handler, both as intended and as written.
- `JobsProperties`: facts about the store before and after one or two calls.

Three things are parameters rather than code:

- `jobValid`: the `Job` model's validations. They decide whether `job.save`
  succeeds and are not part of this model.
- `whitelistState`: the `state` column default that whitelist restrictions
  get. `Restriction.create!` does not set it.
- Timestamps: plain integers. Nothing orders `start_at` before `finish_at`,
  because the handler does not check it.

Two facts about the handler shape the model:

- The marker lookup also matches `state: 'disabled'` (jobs.rb:41). It does not
  match on `(category, scope, value)` alone, so an *enabled* marker of the same
  type is not reused, and a new disabled one is created beside it.
- `start_at < finish_at` is not checked, and misordered timestamps are not a
  validation error.

## Model

| member | source | states |
|---|---|---|
| Params.Errors | app/api/v2/admin/jobs.rb:16-34 | The request is accepted exactly when the error list is empty. A missing required parameter is reported as missing. A description that is empty or all white space is reported as blank. A `type` outside `{"maintenance"}` is reported as unsupported. No other error is reported, each field appears at most once, and fields appear in declaration order. |
| Restrictions.FindMarker | app/api/v2/admin/jobs.rb:41 | Finds the first row matching all four marker columns, `state: 'disabled'` included. It returns none exactly when no row matches. |
| Restrictions.FindOrCreateMarker | app/api/v2/admin/jobs.rb:41 | An existing disabled marker is reused and the store is unchanged. Otherwise exactly one new `(type, all, all, disabled)` row is appended. Either way, the returned id names a marker row, and nothing outside the restrictions table changes. |
| Restrictions.FindOrCreateMarkerIdempotent | app/api/v2/admin/jobs.rb:41 | A second find-or-create finds the same row and changes nothing. |
| Restrictions.FindOrCreateMarkerCount | app/api/v2/admin/jobs.rb:41 | After find-or-create, the marker count is 1 if it was 0, and unchanged otherwise. |
| Restrictions.MarkerThenWhitelistCount | app/api/v2/admin/jobs.rb:41-59 | Whitelist rows are never markers. So the marker count after the handler's appends is 1 when it was 0, and unchanged otherwise. |
| Cache.Delete | app/api/v2/admin/jobs.rb:62-63 | The key is absent afterwards and every other entry is kept. Deleting an absent key changes nothing. |
| Cache.DeleteIdempotent | app/api/v2/admin/jobs.rb:62-63 | Invalidating twice is the same as invalidating once. |
| Jobs.FanOut | app/api/v2/admin/jobs.rb:55-59 | For every address, in input order and without deduplication, a fresh `whitelist`/`ip` row and a link from the job to that row are appended. Restrictions and links each grow by exactly the list length. Jobs and the cache are unchanged. |
| Jobs.Schedule | app/api/v2/admin/jobs.rb:16-63 | Rejected parameters leave the store and the cache unchanged. If the job does not save, the only possible change is the missing marker. On success: exactly one job with the declared fields is appended; the only restrictions added are the missing marker and then one row per address; the new job gets one link more than there are whitelisted addresses, the first to a marker and the rest to the whitelist rows in order; and the `'restrictions'` entry is gone. Existing rows are never changed. |
| Jobs.ScheduleAsWritten | app/api/v2/admin/jobs.rb:52-56 | The handler as written never succeeds. It keeps the tables append-only and never touches the cache. |
| JobsProperties.ScheduleMarkerCount | app/api/v2/admin/jobs.rb:41-59 | After any call that passes the parameter checks, at most one marker before means exactly one marker after. |
| JobsProperties.SameTypeReusesMarker | app/api/v2/admin/jobs.rb:41-52 | Two windows of the same type: the second call creates no marker and exactly one marker remains. When both calls succeed, the two jobs are distinct and both marker links reference the same row. |
| JobsProperties.FanOutKeepsWf | app/api/v2/admin/jobs.rb:55-59 | The whitelist loop keeps ids fresh and unique, and keeps every link pointing at an existing job and restriction. |
| JobsProperties.ScheduleKeepsWf | app/api/v2/admin/jobs.rb:41-59 | Every call keeps the store well formed. The new job's id belongs to no earlier job. |
| Store.InsertJobbingKeepsWf | app/api/v2/admin/jobs.rb:52 | Adding a link keeps the store well formed exactly when the linked job and restriction exist. |
| JobsProperties.AsWrittenSkipsWhitelist | app/api/v2/admin/jobs.rb:55-63 | On every valid request whose job saves, the handler as written persists the job and the marker link only and then fails. It creates no whitelist row and leaves the cache as it was. The intended handler succeeds, creates one link more than there are whitelisted addresses, and drops the cache entry. |
| JobsProperties.AsWrittenCounterexample | app/api/v2/admin/jobs.rb:55-56 | A concrete request with whitelist `["10.0.0.5"]` and a cached restrictions entry. As written, the stale entry survives. As intended, it is dropped and two links are created. |

## Findings

| source | as written | input that shows it | evidently intended | confidence | as-written member | corrected member |
|---|---|---|---|---|---|---|
| app/api/v2/admin/jobs.rb:55-56 | `params[whitelist_ip]` indexes with a bare name. The name is not defined in this file, so it raises `NameError` after the job and its marker link are saved. | Any valid request whose job saves, e.g. type `maintenance` with whitelist `["10.0.0.5"]` and a warm `'restrictions'` cache entry | `params[:whitelist_ip]`: fan out over the declared list, then delete the cache entry | medium, not executed (the included `NamedParams` helpers are not part of this model and could define the name) | Jobs.ScheduleAsWritten, JobsProperties.AsWrittenCounterexample | Jobs.Schedule |

## Left out

- Authorization: the `admin_authorize!` checks (jobs.rb:36-38) belong to an external collaborator.
- Grape routing, `desc`, HTTP status codes and `declared(...)`. Only their effect is modelled: a checked request and the job fields without `whitelist_ip`.
- DateTime parsing and coercion. Timestamps are integers, and an unparseable timestamp is treated like a missing one.
- Parameters sent as explicit `null` are treated like absent ones. Grape's presence check only tests that the key exists, so in the source a request with, say, `start_at: null` gets past the declarations and reaches jobs.rb:41, where it may create the marker. The model rejects such a request before any write.
- The `Job` model's validations. They are not part of this model, so `job.save` is the `jobValid` parameter and the error payload is not modelled.
- Validations of `Restriction` and `Jobbing`, and failing `create!` calls. The store never refuses a write. Because there is no transaction, a failure in the middle of the loop would leave the saved job in the store, and that case is not modelled.
- The `find_or_create_by` race between concurrent requests. Concurrency is outside a pure model.
- Which of several matching marker rows the database returns is unspecified. The model takes the earliest.
- The column default for `state` on whitelist restrictions is not part of this model. It is the `whitelistState` parameter.
- The GET and PUT endpoints exist only as comments (jobs.rb:68-73) with no code.
- Params.Errors: lists at most one problem per field. Grape may add more messages for the same field depending on its version (for example, a missing description also reported as empty), and those are not modelled. Grape's removal of NUL characters when stripping is not modelled either.
