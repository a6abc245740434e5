/**
 The request parameters of the create-job endpoint and the checks the
 parameter declarations impose before the handler body runs. A parameter that
 was not sent is `None`; timestamps arrive already coerced to integers.
 */
module Params {
  import opened Wrappers

  datatype Request = Request(
    description: Option<string>,
    jobType: Option<string>,
    startAt: Option<int>,
    finishAt: Option<int>,
    whitelistIp: Option<seq<string>>)

  datatype Field = Description | Type | StartAt | FinishAt

  /** Where a field is declared in the `params` block. */
  function Position(f: Field): nat {
    match f
    case Description => 0
    case Type => 1
    case StartAt => 2
    case FinishAt => 3
  }

  /** `NotSupported` is the `admin.job.invalid_type` error of the `type` parameter. */
  datatype Problem = Missing | Blank | NotSupported

  datatype FieldError = FieldError(field: Field, problem: Problem)

  /** The job types the `values` list admits. */
  const JobTypes: set<string> := {"maintenance"}

  /** Characters in the Unicode White_Space property, which is what `blank?` treats as space. */
  predicate IsSpace(c: char) {
    || ('\U{0009}' <= c <= '\U{000D}') || c == '\U{0020}' || c == '\U{0085}' || c == '\U{00A0}'
    || c == '\U{1680}' || ('\U{2000}' <= c <= '\U{200A}') || c == '\U{2028}' || c == '\U{2029}'
    || c == '\U{202F}' || c == '\U{205F}' || c == '\U{3000}'
  }

  predicate IsBlank(s: string) {
    forall i :: 0 <= i < |s| ==> IsSpace(s[i])
  }

  /** What the declarations demand: every required parameter present, a non-blank description, a supported type. */
  predicate Valid(req: Request) {
    && req.description.Some? && !IsBlank(req.description.value)
    && req.jobType.Some? && req.jobType.value in JobTypes
    && req.startAt.Some?
    && req.finishAt.Some?
  }

  function DescriptionErrors(d: Option<string>): seq<FieldError> {
    match d
    case None => [FieldError(Description, Missing)]
    case Some(v) => if IsBlank(v) then [FieldError(Description, Blank)] else []
  }

  function TypeErrors(t: Option<string>): seq<FieldError> {
    match t
    case None => [FieldError(Type, Missing)]
    case Some(v) => if v in JobTypes then [] else [FieldError(Type, NotSupported)]
  }

  function PresenceErrors<T>(f: Field, v: Option<T>): seq<FieldError> {
    if v.None? then [FieldError(f, Missing)] else []
  }

  /**
   The six errors the declarations can raise: a missing parameter, a blank
   description, an unsupported type.
   */
  predicate Reportable(e: FieldError) {
    e in {FieldError(Description, Missing), FieldError(Description, Blank),
          FieldError(Type, Missing), FieldError(Type, NotSupported),
          FieldError(StartAt, Missing), FieldError(FinishAt, Missing)}
  }

  /** The per-field checks, run in declaration order. */
  function Checks(req: Request): seq<FieldError> {
    DescriptionErrors(req.description)
      + TypeErrors(req.jobType)
      + PresenceErrors(StartAt, req.startAt)
      + PresenceErrors(FinishAt, req.finishAt)
  }

  /**
   All field errors of a request, at most one per field, in declaration order.
   A request is accepted exactly when the list is empty.
   */
  function Errors(req: Request): (errs: seq<FieldError>)
    ensures errs == [] <==> Valid(req)
    ensures |errs| <= 4
    ensures FieldError(Description, Missing) in errs <==> req.description.None?
    ensures FieldError(Description, Blank) in errs <==> req.description.Some? && IsBlank(req.description.value)
    ensures FieldError(Type, Missing) in errs <==> req.jobType.None?
    ensures FieldError(Type, NotSupported) in errs <==> req.jobType.Some? && req.jobType.value !in JobTypes
    ensures FieldError(StartAt, Missing) in errs <==> req.startAt.None?
    ensures FieldError(FinishAt, Missing) in errs <==> req.finishAt.None?
    ensures forall e :: e in errs ==> Reportable(e)
    ensures InDeclarationOrder(errs)
  {
    ChecksReportEachField(req);
    ChecksOnlyKnownErrors(req);
    ChecksInOrder(req);
    Checks(req)
  }

  lemma ChecksReportEachField(req: Request)
    ensures var errs := Checks(req);
      && (errs == [] <==> Valid(req))
      && |errs| <= 4
      && (FieldError(Description, Missing) in errs <==> req.description.None?)
      && (FieldError(Description, Blank) in errs <==> req.description.Some? && IsBlank(req.description.value))
      && (FieldError(Type, Missing) in errs <==> req.jobType.None?)
      && (FieldError(Type, NotSupported) in errs <==> req.jobType.Some? && req.jobType.value !in JobTypes)
      && (FieldError(StartAt, Missing) in errs <==> req.startAt.None?)
      && (FieldError(FinishAt, Missing) in errs <==> req.finishAt.None?)
  {
  }

  lemma ChecksOnlyKnownErrors(req: Request)
    ensures forall e :: e in Checks(req) ==> Reportable(e)
  {
  }

  lemma ChecksInOrder(req: Request)
    ensures InDeclarationOrder(Checks(req))
  {
    var d := DescriptionErrors(req.description);
    var t := TypeErrors(req.jobType);
    var a := PresenceErrors(StartAt, req.startAt);
    var f := PresenceErrors(FinishAt, req.finishAt);
    AppendInOrder(d, t);
    AppendInOrder(d + t, a);
    AppendInOrder(d + t + a, f);
  }

  /** Each field appears at most once, and fields appear in the order they are declared. */
  predicate InDeclarationOrder(errs: seq<FieldError>) {
    forall i, j :: 0 <= i < j < |errs| ==> Position(errs[i].field) < Position(errs[j].field)
  }

  lemma AppendInOrder(a: seq<FieldError>, b: seq<FieldError>)
    requires InDeclarationOrder(a) && InDeclarationOrder(b)
    requires forall x, y :: x in a && y in b ==> Position(x.field) < Position(y.field)
    ensures InDeclarationOrder(a + b)
  {
    forall i, j | 0 <= i < j < |a + b|
      ensures Position((a + b)[i].field) < Position((a + b)[j].field)
    {
      if i < |a| && j >= |a| {
        assert (a + b)[i] in a && (a + b)[j] in b;
      }
    }
  }

  /** The declared parameters except `whitelist_ip`: what the job row is built from. */
  datatype JobFields = JobFields(description: string, jobType: string, startAt: int, finishAt: int)

  function Fields(req: Request): JobFields
    requires Valid(req)
  {
    JobFields(req.description.value, req.jobType.value, req.startAt.value, req.finishAt.value)
  }

  /** `whitelist_ip` is optional; an absent list and an empty one both mean no whitelist. */
  function Whitelist(req: Request): seq<string> {
    if req.whitelistIp.Some? then req.whitelistIp.value else []
  }
}
