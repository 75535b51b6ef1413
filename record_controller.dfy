/**
 * `RecordController`: the five actions of the `/records` resource, reduced to
 * the status code and the body they answer with. A request is the map of
 * its parameters (query string, form fields and the `{id}` path segment,
 * all strings); a body is the value the serializer would turn into JSON.
 * The validator's clock, `date('Y')`, is a parameter of the actions that
 * validate a record payload.
 */
module RecordController {
  import opened Wrappers
  import opened PhpRuntime
  import opened SymfonyValidator
  import opened RecordEntity
  import Pagination
  import RecordFilters
  import RecordParameters
  import RecordRepository
  import RecordService

  const HTTP_OK: int := 200
  const HTTP_CREATED: int := 201
  const HTTP_NO_CONTENT: int := 204
  const HTTP_BAD_REQUEST: int := 400
  const HTTP_NOT_FOUND: int := 404

  const NOT_FOUND_MESSAGE: string := "Record not found"

  /** One entry of `validationErrors`: the violation's property path and message. */
  datatype FieldError = FieldError(field: string, message: string)

  /** What a response carries, before serialisation. */
  datatype Body =
    | Records(records: seq<RecordData>)      // {"records": [...]}
    | RecordBody(record: RecordData)         // a single record
    | ValidationErrors(errors: seq<FieldError>)  // {"validationErrors": [...]}
    | Message(message: string)               // {"message": ...}
    | NoBody                                 // null

  datatype Response = Response(status: int, body: Body)

  /** The request's parameters by name. */
  type Request = map<string, string>

  /** `$request->get($key)`: the parameter, or `null` when the request has none. */
  function Get(req: Request, key: string): (r: Option<string>)
  {
    if key in req then Some(req[key]) else None
  }

  function PaginationOf(req: Request): (r: Pagination.Params)
  {
    Pagination.Params(Get(req, "offset"), Get(req, "limit"))
  }

  function FiltersOf(req: Request): (r: RecordFilters.Params)
  {
    RecordFilters.Params(Get(req, "title"), Get(req, "artist"))
  }

  function RecordParamsOf(req: Request): (r: RecordParameters.Params)
  {
    RecordParameters.Params(Get(req, "title"), Get(req, "artist"), Get(req, "price"), Get(req, "releasedYear"))
  }

  /** `(int) $request->get('id')`. */
  function IdOf(req: Request): (r: int)
  {
    IntCast(Get(req, "id"))
  }

  /**
   * The objects `validateParameters` accepts. A record payload is validated
   * against the year the validator's clock reads.
   */
  datatype Validatable =
    | PaginationParams(pagination: Pagination.Params)
    | FilterParams(filters: RecordFilters.Params)
    | RecordParams(params: RecordParameters.Params, currentYear: int)

  /** `$this->validator->validate($validatable)`: the violation list, in order. */
  function Violations(v: Validatable): (vs: seq<Violation>)
  {
    match v
    case PaginationParams(p) => Pagination.Violations(p)
    case FilterParams(f) => RecordFilters.Violations(f)
    case RecordParams(p, y) => RecordParameters.Violations(p, y)
  }

  /** One `{field, message}` pair per violation, in the violations' order. */
  function FieldErrors(vs: seq<Violation>): (es: seq<FieldError>)
    ensures |es| == |vs|
    ensures forall i :: 0 <= i < |vs| ==> es[i].field == vs[i].path && es[i].message == vs[i].message
  {
    if vs == [] then [] else [FieldError(vs[0].path, vs[0].message)] + FieldErrors(vs[1..])
  }

  /** The pairs of two lists of violations are the pairs of the first, then those of the second. */
  lemma {:induction false} FieldErrorsAppend(a: seq<Violation>, b: seq<Violation>)
    ensures FieldErrors(a + b) == FieldErrors(a) + FieldErrors(b)
  {
    if a == [] {
      assert a + b == b;
    } else {
      var first := FieldError(a[0].path, a[0].message);
      assert (a + b)[0] == a[0] && (a + b)[1..] == a[1..] + b;
      calc {
        FieldErrors(a + b);
        [first] + FieldErrors(a[1..] + b);
        { FieldErrorsAppend(a[1..], b); }
        [first] + (FieldErrors(a[1..]) + FieldErrors(b));
        ([first] + FieldErrors(a[1..])) + FieldErrors(b);
      }
    }
  }

  class RecordController {
    const service: RecordService.RecordService

    constructor (service: RecordService.RecordService)
      ensures this.service == service
    {
      this.service := service;
    }

    /** `validateParameters`: every violation of `v` turned into its `{field, message}` pair. */
    method ValidateParameters(v: Validatable) returns (errors: seq<FieldError>)
      ensures errors == FieldErrors(Violations(v))
      ensures errors == [] <==> Violations(v) == []
      ensures v.RecordParams? && errors == [] ==> RecordParameters.WellFormed(v.params)
    {
      var violationList := Violations(v);
      errors := ErrorPairs(violationList);
      if v.RecordParams? {
        RecordParameters.ValidIff(v.params, v.currentYear);
      }
    }

    /** The `foreach` of `validateParameters`: one pair per violation, appended in order. */
    method ErrorPairs(violations: seq<Violation>) returns (errors: seq<FieldError>)
      ensures errors == FieldErrors(violations)
    {
      errors := [];
      for i := 0 to |violations|
        invariant |errors| == i
        invariant forall j :: 0 <= j < i ==> errors[j] == FieldError(violations[j].path, violations[j].message)
      {
        errors := errors + [FieldError(violations[i].path, violations[i].message)];
      }
    }

    /**
     * `list`: the pagination's violations, then the filters', answered with
     * 400; with none, 200 and the repository's query over the table.
     */
    method List(req: Request) returns (resp: Response)
      requires service.Valid()
      ensures var p := PaginationOf(req);
              var f := FiltersOf(req);
              var vs := Pagination.Violations(p) + RecordFilters.Violations(f);
              && (vs != [] ==> resp == Response(HTTP_BAD_REQUEST, ValidationErrors(FieldErrors(vs))))
              && (vs == [] ==> Pagination.GetOffset(p) >= 0 && Pagination.GetLimit(p) >= 0
                               && resp == Response(HTTP_OK, Records(RecordRepository.FindByCriterion(service.Contents(), p, f))))
    {
      var pagination := PaginationOf(req);
      var violations := ValidateParameters(PaginationParams(pagination));
      var filter := FiltersOf(req);
      var filterViolations := ValidateParameters(FilterParams(filter));
      ghost var paginationErrors := Pagination.Violations(pagination);
      ghost var filterErrors := RecordFilters.Violations(filter);
      assert violations == FieldErrors(paginationErrors) && filterViolations == FieldErrors(filterErrors);
      FieldErrorsAppend(paginationErrors, filterErrors);
      violations := violations + filterViolations;
      if violations != [] {
        return Response(HTTP_BAD_REQUEST, ValidationErrors(violations));
      }
      assert |paginationErrors| == 0;
      Pagination.ValidGetters(pagination);
      var records := service.GetRecords(pagination, filter);
      resp := Response(HTTP_OK, Records(records));
    }

    /** `show`: the record with the id cast from the request, or 404. */
    method Show(req: Request) returns (resp: Response)
      requires service.Valid()
      ensures match RecordService.Find(service.Contents(), IdOf(req))
              case None => resp == Response(HTTP_NOT_FOUND, Message(NOT_FOUND_MESSAGE))
              case Some(d) => resp == Response(HTTP_OK, RecordBody(d))
    {
      var record := service.GetRecord(IdOf(req));
      if record == null {
        return Response(HTTP_NOT_FOUND, Message(NOT_FOUND_MESSAGE));
      }
      resp := Response(HTTP_OK, RecordBody(record.Data()));
    }

    /**
     * `create`: 400 with the payload's violations and the table untouched;
     * with none, the record is created and answered with 201.
     */
    method Create(req: Request, currentYear: int) returns (resp: Response)
      requires service.Valid()
      modifies service
      ensures service.Valid()
      ensures var params := RecordParamsOf(req);
              var vs := RecordParameters.Violations(params, currentYear);
              && (vs != [] ==> resp == Response(HTTP_BAD_REQUEST, ValidationErrors(FieldErrors(vs)))
                               && service.Contents() == old(service.Contents()) && service.nextId == old(service.nextId))
              && (vs == [] ==> RecordParameters.WellFormed(params)
                               && var d := RecordService.Row(old(service.nextId), RecordService.FieldsOf(params));
                               && service.Contents() == old(service.Contents()) + [d]
                               && service.nextId == old(service.nextId) + 1
                               && resp == Response(HTTP_CREATED, RecordBody(d)))
    {
      var recordParameters := RecordParamsOf(req);
      var validationErrors := ValidateParameters(RecordParams(recordParameters, currentYear));
      ghost var violations := RecordParameters.Violations(recordParameters, currentYear);
      assert validationErrors == FieldErrors(violations);
      if validationErrors != [] {
        return Response(HTTP_BAD_REQUEST, ValidationErrors(validationErrors));
      }
      var newRecord := service.CreateRecord(recordParameters);
      resp := Response(HTTP_CREATED, RecordBody(newRecord.Data()));
    }

    /**
     * `update`: the payload is validated before the id is looked up, so an
     * invalid payload is answered with 400 whether or not the id exists; a
     * valid one on an absent id gives 404, on a present id the updated
     * record with 200.
     */
    method Update(req: Request, currentYear: int) returns (resp: Response)
      requires service.Valid()
      modifies service.rows
      ensures service.Valid()
      ensures var params := RecordParamsOf(req);
              var vs := RecordParameters.Violations(params, currentYear);
              var id := IdOf(req);
              && (vs != [] ==> resp == Response(HTTP_BAD_REQUEST, ValidationErrors(FieldErrors(vs)))
                               && service.Contents() == old(service.Contents()))
              && (vs == [] ==> RecordParameters.WellFormed(params)
                               && service.Contents() == RecordService.Replace(old(service.Contents()), id, RecordService.FieldsOf(params))
                               && (RecordService.Find(old(service.Contents()), id) == None ==>
                                     resp == Response(HTTP_NOT_FOUND, Message(NOT_FOUND_MESSAGE)))
                               && (RecordService.Find(old(service.Contents()), id) != None ==>
                                     resp == Response(HTTP_OK, RecordBody(RecordService.Row(id, RecordService.FieldsOf(params))))))
    {
      var recordParameters := RecordParamsOf(req);
      var validationErrors := ValidateParameters(RecordParams(recordParameters, currentYear));
      ghost var violations := RecordParameters.Violations(recordParameters, currentYear);
      assert validationErrors == FieldErrors(violations);
      if validationErrors != [] {
        return Response(HTTP_BAD_REQUEST, ValidationErrors(validationErrors));
      }
      ghost var found := RecordService.Find(service.Contents(), IdOf(req));
      var updatedRecord := service.UpdateRecord(IdOf(req), recordParameters);
      if updatedRecord == null {
        assert found == None;
        return Response(HTTP_NOT_FOUND, Message(NOT_FOUND_MESSAGE));
      }
      assert found != None;
      resp := Response(HTTP_OK, RecordBody(updatedRecord.Data()));
    }

    /** `delete`: 204 with no body when a record was removed, 404 otherwise. */
    method Delete(req: Request) returns (resp: Response)
      requires service.Valid()
      modifies service
      ensures service.Valid()
      ensures service.Contents() == RecordService.Remove(old(service.Contents()), IdOf(req))
      ensures service.nextId == old(service.nextId)
      ensures RecordService.Find(old(service.Contents()), IdOf(req)) == None ==>
                resp == Response(HTTP_NOT_FOUND, Message(NOT_FOUND_MESSAGE))
      ensures RecordService.Find(old(service.Contents()), IdOf(req)) != None ==>
                resp == Response(HTTP_NO_CONTENT, NoBody)
    {
      var deleted := service.DeleteRecord(IdOf(req));
      if !deleted {
        return Response(HTTP_NOT_FOUND, Message(NOT_FOUND_MESSAGE));
      }
      resp := Response(HTTP_NO_CONTENT, NoBody);
    }
  }
}
