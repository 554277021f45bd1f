/**
 * The assembly of the `/v1/route` response in `api/main.py`: mask the task,
 * evaluate the policy, and, when the request metadata carries a schema,
 * validate a stub extraction against it.
 *
 * The JSON-Schema library is a parameter: `validator(payload, schema)` gives
 * its verdict. The fixed metrics and trace id of the response are left out.
 */
module Router {
  import opened Wrappers
  import opened Policy
  import opened PiiMask
  import PiiMaskProofs

  /** A JSON value as the request body delivers it. */
  datatype Json =
    | Null
    | Bool(b: bool)
    | Num(n: real)
    | Str(s: string)
    | Arr(items: seq<Json>)
    | Obj(fields: map<string, Json>)

  /** Python truthiness of the decoded value. */
  predicate Truthy(j: Json) {
    match j
    case Null => false
    case Bool(b) => b
    case Num(n) => n != 0.0
    case Str(s) => |s| > 0
    case Arr(items) => |items| > 0
    case Obj(fields) => |fields| > 0
  }

  /** `RouteRequest`; the unused `inputs` field is left out. */
  datatype Request = Request(
    task: string,
    constraints: Option<Constraints>,
    profile: Option<string>,
    metadata: Option<map<string, Json>>)

  /** What `jsonschema.validate` does: accept, raise `ValidationError` (with its
      message), or raise `SchemaError` for a schema it cannot use. */
  datatype Verdict = Valid | Invalid(message: string) | BadSchema(message: string)

  datatype Validation = Validation(ok: bool, errors: seq<string>, checkedKeys: seq<string>)

  datatype Response = Response(
    provider: string,
    model: string,
    policyPath: seq<string>,
    output: string,
    debugSanitized: string,
    validation: Option<Validation>)

  /** The exceptions that escape `route`. */
  datatype RouteError = PolicyError(fault: Fault) | SchemaError(message: string)

  const DefaultProfile := "fast-cheap-safe"

  /** The keys of the stub extraction, in insertion order. */
  const ExtractionKeys: seq<string> := ["name", "email"]

  const StubExtraction := Obj(map["name" := Str("John Q Doe"), "email" := Str("***@***")])

  const OutputHead := "(stub) Routed '"

  /** `validate_json_schema` in `safety/post.py`: a validation error becomes
      `(False, [message])`; a schema error is not caught. */
  function ValidateJsonSchema(v: Verdict): (r: Result<(bool, seq<string>), string>)
    ensures r.Success? <==> !v.BadSchema?
    ensures r.Success? ==> (r.value.0 <==> v.Valid?) && (r.value.0 <==> r.value.1 == [])
    ensures r.Success? && v.Invalid? ==> r.value.1 == [v.message]
    ensures r.Failure? ==> r.error == v.message
  {
    match v
    case Valid => Success((true, []))
    case Invalid(m) => Success((false, [m]))
    case BadSchema(m) => Failure(m)
  }

  /** `route` selects the default profile for a missing or empty profile name. */
  function ProfileName(profile: Option<string>): (name: string)
    ensures name != ""
    ensures name == DefaultProfile || profile == Some(name)
    ensures profile.Some? && profile.value != "" ==> name == profile.value
  {
    if profile.None? || profile.value == "" then DefaultProfile else profile.value
  }

  /** The schema `route` reads: `metadata.get("schema")` for non-empty metadata, otherwise `None`. */
  function SchemaOf(metadata: Option<map<string, Json>>): (schema: Json)
    ensures schema != Null ==> metadata.Some? && "schema" in metadata.value && schema == metadata.value["schema"]
    ensures metadata.Some? && "schema" in metadata.value ==> schema == metadata.value["schema"]
  {
    if metadata.Some? && |metadata.value| > 0 && "schema" in metadata.value then metadata.value["schema"] else Null
  }

  /** `s[:20]`. */
  function Take20(s: string): (r: string)
    ensures r <= s && |r| == if |s| < 20 then |s| else 20
  {
    if |s| <= 20 then s else s[..20]
  }

  /** The echo line: the first twenty characters of the masked task and the decision. */
  function Output(sanitized: string, provider: string, model: string): string {
    OutputHead + Take20(sanitized) + "...' to " + provider + ":" + model
  }

  /** The echo line for the one decision the policy makes. */
  lemma OutputShape(s: string)
    ensures var o := Output(s, "openai", "gpt-4o-mini");
      |o| >= |OutputHead| && o[..|OutputHead|] == OutputHead && o[|OutputHead|..] == Take20(s) + "...' to openai:gpt-4o-mini"
  {
    var o := Output(s, "openai", "gpt-4o-mini");
    assert o == OutputHead + (Take20(s) + "...' to openai:gpt-4o-mini");
  }

  /** The masked task holds no e-mail address or phone number and masks to itself. */
  lemma SanitizedIsClean(task: string)
    ensures var s := MaskPii(task);
      !PiiMaskProofs.HasEmail(s) && !PiiMaskProofs.HasPhone(s, false) && MaskPii(s) == s
  {
    PiiMaskProofs.MaskPiiLeavesNoPii(task);
    PiiMaskProofs.MaskPiiIdempotent(task);
  }

  /** `route(req)`, with `doc` the policy document and `validator` the verdict of
      the JSON-Schema library. */
  function Route(doc: map<string, seq<Rule>>, req: Request, validator: (Json, Json) -> Verdict): (r: Result<Response, RouteError>)
    ensures r.Success? ==> r.value.provider == "openai" && r.value.model == "gpt-4o-mini" && |r.value.policyPath| >= 1
    ensures r.Success? ==> r.value.debugSanitized == MaskPii(req.task)
    ensures r.Success? ==>
      var d := EvaluatePolicy(doc, ProfileName(req.profile), Some(req.constraints.GetOr(DefaultConstraints)));
      d.Success? && r.value.policyPath == d.value.path
    ensures r.Success? ==>
      var s := r.value.debugSanitized;
      !PiiMaskProofs.HasEmail(s) && !PiiMaskProofs.HasPhone(s, false) && MaskPii(s) == s
    ensures r.Success? ==>
      var o := r.value.output;
      var s := r.value.debugSanitized;
      |o| >= |OutputHead| && o[..|OutputHead|] == OutputHead && o[|OutputHead|..] == Take20(s) + "...' to openai:gpt-4o-mini"
    ensures r.Success? ==> (r.value.validation.None? <==> !Truthy(SchemaOf(req.metadata)))
    ensures r.Success? && r.value.validation.Some? ==>
      var v := r.value.validation.value;
      v.checkedKeys == ["name", "email"] && (v.ok <==> v.errors == []) &&
      (v.ok <==> validator(StubExtraction, SchemaOf(req.metadata)).Valid?) &&
      (validator(StubExtraction, SchemaOf(req.metadata)).Invalid? ==>
         v.errors == [validator(StubExtraction, SchemaOf(req.metadata)).message])
  {
    var constraints := req.constraints.GetOr(DefaultConstraints);
    var sanitized := MaskPii(req.task);
    SanitizedIsClean(req.task);
    OutputShape(sanitized);
    match EvaluatePolicy(doc, ProfileName(req.profile), Some(constraints))
    case Failure(f) => Failure(PolicyError(f))
    case Success(d) =>
      var schema := SchemaOf(req.metadata);
      var out := Output(sanitized, d.provider, d.model);
      if !Truthy(schema) then
        Success(Response(d.provider, d.model, d.path, out, sanitized, None))
      else
        match ValidateJsonSchema(validator(StubExtraction, schema))
        case Failure(m) => Failure(SchemaError(m))
        case Success(verdict) =>
          Success(Response(d.provider, d.model, d.path, out, sanitized, Some(Validation(verdict.0, verdict.1, ExtractionKeys))))
  }

  // ---------------------------------------------------------------------------
  // Properties
  // ---------------------------------------------------------------------------

  /** `route` raises exactly when some rule of the selected profile compares a
      null constraint, or when a schema is given that the library rejects. */
  lemma RouteFailsIff(doc: map<string, seq<Rule>>, req: Request, validator: (Json, Json) -> Verdict)
    ensures var name := ProfileName(req.profile);
      var rules := if name in doc then doc[name] else [];
      Route(doc, req, validator).Failure? <==>
        FirstFault(rules, req.constraints.GetOr(DefaultConstraints)).Some? ||
        (Truthy(SchemaOf(req.metadata)) && validator(StubExtraction, SchemaOf(req.metadata)).BadSchema?)
  {
    var name := ProfileName(req.profile);
    var rules := if name in doc then doc[name] else [];
    FoldFailsAtFirstFault(rules, req.constraints.GetOr(DefaultConstraints), State(BaselineModel, []));
  }

  /** Leaving out the constraints is the same as sending the defaults. */
  lemma MissingConstraintsRouteAsDefaults(doc: map<string, seq<Rule>>, req: Request, validator: (Json, Json) -> Verdict)
    ensures Route(doc, req.(constraints := None), validator) ==
            Route(doc, req.(constraints := Some(Constraints(Some(1200), Some(5.0), Some("standard")))), validator)
  {
  }

  /** Leaving out the profile or sending an empty name selects "fast-cheap-safe". */
  lemma MissingProfileIsDefault(doc: map<string, seq<Rule>>, req: Request, validator: (Json, Json) -> Verdict)
    requires req.profile.None? || req.profile == Some("")
    ensures Route(doc, req, validator) == Route(doc, req.(profile := Some("fast-cheap-safe")), validator)
  {
  }

  /** The raw task reaches the response only through its masked form: two
      requests whose tasks mask alike get the same response. */
  lemma OnlyMaskedTaskMatters(doc: map<string, seq<Rule>>, req: Request, task: string, validator: (Json, Json) -> Verdict)
    requires MaskPii(task) == MaskPii(req.task)
    ensures Route(doc, req.(task := task), validator) == Route(doc, req, validator)
  {
  }

  /** Without a truthy schema the validator is never consulted. */
  lemma NoSchemaNoValidation(doc: map<string, seq<Rule>>, req: Request, v1: (Json, Json) -> Verdict, v2: (Json, Json) -> Verdict)
    requires !Truthy(SchemaOf(req.metadata))
    ensures Route(doc, req, v1) == Route(doc, req, v2)
  {
  }

  /** The masked task echoed by the response never contains an e-mail address. */
  lemma EchoHoldsNoAddress(doc: map<string, seq<Rule>>, req: Request, validator: (Json, Json) -> Verdict, w: string)
    requires PiiMask.IsEmail(w)
    requires Route(doc, req, validator).Success?
    ensures forall k :: !PiiMaskProofs.OccursAt(w, Route(doc, req, validator).value.debugSanitized, k)
  {
    PiiMaskProofs.NoAddressSurvives(req.task, w);
  }
}
