/**
  The status propagation of `configure_tidy` and `sanitize_content`. Each
  HTML Tidy call is represented by the status it returns; a call runs only
  while every earlier status was non-negative, and the content is replaced
  by the serialized document only when the final status is non-negative.
  No tag or attribute filtering happens: `node_walk` is a stub that is
  never called, and `sanitize_drop` has an empty body.
 */
module Sanitize {
  import opened CStrings

  /** The eight calls `configure_tidy` makes on a fresh document. */
  datatype ConfigStep =
    | XhtmlOut | BodyOnly | OmitOptionalTags | MakeClean
    | DropFontTags | DropPropAttrs | ErrorBuffer | CharEncoding

  const ConfigureOrder: seq<ConfigStep> :=
    [XhtmlOut, BodyOnly, OmitOptionalTags, MakeClean, DropFontTags, DropPropAttrs, ErrorBuffer, CharEncoding]

  /** The six calls that set a Tidy option and answer with Tidy's `Bool`. */
  predicate IsOptionSetter(step: ConfigStep) {
    step != ErrorBuffer && step != CharEncoding
  }

  /**
    HTML Tidy as `sanitize_content` sees it: the status each call returns.
    The document is built from the content string, so calls on it are
    functions of that string; `forceOutput` is the boolean answer of
    setting TidyForceOutput, and `saveBuffer` also yields the serialized
    text.
   */
  datatype TidyApi = TidyApi(
    configure: ConfigStep -> int,
    parseString: Option<CStr> -> int,
    cleanAndRepair: Option<CStr> -> int,
    runDiagnostics: Option<CStr> -> int,
    forceOutput: Option<CStr> -> bool,
    saveBuffer: Option<CStr> -> (int, Option<CStr>))

  /**
    `tidyOptSetBool` and `tidyOptSetInt` return Tidy's `Bool`: 1 (`yes`)
    when the option is accepted and 0 (`no`) when it is refused, never a
    negative value. `tidySetErrorBuffer` and `tidySetCharEncoding` return
    an `int` status that is negative on failure.
   */
  predicate SettersReturnBool(api: TidyApi) {
    forall step :: IsOptionSetter(step) ==> api.configure(step) == 0 || api.configure(step) == 1
  }

  type TidyLib = api: TidyApi | SettersReturnBool(api)
    witness TidyApi(_ => 0, _ => 0, _ => 0, _ => 0, _ => true, _ => (0, None))

  /** The status after a run of configuration calls, and the calls made. */
  datatype ConfigRun = ConfigRun(status: int, ran: seq<ConfigStep>)

  /** Makes the calls in order, stopping after the first negative status. */
  function RunConfig(lib: TidyLib, steps: seq<ConfigStep>): (r: ConfigRun)
    requires |steps| >= 1
    ensures 1 <= |r.ran| <= |steps|
    ensures r.ran == steps[..|r.ran|]
    ensures forall i :: 0 <= i < |r.ran| - 1 ==> lib.configure(r.ran[i]) >= 0
    ensures r.status == lib.configure(r.ran[|r.ran| - 1])
    ensures |r.ran| < |steps| ==> r.status < 0
    decreases |steps|
  {
    var rc := lib.configure(steps[0]);
    if rc < 0 || |steps| == 1 then ConfigRun(rc, [steps[0]])
    else
      var rest := RunConfig(lib, steps[1..]);
      ConfigRun(rest.status, [steps[0]] + rest.ran)
  }

  /**
    `configure_tidy`: the calls are made in order up to the first one that
    fails, whose status is returned; the result is non-negative exactly
    when all eight calls succeed.
   */
  function ConfigureTidy(lib: TidyLib): (r: ConfigRun)
    ensures 1 <= |r.ran| <= |ConfigureOrder|
    ensures r.ran == ConfigureOrder[..|r.ran|]
    ensures forall i :: 0 <= i < |r.ran| - 1 ==> lib.configure(r.ran[i]) >= 0
    ensures r.status == lib.configure(r.ran[|r.ran| - 1])
    ensures r.status >= 0 <==> forall i :: 0 <= i < |ConfigureOrder| ==> lib.configure(ConfigureOrder[i]) >= 0
    ensures r.status >= 0 ==> r.ran == ConfigureOrder
  {
    var r := RunConfig(lib, ConfigureOrder);
    RunConfigOutcome(lib, ConfigureOrder, r);
    r
  }

  /**
    A run that stops only at a failure and whose status is its last
    call's: it succeeds exactly when every step succeeds, and then it
    made every call.
   */
  lemma RunConfigOutcome(lib: TidyLib, steps: seq<ConfigStep>, r: ConfigRun)
    requires 1 <= |r.ran| <= |steps| && r.ran == steps[..|r.ran|]
    requires forall i :: 0 <= i < |r.ran| - 1 ==> lib.configure(r.ran[i]) >= 0
    requires r.status == lib.configure(r.ran[|r.ran| - 1])
    requires |r.ran| < |steps| ==> r.status < 0
    ensures r.status >= 0 <==> forall i :: 0 <= i < |steps| ==> lib.configure(steps[i]) >= 0
    ensures r.status >= 0 ==> r.ran == steps
  {
    var n := |r.ran|;
    assert r.ran[n - 1] == steps[n - 1];
    if r.status >= 0 {
      assert n == |steps|;
      assert r.ran == steps;
      forall i | 0 <= i < |steps|
        ensures lib.configure(steps[i]) >= 0
      {
        assert steps[i] == r.ran[i];
      }
    }
  }

  /**
    A refused option setting never stops `configure_tidy`: its `Bool`
    answer passes the `rc >= 0` test. Only the error-buffer and encoding
    calls can end configuration early, and the result is non-negative
    exactly when both of them succeed.
   */
  lemma OnlyBufferAndEncodingStop(lib: TidyLib)
    ensures |ConfigureTidy(lib).ran| >= 7
    ensures ConfigureTidy(lib).status < 0 ==>
      ConfigureTidy(lib).ran[|ConfigureTidy(lib).ran| - 1] == ErrorBuffer || ConfigureTidy(lib).ran[|ConfigureTidy(lib).ran| - 1] == CharEncoding
    ensures ConfigureTidy(lib).status >= 0 <==> lib.configure(ErrorBuffer) >= 0 && lib.configure(CharEncoding) >= 0
  {
    StopsOnlyAtBufferOrEncoding(lib, ConfigureTidy(lib));
  }

  /** The same for any run that stops only at a failure and reports its last call's status. */
  lemma StopsOnlyAtBufferOrEncoding(lib: TidyLib, r: ConfigRun)
    requires 1 <= |r.ran| <= |ConfigureOrder| && r.ran == ConfigureOrder[..|r.ran|]
    requires forall i :: 0 <= i < |r.ran| - 1 ==> lib.configure(r.ran[i]) >= 0
    requires r.status == lib.configure(r.ran[|r.ran| - 1])
    requires |r.ran| < |ConfigureOrder| ==> r.status < 0
    ensures |r.ran| >= 7
    ensures r.status < 0 ==> r.ran[|r.ran| - 1] == ErrorBuffer || r.ran[|r.ran| - 1] == CharEncoding
    ensures r.status >= 0 <==> lib.configure(ErrorBuffer) >= 0 && lib.configure(CharEncoding) >= 0
  {
    var n := |r.ran|;
    assert r.ran[n - 1] == ConfigureOrder[n - 1];
    if r.status < 0 {
      assert !IsOptionSetter(r.ran[n - 1]);
    } else {
      assert r.ran[6] == ErrorBuffer && r.ran[7] == CharEncoding;
    }
  }

  /** One call on the Tidy document, as it appears in the plan of a run. */
  datatype TidyCall =
    | Configure(step: ConfigStep)
    | ParseString
    | CleanAndRepair
    | RunDiagnostics
    | ForceOutput
    | SaveBuffer

  /** Whether diagnostics ask for forced output, which adds one call to the run. */
  function Forced(lib: TidyLib, doc: Option<CStr>): bool {
    lib.runDiagnostics(doc) > 1
  }

  /** The number of calls in a run in which nothing fails. */
  function PlanLength(forced: bool): nat {
    |ConfigureOrder| + (if forced then 5 else 4)
  }

  /**
    The `i`-th call of a run in which nothing fails: the eight settings,
    parse, clean and repair, diagnostics, ForceOutput only when `forced`,
    and finally serialization.
   */
  function PlanCall(forced: bool, i: nat): TidyCall
    requires i < PlanLength(forced)
  {
    var n := |ConfigureOrder|;
    if i < n then Configure(ConfigureOrder[i])
    else if i == n then ParseString
    else if i == n + 1 then CleanAndRepair
    else if i == n + 2 then RunDiagnostics
    else if forced && i == n + 3 then ForceOutput
    else SaveBuffer
  }

  /**
    The status `sanitize_content` holds right after `call`, made on the
    document built from `doc`. After ForceOutput the diagnostics status is
    kept when Tidy accepts, and -1 replaces it when Tidy refuses.
   */
  function CallStatus(lib: TidyLib, doc: Option<CStr>, call: TidyCall): int {
    match call
    case Configure(s) => lib.configure(s)
    case ParseString => lib.parseString(doc)
    case CleanAndRepair => lib.cleanAndRepair(doc)
    case RunDiagnostics => lib.runDiagnostics(doc)
    case ForceOutput => if lib.forceOutput(doc) then lib.runDiagnostics(doc) else -1
    case SaveBuffer => lib.saveBuffer(doc).0
  }

  /** The running status and how many calls of the plan were made so far. */
  datatype Progress = Progress(rc: int, made: nat)

  /** `if (rc >= 0) rc = call(...)`: the call runs only while the status is non-negative. */
  function Guarded(p: Progress, status: int): Progress {
    if p.rc >= 0 then Progress(status, p.made + 1) else p
  }

  /**
    A run so far: it made the first `made` calls of the plan, every one
    but the last succeeded, and the running status is the last one's.
   */
  predicate OnPlan(lib: TidyLib, doc: Option<CStr>, forced: bool, p: Progress) {
    && 1 <= p.made <= PlanLength(forced)
    && p.rc == CallStatus(lib, doc, PlanCall(forced, p.made - 1))
    && forall i :: 0 <= i < p.made - 1 ==> CallStatus(lib, doc, PlanCall(forced, i)) >= 0
  }

  /**
    Call `k` of the plan, guarded by `if (rc >= 0)`: when the run so far
    made exactly the calls before it, the run stays on its plan.
   */
  function PlannedCall(lib: TidyLib, doc: Option<CStr>, forced: bool, p: Progress, k: nat): (q: Progress)
    requires OnPlan(lib, doc, forced, p)
    requires p.rc >= 0 ==> p.made == k
    requires k < PlanLength(forced)
    ensures OnPlan(lib, doc, forced, q)
    ensures q.rc >= 0 ==> q.made == k + 1 && q.rc == CallStatus(lib, doc, PlanCall(forced, k))
  {
    Guarded(p, CallStatus(lib, doc, PlanCall(forced, k)))
  }

  /** The calls that follow configuration in the plan. */
  lemma PlanAfterConfig(forced: bool)
    ensures PlanCall(forced, |ConfigureOrder|) == ParseString
    ensures PlanCall(forced, |ConfigureOrder| + 1) == CleanAndRepair
    ensures PlanCall(forced, |ConfigureOrder| + 2) == RunDiagnostics
    ensures forced ==> PlanCall(forced, |ConfigureOrder| + 3) == ForceOutput
    ensures PlanCall(forced, PlanLength(forced) - 1) == SaveBuffer
  {
  }

  /** A run of `configure_tidy` is a run of the plan's first calls. */
  lemma ConfiguredOnPlan(lib: TidyLib, doc: Option<CStr>, forced: bool, cfg: ConfigRun)
    requires 1 <= |cfg.ran| <= |ConfigureOrder| && cfg.ran == ConfigureOrder[..|cfg.ran|]
    requires forall i :: 0 <= i < |cfg.ran| - 1 ==> lib.configure(cfg.ran[i]) >= 0
    requires cfg.status == lib.configure(cfg.ran[|cfg.ran| - 1])
    ensures OnPlan(lib, doc, forced, Progress(cfg.status, |cfg.ran|))
  {
    var n := |cfg.ran|;
    forall i | 0 <= i < n
      ensures CallStatus(lib, doc, PlanCall(forced, i)) == lib.configure(cfg.ran[i])
    {
      assert cfg.ran[i] == ConfigureOrder[i];
    }
  }

  /** `rc = configure_tidy(...)`: the status and calls with which every run starts. */
  function Configured(lib: TidyLib, doc: Option<CStr>, forced: bool): (p: Progress)
    ensures OnPlan(lib, doc, forced, p)
    ensures p.rc >= 0 ==> p.made == |ConfigureOrder|
  {
    var cfg := ConfigureTidy(lib);
    ConfiguredOnPlan(lib, doc, forced, cfg);
    Progress(cfg.status, |cfg.ran|)
  }

  /**
    The first part of `sanitize_content`: configure, parse, clean and
    repair, and run diagnostics, each only while the status is non-negative.
   */
  function PrepareDocument(lib: TidyLib, content: Option<CStr>): (p: Progress)
    ensures OnPlan(lib, content, Forced(lib, content), p)
    ensures p.rc >= 0 ==> p.made == |ConfigureOrder| + 3 && p.rc == lib.runDiagnostics(content)
    ensures p.made <= |ConfigureOrder| + 3
  {
    var forced := Forced(lib, content);
    var n := |ConfigureOrder|;
    var p0 := Configured(lib, content, forced);
    PlanAfterConfig(forced);
    var p1 := PlannedCall(lib, content, forced, p0, n);      // tidyParseString
    var p2 := PlannedCall(lib, content, forced, p1, n + 1);  // tidyCleanAndRepair
    PlannedCall(lib, content, forced, p2, n + 2)             // tidyRunDiagnostics
  }

  /**
    `if (rc > 1)`: diagnostics reported more than warnings, so Tidy is
    asked to force output; the status is kept if it agrees and becomes -1
    if it refuses.
   */
  function ForceOnErrors(lib: TidyLib, content: Option<CStr>, p: Progress): (q: Progress)
    requires OnPlan(lib, content, Forced(lib, content), p)
    requires p.rc >= 0 ==> p.made == |ConfigureOrder| + 3 && p.rc == lib.runDiagnostics(content)
    requires p.made <= |ConfigureOrder| + 3
    ensures OnPlan(lib, content, Forced(lib, content), q)
    ensures q.rc >= 0 ==> q.made == PlanLength(Forced(lib, content)) - 1
    ensures q.made <= PlanLength(Forced(lib, content)) - 1
    ensures p.rc <= 1 ==> q == p
    ensures p.rc > 1 ==> q == Progress(if lib.forceOutput(content) then p.rc else -1, p.made + 1)
  {
    PlanAfterConfig(true);
    if p.rc > 1 then
      PlannedCall(lib, content, true, p, |ConfigureOrder| + 3)  // tidyOptSetBool(TidyForceOutput)
    else
      p
  }

  /**
    The status `sanitize_content` returns, the content it leaves, and how
    many calls of the plan it made.
   */
  datatype Sanitized = Sanitized(status: int, content: Option<CStr>, made: nat)

  /**
    `sanitize_content`: prepare the document, force output on errors,
    serialize only on a non-negative status, and replace the content only
    when the final status is non-negative.
   */
  function SanitizeContent(lib: TidyLib, content: Option<CStr>): (r: Sanitized)
    ensures OnPlan(lib, content, Forced(lib, content), Progress(r.status, r.made))
    ensures r.status >= 0 ==> r.made == PlanLength(Forced(lib, content))
    ensures r.status >= 0 ==> r.content == lib.saveBuffer(content).1
    ensures r.status < 0 ==> r.content == content
  {
    var forced := Forced(lib, content);
    var p := ForceOnErrors(lib, content, PrepareDocument(lib, content));
    var saved := lib.saveBuffer(content);
    PlanAfterConfig(forced);
    var q := PlannedCall(lib, content, forced, p, PlanLength(forced) - 1);  // tidySaveBuffer
    Sanitized(q.rc, if q.rc >= 0 then saved.1 else content, q.made)
  }

  /**
    Each call of the plan is made exactly when every call before it
    succeeded: nothing runs after a failure, and nothing is skipped while
    all goes well.
   */
  lemma {:induction false} CallMadeIffPredecessorsSucceeded(lib: TidyLib, content: Option<CStr>, k: nat)
    requires k < PlanLength(Forced(lib, content))
    ensures var r := SanitizeContent(lib, content);
      k < r.made <==> forall i :: 0 <= i < k ==> CallStatus(lib, content, PlanCall(Forced(lib, content), i)) >= 0
  {
    var r := SanitizeContent(lib, content);
    if r.made <= k {
      assert r.status < 0;
      assert CallStatus(lib, content, PlanCall(Forced(lib, content), r.made - 1)) < 0;
    }
  }
}
