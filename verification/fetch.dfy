/**
  The per-item decisions of `fetch_feed`: convert the text fields, derive
  the identity, clean the title and fall back to a placeholder, sanitize
  the content and sort the item by the sanitizer's status.
 */
module Fetch {
  import opened CStrings
  import opened Feed
  import opened Identity
  import opened Encoding
  import opened Sanitize

  /** "[ NO TITLE ]", the title given to an item whose cleaned title is too short. */
  const NoTitle: CStr := [0x5b, 0x20, 0x4e, 0x4f, 0x20, 0x54, 0x49, 0x54, 0x4c, 0x45, 0x20, 0x5d]

  /** A cleaned title with `strlen` below 2 is replaced by the placeholder; any other is kept. */
  function TitleFallback(t: CStr): (r: CStr)
    ensures |r| >= 2
    ensures |t| >= 2 ==> r == t
    ensures |t| < 2 ==> r == NoTitle
  {
    if |t| < 2 then NoTitle else t
  }

  /**
    Conversion never changes which field becomes the natural key: it keeps
    every field's NULL-ness, and the key is chosen by NULL-ness alone.
   */
  lemma ConversionKeepsKeyField(cd: Converter, item: FeedItem)
    requires ConvertItem(cd, item).Converted?
    ensures SelectKey(ConvertItem(cd, item).value).None? <==> SelectKey(item).None?
    ensures SelectKey(item).Some? ==> SelectKey(ConvertItem(cd, item).value).value.0 == SelectKey(item).value.0
  {
  }

  /** How the loop treats an item: skipped, sanitized, or sanitized with a warning logged. */
  datatype Verdict = Skip | Ok | Warn

  /** The branches on the status `sanitize_content` returns. */
  function Classify(rc: int): (v: Verdict)
    ensures v == Skip <==> rc < 0
    ensures v == Ok <==> 0 <= rc <= 1
    ensures v == Warn <==> rc > 1
  {
    if rc > 1 then Warn
    else if rc >= 0 then Ok
    else Skip
  }

  /**
    What the verdict says about the sanitizer run: an item is skipped
    exactly when one of the Tidy calls failed; otherwise every call was
    made, and a warning means serialization reported a status above 1.
   */
  lemma VerdictOfSanitizer(lib: TidyLib, content: Option<CStr>)
    ensures var r := SanitizeContent(lib, content);
      var forced := Forced(lib, content);
      && (Classify(r.status) == Skip <==> exists i :: 0 <= i < r.made && CallStatus(lib, content, PlanCall(forced, i)) < 0)
      && (Classify(r.status) == Warn <==> r.made == PlanLength(forced) && lib.saveBuffer(content).0 > 1)
      && (Classify(r.status) == Ok <==> r.made == PlanLength(forced) && 0 <= lib.saveBuffer(content).0 <= 1)
      && (Classify(r.status) == Skip ==> r.content == content)
  {
    var r := SanitizeContent(lib, content);
    var forced := Forced(lib, content);
    var last := r.made - 1;
    PlanAfterConfig(forced);
    if r.status < 0 {
      assert CallStatus(lib, content, PlanCall(forced, last)) < 0;
    } else {
      assert PlanCall(forced, last) == SaveBuffer;
    }
  }

  /**
    The library calls the loop makes on item text. `textOnly` stands for
    `sanitize_text_only`, whose definition is not part of this model;
    `trim` for `__nxml_trim`.
   */
  datatype Env = Env(
    md5: Md5,
    signedChar: bool,
    tidy: TidyLib,
    textOnly: Option<CStr> -> Option<CStr>,
    trim: Option<CStr> -> Option<CStr>)

  /** An item that went through the whole loop body. */
  datatype ItemReport = ItemReport(id: Id, title: CStr, content: Option<CStr>, verdict: Verdict)

  /**
    One iteration: a report, a fatal conversion error, or a NULL title
    reaching `strlen` (undefined behaviour in the source).
   */
  datatype ItemStep = Reported(report: ItemReport) | ConversionFailed | NullTitle

  /** The cleaned title before the fallback: `sanitize_text_only` then `__nxml_trim`. */
  function CleanTitle(env: Env, title: Option<CStr>): Option<CStr> {
    env.trim(env.textOnly(title))
  }

  /**
    One pass of the loop body: the identity is taken from the converted
    fields, the title is never shorter than 2 bytes, and a skipped item
    keeps its converted content.
   */
  function ProcessItem(env: Env, cd: Converter, item: FeedItem): (r: ItemStep)
    ensures r.ConversionFailed? <==> ConvertItem(cd, item).Fatal?
    ensures cd.NoConversion? ==> !r.ConversionFailed?
    ensures r.NullTitle? <==> ConvertItem(cd, item).Converted? && CleanTitle(env, ConvertItem(cd, item).value.title).None?
    ensures r.Reported? ==>
      var it := ConvertItem(cd, item).value;
      var s := SanitizeContent(env.tidy, it.description);
      && |r.report.title| >= 2
      && |r.report.id.uid| <= IdSize
      && r.report.id == SelfossGetId(it, env.md5, env.signedChar)
      && (|CleanTitle(env, it.title).value| >= 2 ==> r.report.title == CleanTitle(env, it.title).value)
      && (|CleanTitle(env, it.title).value| < 2 ==> r.report.title == NoTitle)
      && r.report.verdict == Classify(s.status)
      && (r.report.verdict == Skip <==> s.status < 0)
      && (r.report.verdict == Skip ==> r.report.content == it.description)
      && (r.report.verdict != Skip ==> r.report.content == env.tidy.saveBuffer(it.description).1)
  {
    match ConvertItem(cd, item)
    case Fatal => ConversionFailed
    case Converted(it) =>
      var id := SelfossGetId(it, env.md5, env.signedChar);
      match CleanTitle(env, it.title)
      case None => NullTitle
      case Some(t) =>
        var s := SanitizeContent(env.tidy, it.description);
        Reported(ItemReport(id, TitleFallback(t), s.content, Classify(s.status)))
  }

  /** Why a run ended early: `err(1, "iconv()")`, or `strlen` on a NULL title. */
  datatype Abort = ConversionError | TitleFault

  predicate StepAborts(s: ItemStep) {
    !s.Reported?
  }

  function AbortOf(s: ItemStep): Abort
    requires StepAborts(s)
  {
    if s.ConversionFailed? then ConversionError else TitleFault
  }

  datatype ItemsRun = ItemsRun(reports: seq<ItemReport>, stop: Option<Abort>)

  /**
    The item loop: items in feed order, one report per item, until the
    end of the list or the first item that ends the process. `step` is
    the loop body.
   */
  function RunItems(step: FeedItem -> ItemStep, items: seq<FeedItem>): (r: ItemsRun)
    ensures |r.reports| <= |items|
    ensures forall i :: 0 <= i < |r.reports| ==> step(items[i]) == Reported(r.reports[i])
    ensures r.stop.None? <==> |r.reports| == |items|
    ensures r.stop.Some? ==> StepAborts(step(items[|r.reports|])) && r.stop.value == AbortOf(step(items[|r.reports|]))
    decreases |items|
  {
    if items == [] then ItemsRun([], None)
    else
      match step(items[0])
      case Reported(rep) =>
        var rest := RunItems(step, items[1..]);
        var r := ItemsRun([rep] + rest.reports, rest.stop);
        assert forall i :: 1 <= i < |r.reports| ==> items[i] == items[1..][i - 1] && r.reports[i] == rest.reports[i - 1];
        assert r.stop.Some? ==> items[|r.reports|] == items[1..][|rest.reports|];
        r
      case ConversionFailed => ItemsRun([], Some(ConversionError))
      case NullTitle => ItemsRun([], Some(TitleFault))
  }

  /**
    How `fetch_feed` ends: it returns a code (1 when the converter cannot
    be opened, 0 after the loop), or the process stops inside it.
   */
  datatype FetchResult =
    | Returned(code: int, reports: seq<ItemReport>)
    | Aborted(reports: seq<ItemReport>, cause: Abort)

  /**
    The item loop of `fetch_feed` under converter `cd`: 0 after every item
    was reported, or the process ends at the first item whose loop body
    ends it.
   */
  function ItemLoop(env: Env, cd: Converter, items: seq<FeedItem>): (r: FetchResult)
    ensures |r.reports| <= |items|
    ensures r.Returned? ==> r.code == 0 && |r.reports| == |items|
    ensures forall i :: 0 <= i < |r.reports| ==> ProcessItem(env, cd, items[i]) == Reported(r.reports[i])
    ensures r.Aborted? ==>
      && |r.reports| < |items|
      && StepAborts(ProcessItem(env, cd, items[|r.reports|]))
      && r.cause == AbortOf(ProcessItem(env, cd, items[|r.reports|]))
  {
    var run := RunItems(item => ProcessItem(env, cd, item), items);
    match run.stop
    case None => Returned(0, run.reports)
    case Some(cause) => Aborted(run.reports, cause)
  }

  /**
    `fetch_feed` from the parsed channel on: open a converter when the
    declared encoding is not UTF-8, convert the channel fields, then run
    the item loop.
   */
  function FetchFeed(env: Env, ch: Channel, iconvOpen: IconvOpen): (r: FetchResult)
    ensures r == Returned(1, []) <==> ConversionEnabled(ch.encoding) && iconvOpen(ch.encoding.value).None?
    ensures !ConversionEnabled(ch.encoding) ==> r.Returned? || r.cause == TitleFault
    ensures r.Returned? ==> r.code == (if OpenConverter(ch.encoding, iconvOpen).OpenFailed? then 1 else 0)
    ensures r.Returned? && r.code == 0 ==> |r.reports| == |ch.items|
    ensures OpenConverter(ch.encoding, iconvOpen).Opened? && ConvertChannel(OpenConverter(ch.encoding, iconvOpen).cd, ch).Fatal? ==>
      r == Aborted([], ConversionError)
    ensures |r.reports| <= |ch.items|
    ensures forall i :: 0 <= i < |r.reports| ==>
      |r.reports[i].title| >= 2 && |r.reports[i].id.uid| <= IdSize
    ensures forall i :: 0 <= i < |r.reports| ==>
      && OpenConverter(ch.encoding, iconvOpen).Opened?
      && ProcessItem(env, OpenConverter(ch.encoding, iconvOpen).cd, ch.items[i]) == Reported(r.reports[i])
    ensures r.Aborted? ==>
      var cd := OpenConverter(ch.encoding, iconvOpen).cd;
      && OpenConverter(ch.encoding, iconvOpen).Opened?
      && (ConvertChannel(cd, ch).Fatal? ==> r.reports == [] && r.cause == ConversionError)
      && (ConvertChannel(cd, ch).Converted? ==>
            && |r.reports| < |ch.items|
            && StepAborts(ProcessItem(env, cd, ch.items[|r.reports|]))
            && r.cause == AbortOf(ProcessItem(env, cd, ch.items[|r.reports|])))
  {
    match OpenConverter(ch.encoding, iconvOpen)
    case OpenFailed => Returned(1, [])
    case Opened(cd) =>
      match ConvertChannel(cd, ch)
      case Fatal => Aborted([], ConversionError)
      case Converted(converted) => ItemLoop(env, cd, converted.items)
  }

  /**
    A feed that declares UTF-8, or no encoding, is not converted at all:
    `fetch_feed` is then the item loop over the items as parsed.
   */
  lemma Utf8FeedRunsItemLoop(env: Env, ch: Channel, iconvOpen: IconvOpen)
    requires !ConversionEnabled(ch.encoding)
    ensures FetchFeed(env, ch, iconvOpen) == ItemLoop(env, NoConversion, ch.items)
  {
    assert ConvertChannel(NoConversion, ch) == Converted(ch);
  }
}
