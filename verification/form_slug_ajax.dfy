/** The slug suggestion endpoint of the page form
    (`FormSlugAjaxController`): for pages edited by a user without full
    permission it proposes a slug itself, with the "last segment only"
    policy for manual edits, ordered uniqueness resolution and a report of
    the slug segments the user cannot see. */
module FormSlugAjax {
  import opened Results
  import opened Php
  import opened LastSegment
  import opened Collaborators
  import opened Uniqueness

  /** The table whose suggestions this controller takes over. */
  const PagesTable: string := "pages"

  const ModeAuto: string := "auto"
  const ModeRecreate: string := "recreate"
  const ModeManual: string := "manual"

  /** Keys of the request's `values` and of the record data. */
  const ManualKey: string := "manual"
  const PidKey: string := "pid"

  /** Key of the field configuration holding the comma-separated eval list. */
  const EvalKey: string := "eval"
  const UniqueInSiteToken: string := "uniqueInSite"
  const UniqueInPidToken: string := "uniqueInPid"

  /** Exception codes of the two `RuntimeException`s the controller throws. */
  const MissingConfigurationCode: int := 1535379534
  const InvalidModeCode: int := 1535835666

  /** The parsed request body, with the integer parameters already cast;
      an absent `mode` is `None`. */
  datatype Request = Request(
    tableName: string,
    fieldName: string,
    mode: Option<string>,
    values: map<string, string>,
    pageId: int,
    parentPageId: int,
    recordId: int,
    language: int)

  /** What the controller reads from outside the request: the extension
      setting `last_segment_only`, the TCA entries of the table, the TYPO3
      helpers and the permission and page-slug lookups. `makeSlugHelper`
      stands for the `SlugHelper` constructor, which receives the table, the
      field and the field configuration. */
  datatype Environment = Environment(
    lastSegmentOnly: bool,
    fieldConfig: map<string, string>,
    languageField: Option<string>,
    trimExplode: string -> seq<string>,
    makeSlugHelper: (string, string, map<string, string>) -> SlugHelper,
    topmostAccessiblePage: int -> Option<Page>,
    pageSlug: (int, int) -> string)

  /** The exceptions the modified suggestion ends in. */
  datatype Error =
    | MissingFieldConfiguration(table: string, field: string)
    | InvalidMode
      /** `values.manual` absent in manual mode: `null` reaches the
          string-typed `sanitize` under strict types, a `TypeError`. */
    | ManualNotAString
  {
    function Code(): int {
      match this
      case MissingFieldConfiguration(_, _) => MissingConfigurationCode
      case InvalidMode => InvalidModeCode
      case ManualNotAString => 0
    }
  }

  /** The JSON response body. */
  datatype Payload = Payload(
    hasConflicts: bool,
    manual: string,
    proposal: string,
    inaccessibleSegments: Option<string>,
    lastSegmentOnly: bool)

  /** Outcome of `suggestAction`: handed to the core controller, or answered
      by the modified suggestion. */
  datatype Outcome = ParentSuggest | Modified(result: Result<Payload, Error>)

  /** The three modes the dispatch accepts (compared with `===`). */
  predicate ValidMode(mode: Option<string>) {
    mode == Some(ModeAuto) || mode == Some(ModeRecreate) || mode == Some(ModeManual)
  }

  /** Every accepted mode is a truthy string, so `!$mode` is false for it. */
  lemma ValidModeIsTruthy(mode: Option<string>)
    requires ValidMode(mode)
    ensures !Falsy(mode)
  {
    assert |ModeAuto| == 4 && |ModeRecreate| == 8 && |ModeManual| == 6;
  }

  /** Line 70: the eval tokens, empty when the configuration has no
      (or an empty) eval entry. */
  function EvalTokens(env: Environment): (tokens: seq<string>)
    ensures EvalKey !in env.fieldConfig ==> tokens == []
    ensures EvalKey in env.fieldConfig && env.fieldConfig[EvalKey] in {"", "0"} ==> tokens == []
    ensures EvalKey in env.fieldConfig && env.fieldConfig[EvalKey] !in {"", "0"}
            ==> tokens == env.trimExplode(env.fieldConfig[EvalKey])
  {
    var eval := Lookup(env.fieldConfig, EvalKey);
    if Falsy(eval) then [] else env.trimExplode(eval.value)
  }

  /** Lines 76-80: the request values with `pid` set to the page id and,
      when the table has a language field, that field set to the language. */
  function RecordDataFor(values: map<string, string>, pageId: int, languageField: Option<string>, language: int): (data: RecordData)
    ensures data.Keys == values.Keys + {PidKey} + (if Falsy(languageField) then {} else {languageField.value})
    ensures !Falsy(languageField) ==> data[languageField.value] == Number(language)
    ensures Falsy(languageField) || languageField.value != PidKey ==> data[PidKey] == Number(pageId)
    ensures forall k :: (k in values && k != PidKey && (Falsy(languageField) || k != languageField.value))
                        ==> data[k] == Text(values[k])
  {
    var base := map k | k in values :: Text(values[k]);
    var withPid := base[PidKey := Number(pageId)];
    if Falsy(languageField) then withPid else withPid[languageField.value := Number(language)]
  }

  /** The record data a request hands to the generator. */
  function DataOf(req: Request, env: Environment): RecordData {
    RecordDataFor(req.values, req.pageId, env.languageField, req.language)
  }

  /** Line 83: the helper built for the request's table and field, with the
      field configuration. */
  function HelperOf(req: Request, env: Environment): SlugHelper {
    env.makeSlugHelper(req.tableName, req.fieldName, env.fieldConfig)
  }

  /** Lines 101-102: the record state the uniqueness checks look at. */
  function StateOf(req: Request, env: Environment): RecordState {
    RecordState(req.tableName, DataOf(req, env), req.pageId, req.recordId)
  }

  /** Every uniqueness check the eval list asks for accepts `slug`. */
  predicate ChecksPass(req: Request, env: Environment, slug: string) {
    var h := HelperOf(req, env);
    var tokens := EvalTokens(env);
    && (UniqueInSiteToken in tokens ==> h.isUniqueInSite(slug, StateOf(req, env)))
    && (UniqueInPidToken in tokens ==> h.isUniqueInPid(slug, StateOf(req, env)))
  }

  /** Lines 84-99: the candidate slug the mode asks for, before uniqueness
      resolution. */
  function Candidate(req: Request, env: Environment): (r: Result<string, Error>)
    ensures r.Failure? <==> !ValidMode(req.mode) || (req.mode == Some(ModeManual) && ManualKey !in req.values)
    ensures !ValidMode(req.mode) ==> r == Failure(InvalidMode)
    ensures r.Failure? && ValidMode(req.mode) ==> r.error == ManualNotAString
    // the slug each mode asks for, whatever the uniqueness checks later say
    ensures req.mode == Some(ModeAuto) ==>
      r == Success(HelperOf(req, env).generate(DataOf(req, env), req.pageId))
    ensures req.mode == Some(ModeRecreate) ==>
      r == Success(HelperOf(req, env).generate(DataOf(req, env), req.parentPageId))
    ensures req.mode == Some(ModeManual) && ManualKey in req.values ==>
      var h := HelperOf(req, env);
      var sanitized := h.sanitize(req.values[ManualKey]);
      r == Success(if env.lastSegmentOnly
                   then Splice(h.generate(DataOf(req, env), req.parentPageId), sanitized)
                   else sanitized)
  {
    var h := HelperOf(req, env);
    if req.mode == Some(ModeAuto) then
      Success(h.generate(DataOf(req, env), req.pageId))
    else if req.mode == Some(ModeRecreate) then
      Success(h.generate(DataOf(req, env), req.parentPageId))
    else if req.mode == Some(ModeManual) then
      if ManualKey !in req.values then Failure(ManualNotAString)
      else
        var sanitized := h.sanitize(req.values[ManualKey]);
        if env.lastSegmentOnly
        then Success(Splice(h.generate(DataOf(req, env), req.parentPageId), sanitized))
        else Success(sanitized)
    else
      Failure(InvalidMode)
  }

  /** Lines 112-116: the slug of the parent of the topmost page the user
      may access, or `None` when there is no such page. */
  function InaccessibleSegments(req: Request, env: Environment): (r: Option<string>)
    ensures r.None? <==> env.topmostAccessiblePage(req.pageId).None?
  {
    match env.topmostAccessiblePage(req.pageId)
    case None => None
    case Some(mountRoot) => Some(env.pageSlug(mountRoot.pid, req.language))
  }

  /** `modifiedSuggestAction` (lines 52-125). */
  function ModifiedSuggest(req: Request, env: Environment): (r: Result<Payload, Error>)
    // the configuration guard comes first, whatever the mode
    ensures |env.fieldConfig| == 0 ==> r == Failure(MissingFieldConfiguration(req.tableName, req.fieldName))
    ensures |env.fieldConfig| > 0 && !ValidMode(req.mode) ==> r == Failure(InvalidMode)
    ensures r.Failure? <==>
      |env.fieldConfig| == 0 || !ValidMode(req.mode)
      || (req.mode == Some(ModeManual) && ManualKey !in req.values)
    // every payload answers one of the three modes, so no conflict is ever reported
    ensures r.Success? ==> ValidMode(req.mode) && !r.value.hasConflicts
    ensures r.Success? ==> r.value.manual == Lookup(req.values, ManualKey).GetOr("")
    ensures r.Success? ==> r.value.lastSegmentOnly == env.lastSegmentOnly
    ensures r.Success? ==>
      (r.value.inaccessibleSegments.None? <==> env.topmostAccessiblePage(req.pageId).None?)
    // the proposal is the mode's candidate, rebuilt for the site when the site
    // check is asked for and fails, then rebuilt for the page when the page
    // check is asked for and fails on that
    ensures r.Success? ==>
      var h := HelperOf(req, env);
      var state := StateOf(req, env);
      var tokens := EvalTokens(env);
      && Candidate(req, env).Success?
      && var sited := SiteResolved(h, Candidate(req, env).value, state, UniqueInSiteToken in tokens);
         r.value.proposal
         == if UniqueInPidToken in tokens && !h.isUniqueInPid(sited, state)
            then h.buildSlugForUniqueInPid(sited, state)
            else sited
  {
    if |env.fieldConfig| == 0 then
      Failure(MissingFieldConfiguration(req.tableName, req.fieldName))
    else
      var tokens := EvalTokens(env);
      var candidate :- Candidate(req, env);
      ValidModeIsTruthy(req.mode);
      var resolution := Resolve(HelperOf(req, env), candidate, StateOf(req, env),
                                UniqueInSiteToken in tokens, UniqueInPidToken in tokens);
      Success(Payload(
        Falsy(req.mode) && resolution.hasConflict,
        Lookup(req.values, ManualKey).GetOr(""),
        resolution.proposal,
        InaccessibleSegments(req, env),
        env.lastSegmentOnly))
  }

  /** `suggestAction` (lines 36-47): only a pages request from a user without
      full permission takes the modified path. */
  function Suggest(req: Request, hasFullPermission: bool, env: Environment): (o: Outcome)
    ensures o.Modified? <==> req.tableName == PagesTable && !hasFullPermission
    ensures o.Modified? ==> o.result == ModifiedSuggest(req, env)
  {
    if PagesTable != req.tableName || hasFullPermission then ParentSuggest
    else Modified(ModifiedSuggest(req, env))
  }

  /** A candidate every requested check accepts is the proposal: `auto`
      generates under the page, `recreate` under the parent page, `manual`
      sanitizes the input (spliced into the slug generated under the parent
      page when only the last segment may be edited). */
  lemma ProposalPerMode(req: Request, env: Environment)
    requires |env.fieldConfig| > 0
    ensures var generated := HelperOf(req, env).generate(DataOf(req, env), req.pageId);
      req.mode == Some(ModeAuto) && ChecksPass(req, env, generated) ==>
      ModifiedSuggest(req, env).Success? && ModifiedSuggest(req, env).value.proposal == generated
    ensures var generated := HelperOf(req, env).generate(DataOf(req, env), req.parentPageId);
      req.mode == Some(ModeRecreate) && ChecksPass(req, env, generated) ==>
      ModifiedSuggest(req, env).Success? && ModifiedSuggest(req, env).value.proposal == generated
    ensures req.mode == Some(ModeManual) && ManualKey in req.values ==>
      var h := HelperOf(req, env);
      var sanitized := h.sanitize(req.values[ManualKey]);
      var expected := if env.lastSegmentOnly
                      then Splice(h.generate(DataOf(req, env), req.parentPageId), sanitized)
                      else sanitized;
      ChecksPass(req, env, expected) ==>
      ModifiedSuggest(req, env).Success? && ModifiedSuggest(req, env).value.proposal == expected
  {
  }

  /** A manual edit under the last-segment-only policy whose splice every
      requested check accepts keeps the head of the slug generated under the
      parent page, whatever separators the input holds: only the final
      segment is the user's, with separators flattened, and the proposal has
      as many separators as the generated slug (at least one). */
  lemma ManualEditKeepsGeneratedHead(req: Request, env: Environment)
    requires |env.fieldConfig| > 0
    requires req.mode == Some(ModeManual) && ManualKey in req.values && env.lastSegmentOnly
    requires var h := HelperOf(req, env);
      ChecksPass(req, env, Splice(h.generate(DataOf(req, env), req.parentPageId),
                                  h.sanitize(req.values[ManualKey])))
    ensures var h := HelperOf(req, env);
      var generated := h.generate(DataOf(req, env), req.parentPageId);
      var r := ModifiedSuggest(req, env);
      && r.Success?
      && Head(r.value.proposal) == (if Sep in generated then Head(generated) else [Sep])
      && Last(r.value.proposal) == FlattenedTail(h.sanitize(req.values[ManualKey]))
      && Sep !in Last(r.value.proposal)
      && Count(Sep, r.value.proposal) == (if Count(Sep, generated) == 0 then 1 else Count(Sep, generated))
  {
    ProposalPerMode(req, env);
    var h := HelperOf(req, env);
    var generated := h.generate(DataOf(req, env), req.parentPageId);
    var sanitized := h.sanitize(req.values[ManualKey]);
    SpliceKeepsHead(generated, sanitized);
    HeadLastSplit(Splice(generated, sanitized));
  }

  /** Under the last-segment-only policy the slug a manual edit hands to
      uniqueness resolution keeps the head of the slug generated under the
      parent page (a lone separator when it has none), and its final segment
      is the flattened input, whatever the checks later say. */
  lemma ManualCandidateKeepsGeneratedHead(req: Request, env: Environment)
    requires req.mode == Some(ModeManual) && ManualKey in req.values && env.lastSegmentOnly
    ensures var h := HelperOf(req, env);
      var generated := h.generate(DataOf(req, env), req.parentPageId);
      var c := Candidate(req, env);
      && c.Success?
      && Head(c.value) == (if Sep in generated then Head(generated) else [Sep])
      && Last(c.value) == FlattenedTail(h.sanitize(req.values[ManualKey]))
  {
    var h := HelperOf(req, env);
    SpliceKeepsHead(h.generate(DataOf(req, env), req.parentPageId), h.sanitize(req.values[ManualKey]));
  }

  /** A site check that is asked for and fails is never silent in the
      proposal: it is the helper's site rebuild of the candidate, passed
      through the page step. */
  lemma FailedSiteCheckRebuilds(req: Request, env: Environment)
    requires ModifiedSuggest(req, env).Success?
    requires UniqueInSiteToken in EvalTokens(env)
    requires !HelperOf(req, env).isUniqueInSite(Candidate(req, env).value, StateOf(req, env))
    ensures var h := HelperOf(req, env);
      var state := StateOf(req, env);
      var rebuilt := h.buildSlugForUniqueInSite(Candidate(req, env).value, state);
      ModifiedSuggest(req, env).value.proposal
      == if UniqueInPidToken in EvalTokens(env) && !h.isUniqueInPid(rebuilt, state)
         then h.buildSlugForUniqueInPid(rebuilt, state)
         else rebuilt
  {
  }

  /** The payload's `inaccessibleSegments` is the slug of the parent of the
      topmost accessible page, in the request's language. */
  lemma InaccessibleSegmentsReported(req: Request, env: Environment)
    requires ModifiedSuggest(req, env).Success?
    ensures match env.topmostAccessiblePage(req.pageId)
      case None => ModifiedSuggest(req, env).value.inaccessibleSegments == None
      case Some(page) => ModifiedSuggest(req, env).value.inaccessibleSegments
                         == Some(env.pageSlug(page.pid, req.language))
  {
  }
}
