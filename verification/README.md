# Slug suggestions for restricted page editors (sluggi `FormSlugAjaxController`)

This project models the slug suggestion endpoint of the sluggi TYPO3 extension,
`Classes/Backend/Controller/FormSlugAjaxController.php`, in Dafny and proves
properties of the model.

`suggestAction` hands every request to the TYPO3 core controller unless the
table is `pages` and the editor lacks full permission. For those requests,
`modifiedSuggestAction` does the following in order:

- It rejects a missing field configuration.
- It dispatches on `mode`:
  - `auto` generates a slug under the page.
  - `recreate` generates a slug under the parent page.
  - `manual` sanitizes the editor's input. Under the `last_segment_only`
    setting, the input is also spliced into the slug generated under the
    parent page, so only its final segment can change.
  - Any other mode is rejected.
- It resolves site uniqueness and then page uniqueness, each only when the
  field's `eval` list asks for it.
- It reports the slug segments above the editor's topmost accessible page.

Modules:

- `Results` — `Option` (PHP `null` versus a value) and `Result` (a payload or
  the exception thrown).
- `Php` — the PHP built-ins the controller applies:
  - truthiness of `!$x` and `empty($x)`;
  - `explode` and `implode` on one separator character;
  - `str_replace` on one character;
  - `substr`.
- `LastSegment` — the last-segment-only rewrite (`explode`, `array_pop`,
  `implode`, `str_replace`, `substr`). Its properties are stated against an
  independent reading of a slug: its head, meaning the text up to and including
  the last `/`, and its last segment, meaning the text after that `/`.
- `Collaborators` — the TYPO3 `SlugHelper` (`generate`, `sanitize`,
  `isUniqueInSite`, `isUniqueInPid`, `buildSlugForUniqueInSite`,
  `buildSlugForUniqueInPid`) as uninterpreted function fields, the record
  state and the page row.
- `Uniqueness` — the ordered uniqueness resolution. It returns the proposal,
  the internal conflict flag and the helper queries in the order they are
  made.
- `FormSlugAjax` — the request, the environment (settings, TCA entries,
  helpers, permission lookups), the payload, the errors and the two actions.
- `WorkedExamples` — concrete requests with fixed helper functions.

Consequences of the code that the model makes explicit:

- An absent or empty `mode` is rejected at line 98, like any other unknown
  mode. So `'hasConflicts' => !$mode && $hasConflict` (line 119) is false in
  every payload that is returned: a resolved collision is never reported as
  a conflict. This is proved (`FormSlugAjax.ModifiedSuggest`,
  `WorkedExamples.EmptyModeRejected`, `WorkedExamples.CollisionResolvedSilently`).
- The invalid-mode exception carries only its message and code (1535835666),
  not the offending mode.
- With `mode` = `manual` and no `values.manual`, PHP passes `null` to the
  string-typed `SlugHelper::sanitize` under `strict_types`, which throws a
  `TypeError`. The model reports this as the error `ManualNotAString`.

## Model

| member | source | states |
|---|---|---|
| FormSlugAjax.Suggest | Classes/Backend/Controller/FormSlugAjaxController.php:36-47 | the modified path runs exactly when the table is `pages` and the editor lacks full permission; otherwise the core controller answers |
| FormSlugAjax.ModifiedSuggest | Classes/Backend/Controller/FormSlugAjaxController.php:52-125 | an empty field configuration is an error naming table and field, whatever the mode; otherwise an unaccepted mode (absent and empty included) is an error; those and a missing manual value in manual mode are the only errors; every payload answers an accepted mode and reports no conflict; the proposal is the mode's candidate, replaced by the site rebuild when the site check is asked for and fails, and that result replaced by the page rebuild when the page check is asked for and fails on it; `manual` echoes `values.manual` or `""`; `lastSegmentOnly` echoes the setting; `inaccessibleSegments` is null exactly when there is no topmost accessible page |
| FormSlugAjax.EvalTokens | Classes/Backend/Controller/FormSlugAjaxController.php:70 | no tokens when the configuration has no `eval` entry or an empty (`""` or `"0"`) one; otherwise the trimmed comma split of that entry |
| FormSlugAjax.FailedSiteCheckRebuilds | Classes/Backend/Controller/FormSlugAjaxController.php:103-110 | when the site check is asked for and rejects the candidate, the proposal is the helper's site rebuild of the candidate, passed through the page step |
| FormSlugAjax.RecordDataFor | Classes/Backend/Controller/FormSlugAjaxController.php:76-80 | the record data has the request's keys plus `pid` plus the language field when one is configured; `pid` is the page id (unless the language field is `pid`); the language field holds the language; every other value is the request's |
| FormSlugAjax.Candidate | Classes/Backend/Controller/FormSlugAjaxController.php:84-99 | the dispatch fails exactly for an unaccepted mode (with the invalid-mode error) or for manual mode without a manual value; otherwise, whatever the uniqueness checks later say, `auto` yields the slug generated under the page, `recreate` the slug generated under the parent page, and `manual` the sanitized input, spliced into the slug generated under the parent page when only the last segment may be edited |
| FormSlugAjax.ManualCandidateKeepsGeneratedHead | Classes/Backend/Controller/FormSlugAjaxController.php:89-96 | under the last-segment-only policy, the slug a manual edit hands to uniqueness resolution has the generated slug's head (or `/` when that slug has none) and the flattened input as its last segment, with no hypothesis on the checks |
| FormSlugAjax.InaccessibleSegments | Classes/Backend/Controller/FormSlugAjaxController.php:112-116 | no segments are reported exactly when there is no topmost accessible page |
| FormSlugAjax.InaccessibleSegmentsReported | Classes/Backend/Controller/FormSlugAjaxController.php:112-122 | in a payload, the reported segments are the slug of the topmost accessible page's parent in the request's language |
| FormSlugAjax.ValidModeIsTruthy | Classes/Backend/Controller/FormSlugAjaxController.php:119 | each accepted mode is a truthy string, so `!$mode` is false for every mode that reaches the response |
| FormSlugAjax.ProposalPerMode | Classes/Backend/Controller/FormSlugAjaxController.php:84-110 | when every uniqueness check the `eval` list asks for accepts the mode's candidate, the request succeeds and the proposal is that candidate: the slug generated under the page (`auto`); the slug generated under the parent page (`recreate`); the sanitized input, spliced into the slug generated under the parent page when only the last segment may be edited (`manual`) |
| FormSlugAjax.ManualEditKeepsGeneratedHead | Classes/Backend/Controller/FormSlugAjaxController.php:89-110 | a manual edit under the last-segment-only policy, whose splice every requested check accepts, succeeds. The proposal's head is the generated slug's head, or `/` when that slug has none. Its last segment is the flattened input and contains no `/`. It has max(1, n) separators, where n is the generated slug's count |
| Uniqueness.Resolve | Classes/Backend/Controller/FormSlugAjaxController.php:101-110 | the site check is made exactly when `uniqueInSite` is required, on the candidate. The page check is made exactly when `uniqueInPid` is required, on the site-resolved candidate. No site query follows a page query. A rebuild follows exactly a failed check. The conflict flag is raised exactly when a rebuild happened. Without a rebuild the proposal is the candidate |
| Php.Falsy | Classes/Backend/Controller/FormSlugAjaxController.php:119 | `null` is falsy; a string of any length but one is falsy exactly when it is empty; a one-character string is falsy exactly when it is `0` |
| Php.Implode | Classes/Backend/Controller/FormSlugAjaxController.php:95 | the first piece begins the result |
| Php.StrReplace | Classes/Backend/Controller/FormSlugAjaxController.php:95 | every occurrence of the search character, and nothing else, is replaced; the length is kept; the search character no longer occurs |
| Php.Substr | Classes/Backend/Controller/FormSlugAjaxController.php:95 | the text from the start position on, empty when the string is too short |
| Php.Explode | Classes/Backend/Controller/FormSlugAjaxController.php:93 | at least one piece, no piece holds the separator, and imploding the pieces gives back the input |
| Php.ExplodeUnique | Classes/Backend/Controller/FormSlugAjaxController.php:93-95 | `explode` is the only cut into separator-free pieces that implode back to the string: it inverts `implode` on such pieces |
| Php.ExplodeCount | Classes/Backend/Controller/FormSlugAjaxController.php:93 | `explode` yields one piece more than the string has separators |
| Php.ImplodeCount | Classes/Backend/Controller/FormSlugAjaxController.php:95 | imploding n separator-free pieces puts exactly n - 1 separators in the result |
| Php.ImplodeSnoc | Classes/Backend/Controller/FormSlugAjaxController.php:95 | imploding one more piece appends a separator and that piece |
| LastSegment.Splice | Classes/Backend/Controller/FormSlugAjaxController.php:93-95 | the proposal ends in a separator followed by the flattened input |
| LastSegment.HeadLastSplit | Classes/Backend/Controller/FormSlugAjaxController.php:93-95 | head and last segment concatenate to the slug, the last segment holds no separator, and a non-empty head ends in one |
| LastSegment.KeptPrefix | Classes/Backend/Controller/FormSlugAjaxController.php:93-95 | exploding, popping the last piece and imploding yields the text before the last separator (empty when there is none) |
| LastSegment.SpliceIsDirnameJoin | Classes/Backend/Controller/FormSlugAjaxController.php:93-95 | the splice is the generated slug's text before its last separator, a separator, and the flattened input |
| LastSegment.SpliceKeepsHead | Classes/Backend/Controller/FormSlugAjaxController.php:93-95 | the proposal's head is the generated slug's head, or `/` when that slug has none. Its last segment is the input minus its first character, with `/` replaced by `-`. It has max(1, n) separators, where n is the generated slug's count, whatever the input holds |
| LastSegment.ExplodeReplacingLast | Classes/Backend/Controller/FormSlugAjaxController.php:93-95 | imploding all but the last of some separator-free segments, then appending `/` and separator-free text, explodes into exactly those segments and the text. A single segment gives an empty first segment |
| LastSegment.SpliceReplacesLastSegment | Classes/Backend/Controller/FormSlugAjaxController.php:93-95 | the proposal's segments are the generated slug's segments with the last one replaced by the flattened input. A generated slug without separator contributes one empty segment |
| LastSegment.SpliceLeadingSeparator | Classes/Backend/Controller/FormSlugAjaxController.php:93-95 | a generated slug that starts with `/`, or has none, yields a proposal starting with `/` |
| LastSegment.SpliceKeepsSeparatorsSingle | Classes/Backend/Controller/FormSlugAjaxController.php:93-95 | a generated slug without `//` yields a proposal without `//` |
| LastSegment.SpliceShortInputEmptiesLastSegment | Classes/Backend/Controller/FormSlugAjaxController.php:95 | a sanitized input of at most one character leaves an empty last segment, so the proposal ends in `/` |
| WorkedExamples.AutoModeNewPage | Classes/Backend/Controller/FormSlugAjaxController.php:84-124 | `auto` with no constraint and generated `/about` answers `{false, "", "/about", null, false}` |
| WorkedExamples.ManualEditFlattensSeparator | Classes/Backend/Controller/FormSlugAjaxController.php:89-96 | input `My Page/Sub`, sanitized `/my-page/sub`, generated `/parent/auto-slug`: the proposal is `/parent/my-page-sub` |
| WorkedExamples.UnknownModeRejected | Classes/Backend/Controller/FormSlugAjaxController.php:97-99 | mode `bogus` is the invalid-mode error, with code 1535835666 |
| WorkedExamples.EmptyModeRejected | Classes/Backend/Controller/FormSlugAjaxController.php:97-99 | an absent or empty mode is the invalid-mode error even when the site check would find a collision |
| WorkedExamples.CollisionResolvedSilently | Classes/Backend/Controller/FormSlugAjaxController.php:103-119 | in `auto` mode a site collision is resolved (`/about` becomes `/about-1`) but `hasConflicts` stays false |
| WorkedExamples.MissingConfigurationFirst | Classes/Backend/Controller/FormSlugAjaxController.php:65-68 | an empty field configuration with mode `bogus` reports the configuration error, with code 1535379534 |

## Left out

- The TYPO3 `SlugHelper` methods `generate`, `sanitize`, `isUniqueInSite`, `isUniqueInPid`, `buildSlugForUniqueInSite` and `buildSlugForUniqueInPid` are uninterpreted function fields of `Collaborators.SlugHelper`. Their code is not part of this model, so nothing is proved about them: not idempotence of `sanitize`, not determinism beyond being functions, and not that a rebuilt slug is free.
- `PermissionHelper::hasFullPermission` is a boolean parameter of `Suggest`. `PermissionHelper::getTopmostAccessiblePage` and `SluggiSlugHelper::getSlug` are function fields of the environment. Their code is not part of this model.
- `Configuration::get('last_segment_only')` and the TCA lookups (`columns.<field>.config`, `ctrl.languageField`) are environment fields. The field configuration is a map from keys to strings. The controller reads its emptiness and its `eval` entry and hands the whole map to the `SlugHelper` constructor (line 83). That constructor is the function field `makeSlugHelper` of the environment, applied to table, field and configuration.
- `GeneralUtility::trimExplode` is a function field applied to the `eval` entry. Its code is not part of this model.
- HTTP plumbing is left out: `checkRequest`, `getParsedBody`, the `(int)` casts and `JsonResponse` serialisation. The request arrives parsed, with integer ids, and string-valued `values`.
- `RecordStateFactory` is modelled as the plain tuple of table, record data, page id and record id that it is built from.
- Exceptions thrown inside the helpers are not modelled, for example `SiteNotFoundException` from the uniqueness checks.
- Php.Substr: drops one character where PHP's `substr($proposal, 1)` drops one byte. The two agree when the sanitized slug starts with a one-byte character, such as the ASCII `/` that page slug sanitizing puts in front; a sanitizer output starting with a multi-byte character is not modelled.
- LastSegment.FlattenedTail: inherits the character view of `Php.Substr` above.
- PHP 7's `substr` returning `false` on short strings is not modelled. `Php.Substr` follows PHP 8 and returns `""`.
- `parent::suggestAction`, the core controller's own suggestion, is outside this model. `Suggest` only reports that it is used.
- The guarantee that a rebuilt proposal is unique within site and page belongs to the foreign helpers and is not stated. After the page rebuild, site uniqueness is not re-checked by this code either.
