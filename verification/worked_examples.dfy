/** Concrete requests and the payload the model yields for each, with the
    TYPO3 helpers replaced by fixed functions. */
module WorkedExamples {
  import opened Results
  import opened Collaborators
  import opened Php
  import opened LastSegment
  import opened Uniqueness
  import opened FormSlugAjax

  /** Helpers for a site where every generated slug is `generated`, the
      sanitizer returns `sanitized`, and the site check answers `siteFree`;
      the page check always passes. */
  function Helper(generated: string, sanitized: string, siteFree: bool): SlugHelper {
    SlugHelper(
      (data: RecordData, pid: int) => generated,
      (text: string) => sanitized,
      (slug: string, state: RecordState) => siteFree,
      (slug: string, state: RecordState) => true,
      (slug: string, state: RecordState) => slug + "-1",
      (slug: string, state: RecordState) => slug + "-1")
  }

  /** An environment with a slug field configuration whose eval list is
      `eval`, split on commas by `tokens`, and no permission restriction. */
  function Env(lastSegmentOnly: bool, eval: string, tokens: seq<string>, h: SlugHelper): Environment {
    Environment(
      lastSegmentOnly,
      map["type" := "slug", "eval" := eval],
      Some("sys_language_uid"),
      (list: string) => tokens,
      (table: string, field: string, config: map<string, string>) => h,
      (pageId: int) => None,
      (pid: int, language: int) => "")
  }

  function PageRequest(mode: Option<string>, values: map<string, string>): Request {
    Request("pages", "slug", mode, values, 12, 3, 0, 0)
  }

  /** A new page in `auto` mode with no constraint and no collision gets the
      generated slug, and nothing is reported hidden or conflicting. */
  lemma AutoModeNewPage()
    ensures ModifiedSuggest(PageRequest(Some("auto"), map["title" := "About"]),
                            Env(false, "", [], Helper("/about", "", true)))
         == Success(Payload(false, "", "/about", None, false))
  {
  }

  /** A manual edit `My Page/Sub` under the last-segment-only policy, with the
      slug generated under the parent page being `/parent/auto-slug` and the
      sanitizer turning the input into `/my-page/sub`: the embedded separator
      is flattened and the generated head is kept. */
  lemma ManualEditFlattensSeparator(generated: string, sanitized: string)
    requires generated == "/parent/auto-slug" && sanitized == "/my-page/sub"
    ensures ModifiedSuggest(PageRequest(Some("manual"), map["manual" := "My Page/Sub"]),
                            Env(true, "", [], Helper(generated, sanitized, true)))
         == Success(Payload(false, "My Page/Sub", "/parent/my-page-sub", None, true))
  {
    var req := PageRequest(Some("manual"), map["manual" := "My Page/Sub"]);
    var env := Env(true, "", [], Helper(generated, sanitized, true));
    assert EvalTokens(env) == [];
    ProposalPerMode(req, env);
    var r := ModifiedSuggest(req, env);
    assert r.value.proposal == Splice(generated, sanitized);
    SpliceOfExample(generated, sanitized);
    assert r.value.manual == "My Page/Sub";
    assert r.value.inaccessibleSegments == None;
  }

  /** The splice itself on this example (the arguments are parameters so that
      the verifier does not try to evaluate the whole splice on literals). */
  lemma SpliceOfExample(generated: string, sanitized: string)
    requires generated == "/parent/auto-slug" && sanitized == "/my-page/sub"
    ensures Splice(generated, sanitized) == "/parent/my-page-sub"
  {
    var segments := Explode(Sep, generated);
    ExplodeOfExample(generated);
    var kept := segments[..|segments| - 1];
    assert kept == ["", "parent"];
    var head := Implode(Sep, kept);
    assert kept[1..] == ["parent"];
    assert Implode(Sep, kept[1..]) == "parent";
    assert head == "" + [Sep] + "parent";
    var tail := FlattenedTail(sanitized);
    FlattenedTailOfExample(sanitized);
    assert Splice(generated, sanitized) == head + [Sep] + tail;
    JoinExample(head, tail);
  }

  lemma JoinExample(head: string, tail: string)
    requires head == "/parent" && tail == "my-page-sub"
    ensures head + [Sep] + tail == "/parent/my-page-sub"
  {
  }

  lemma ExplodeOfExample(generated: string)
    requires generated == "/parent/auto-slug"
    ensures Explode(Sep, generated) == ["", "parent", "auto-slug"]
  {
    var parts := ["", "parent", "auto-slug"];
    assert Implode(Sep, parts) == generated by {
      assert parts[1..] == ["parent", "auto-slug"];
      assert parts[1..][1..] == ["auto-slug"];
    }
    ExplodeUnique(Sep, parts, generated);
  }

  lemma FlattenedTailOfExample(sanitized: string)
    requires sanitized == "/my-page/sub"
    ensures FlattenedTail(sanitized) == "my-page-sub"
  {
    var rest := Substr(sanitized, 1);
    assert rest == "my-page/sub";
    var r := StrReplace(Sep, Flattened, rest);
    assert |r| == 11;
    forall i | 0 <= i < 11 ensures r[i] == "my-page-sub"[i] {
    }
  }

  /** An unknown mode is rejected before any slug is produced. */
  lemma UnknownModeRejected()
    ensures ModifiedSuggest(PageRequest(Some("bogus"), map[]),
                            Env(false, "", [], Helper("/about", "", true)))
         == Failure(InvalidMode)
    ensures ModifiedSuggest(PageRequest(Some("bogus"), map[]),
                            Env(false, "", [], Helper("/about", "", true))).error.Code()
         == 1535835666
  {
  }

  /** An absent or empty mode is rejected as well, even when the site check
      would have found a collision: the conflict flag, which only an empty
      mode could raise, never reaches a response. */
  lemma EmptyModeRejected()
    ensures ModifiedSuggest(PageRequest(None, map[]),
                            Env(false, "uniqueInSite", ["uniqueInSite"], Helper("/about", "", false)))
         == Failure(InvalidMode)
    ensures ModifiedSuggest(PageRequest(Some(""), map[]),
                            Env(false, "uniqueInSite", ["uniqueInSite"], Helper("/about", "", false)))
         == Failure(InvalidMode)
  {
  }

  /** In `auto` mode a site collision is resolved, yet not reported. */
  lemma CollisionResolvedSilently()
    ensures ModifiedSuggest(PageRequest(Some("auto"), map[]),
                            Env(false, "uniqueInSite", ["uniqueInSite"], Helper("/about", "", false)))
         == Success(Payload(false, "", "/about-1", None, false))
  {
    var h := Helper("/about", "", false);
    var env := Env(false, "uniqueInSite", ["uniqueInSite"], h);
    var req := PageRequest(Some("auto"), map[]);
    assert EvalTokens(env) == ["uniqueInSite"];
    var state := RecordState("pages", DataOf(req, env), 12, 0);
    assert Resolve(h, "/about", state, true, false).proposal == "/about" + "-1";
    assert "/about" + "-1" == "/about-1";
  }

  /** A missing field configuration wins over an invalid mode. */
  lemma MissingConfigurationFirst()
    ensures ModifiedSuggest(PageRequest(Some("bogus"), map[]),
                            Env(false, "", [], Helper("/about", "", true)).(fieldConfig := map[]))
         == Failure(MissingFieldConfiguration("pages", "slug"))
    ensures ModifiedSuggest(PageRequest(Some("bogus"), map[]),
                            Env(false, "", [], Helper("/about", "", true)).(fieldConfig := map[])).error.Code()
         == 1535379534
  {
  }
}
