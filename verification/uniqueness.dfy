/** Lines 101-110 of the controller: the proposal is checked against the site
    and then against its page, each only when the field's `eval` list asks
    for it, and replaced by the helper's disambiguated slug when the check
    fails. The resolution records the helper queries in the order they are
    made, so that the order is something the contracts can speak about. */
module Uniqueness {
  import opened Collaborators

  /** One call into the slug helper, with the slug it was asked about. */
  datatype Query =
    | SiteCheck(slug: string)
    | SiteBuild(slug: string)
    | PidCheck(slug: string)
    | PidBuild(slug: string)
  {
    predicate IsSite() { SiteCheck? || SiteBuild? }
    predicate IsBuild() { SiteBuild? || PidBuild? }
  }

  /** The proposal after resolution, whether any resolution fired, and the
      queries made. */
  datatype Resolution = Resolution(proposal: string, hasConflict: bool, queries: seq<Query>)

  /** One resolution step: nothing when the constraint is off; otherwise a
      uniqueness check, followed by a rebuild when the check fails. */
  function Step(required: bool, isUnique: bool, rebuilt: string, proposal: string,
                check: Query, build: Query): Resolution
  {
    if !required then Resolution(proposal, false, [])
    else if isUnique then Resolution(proposal, false, [check])
    else Resolution(rebuilt, true, [check, build])
  }

  /** The site step on `proposal`. */
  function SiteStep(h: SlugHelper, proposal: string, state: RecordState, inSite: bool): Resolution {
    Step(inSite, inSite && h.isUniqueInSite(proposal, state),
         h.buildSlugForUniqueInSite(proposal, state), proposal,
         SiteCheck(proposal), SiteBuild(proposal))
  }

  /** The page step on `proposal`. */
  function PidStep(h: SlugHelper, proposal: string, state: RecordState, inPid: bool): Resolution {
    Step(inPid, inPid && h.isUniqueInPid(proposal, state),
         h.buildSlugForUniqueInPid(proposal, state), proposal,
         PidCheck(proposal), PidBuild(proposal))
  }

  /** What the proposal is once the site step is done. */
  function SiteResolved(h: SlugHelper, proposal: string, state: RecordState, inSite: bool): string {
    if inSite && !h.isUniqueInSite(proposal, state)
    then h.buildSlugForUniqueInSite(proposal, state)
    else proposal
  }

  /** Site resolution, then page resolution on its outcome. */
  function Resolve(h: SlugHelper, proposal: string, state: RecordState, inSite: bool, inPid: bool): (r: Resolution)
    // each check is made exactly when its constraint is on, about the right slug
    ensures inSite <==> SiteCheck(proposal) in r.queries
    ensures inPid <==> PidCheck(SiteResolved(h, proposal, state, inSite)) in r.queries
    // no site query comes after a page query
    ensures forall i, j :: 0 <= i < j < |r.queries| && r.queries[j].IsSite() ==> r.queries[i].IsSite()
    // a rebuild follows exactly a failed check
    ensures SiteBuild(proposal) in r.queries <==> inSite && !h.isUniqueInSite(proposal, state)
    ensures var p := SiteResolved(h, proposal, state, inSite);
      PidBuild(p) in r.queries <==> inPid && !h.isUniqueInPid(p, state)
    // the flag is raised exactly when some rebuild happened
    ensures r.hasConflict <==> exists q :: q in r.queries && q.IsBuild()
    // a proposal no rebuild touched is returned unchanged
    ensures !r.hasConflict ==> r.proposal == proposal
    ensures var p := SiteResolved(h, proposal, state, inSite);
      r.proposal == if inPid && !h.isUniqueInPid(p, state) then h.buildSlugForUniqueInPid(p, state) else p
    ensures |r.queries| <= 4
  {
    var site := SiteStep(h, proposal, state, inSite);
    var pid := PidStep(h, site.proposal, state, inPid);
    Resolution(pid.proposal, site.hasConflict || pid.hasConflict, site.queries + pid.queries)
  }
}
