/**
 * Who may see a page: the rule applied when one page is fetched (its record
 * or its content), the different rule applied while listing, and the
 * section filter of the listing.
 */
module Access {
  import opened PageTypes

  /**
   * The single-page rule: HIDDEN only for an administrator, PRIVATE for any
   * profile except none and Guest, every other status for everybody.
   */
  function SinglePageVisible(status: PageStatus, profile: Option<Profile>): (r: bool)
    ensures status == Hidden ==> (r <==> profile == Some(Administrator))
    ensures status == Private ==> (r <==> profile.Some? && profile != Some(Guest))
    ensures status != Hidden && status != Private ==> r
  {
    if status == Hidden && profile != Some(Administrator) then false
    else if status == Private && (profile.None? || profile == Some(Guest)) then false
    else true
  }

  /**
   * The listing rule: HIDDEN for an administrator, PRIVATE for a profile other
   * than none and Guest, PUBLIC for everybody, PUBLIC_ONLY for unauthenticated
   * callers only, and DRAFT for nobody.
   */
  function ListVisible(status: PageStatus, caller: Caller): (r: bool)
    ensures status == Hidden ==> (r <==> caller.profile == Some(Administrator))
    ensures status == Private ==> (r <==> caller.profile.Some? && caller.profile != Some(Guest))
    ensures status == Public ==> r
    ensures status == PublicOnly ==> (r <==> !caller.authenticated)
    ensures status == DraftStatus ==> !r
  {
    || (status == Hidden && caller.profile == Some(Administrator))
    || (status == Private && caller.profile.Some? && caller.profile != Some(Guest))
    || status == Public
    || (status == PublicOnly && !caller.authenticated)
  }

  /**
   * The section filter of the listing: no section or ALL requested keeps every
   * page; otherwise a page is kept when its sections hold ALL or the requested one.
   */
  function SectionMatches(sections: seq<PageSection>, section: Option<PageSection>): (r: bool)
    ensures section.None? || section == Some(All) ==> r
    ensures section.Some? && section != Some(All) ==> (r <==> All in sections || section.value in sections)
  {
    if section.None? || section == Some(All) then true
    else All in sections || section.value in sections
  }

  /**
   * checkPermissionsOnSinglePageAndReturn: a missing page is not found; a
   * present one is returned when the single-page rule admits the caller and
   * forbidden otherwise.
   */
  function CheckPermissions(page: Option<Page>, profile: Option<Profile>): (r: Result<Page>)
    ensures page.None? ==> r == Err(NotFound)
    ensures page.Some? ==> (r.Ok? <==> SinglePageVisible(page.value.status, profile))
    ensures page.Some? && r.Ok? ==> r.value == page.value
    ensures page.Some? && r.Err? ==> r.error == Forbidden
  {
    match page
    case None => Err(NotFound)
    case Some(p) => if SinglePageVisible(p.status, profile) then Ok(p) else Err(Forbidden)
  }

  /** The content endpoint answers the stored bytes when there are any, else the link (possibly null). */
  function PageContent(p: Page): (r: Body)
    ensures HasData(p) ==> r == Document(p.data.value)
    ensures !HasData(p) ==> r == LinkText(p.link)
  {
    if p.data.Some? && |p.data.value| > 0 then Document(p.data.value) else LinkText(p.link)
  }

  /** Whatever a caller may list, that caller may also fetch. */
  lemma ListableIsFetchable(status: PageStatus, caller: Caller)
    ensures ListVisible(status, caller) ==> SinglePageVisible(status, caller.profile)
  {
  }

  /**
   * The two rules disagree: a DRAFT page can be fetched by anyone yet is never
   * listed, and a PUBLIC_ONLY page can be fetched by an authenticated caller
   * who does not see it listed.
   */
  lemma FetchableButNotListable(caller: Caller)
    ensures SinglePageVisible(DraftStatus, caller.profile) && !ListVisible(DraftStatus, caller)
    ensures caller.authenticated ==>
      SinglePageVisible(PublicOnly, caller.profile) && !ListVisible(PublicOnly, caller)
  {
  }

  /** A HIDDEN page is neither fetched nor listed for anyone but an administrator; a PUBLIC one is for everyone. */
  lemma HiddenAndPublic(caller: Caller)
    ensures caller.profile != Some(Administrator) ==>
      !SinglePageVisible(Hidden, caller.profile) && !ListVisible(Hidden, caller)
    ensures SinglePageVisible(Public, caller.profile) && ListVisible(Public, caller)
  {
  }
}
