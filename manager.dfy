/**
 * The page controller over its store: a class holding the map from page
 * identity to page, whose methods validate a request and then create,
 * update, delete, fetch or list pages. Every mutating method is proved
 * against the store functions of StoreSpec, so the properties proved there
 * hold of it.
 */
module PagesApi {
  import opened PageTypes
  import opened Validation
  import opened Access
  import opened StoreSpec
  import opened Listing

  /** The sections list is cleared and the supplied sections are added one by one, in order. */
  method ReplaceSections(page: Page, supplied: seq<PageSection>) returns (p: Page)
    ensures p.sections == supplied
    ensures p.data == page.data && p.link == page.link && p.format == page.format && p.status == page.status
  {
    p := page.(sections := []);
    for i := 0 to |supplied|
      invariant p == page.(sections := supplied[..i])
    {
      p := p.(sections := p.sections + [supplied[i]]);
    }
  }

  /**
   * The field edits of updatePage, one setter at a time: the content through
   * fillContent when an upload or a link is supplied, the (possibly forced)
   * format after its check, then the sections and the status.
   */
  method EditStoredPage(env: Env, stored: Page, req: UpdateRequest) returns (r: Result<Page>)
    ensures r == EditPage(env, stored, req)
    ensures !IsBlank(req.link) && HasContent(req.upload) ==> r == Err(ConflictingContent)
    ensures r.Ok? <==>
      && !(!IsBlank(req.link) && HasContent(req.upload))
      && (HasContent(req.upload) ==> env.allowedExtension(req.upload.value.filename))
      && (req.link.Some? ==> env.validRedirect(req.link.value))
      && !(ForcedFormat(req.link, req.format) == Some(Link) && HasContent(req.upload))
    ensures r.Err? ==> r.error in {ConflictingContent, UnsupportedFileType, InvalidLink, InvalidFormat}
    ensures r.Ok? ==>
      var forced := ForcedFormat(req.link, req.format);
      && r.value.data == (if HasContent(req.upload) then Some(req.upload.value.bytes) else stored.data)
      && r.value.link == (if req.upload.Some? || req.link.Some? then req.link else stored.link)
      && r.value.format == (if forced.Some? then forced else stored.format)
      && r.value.sections == (if req.sections.Some? then req.sections.value else stored.sections)
      && r.value.status == (if req.status.Some? then req.status.value else stored.status)
  {
    EditPageSucceeds(env, stored, req);
    if EditPage(env, stored, req).Ok? {
      EditedPage(env, stored, req);
    }
    var format := req.format;
    if !IsBlank(req.link) {
      format := Some(Link);
    }
    var page := stored;
    if req.upload.Some? || req.link.Some? {
      var check := CheckUniqueContent(req.upload, req.link);
      if check.Fail? { return Err(check.error); }
      var filled := FillContent(env, req.upload, req.link, page);
      if filled.Err? { return filled; }
      page := filled.value;
    }
    if format.Some? {
      var check := CheckCorrectFormat(req.upload, req.link, format);
      if check.Fail? { return Err(check.error); }
      page := page.(format := format);
    }
    if req.sections.Some? {
      page := ReplaceSections(page, req.sections.value);
    }
    if req.status.Some? {
      page := page.(status := req.status.value);
    }
    r := Ok(page);
  }

  class PageManager {
    /** The page repository: each identity owns at most one page. */
    var pages: Store

    constructor (initial: Store)
      ensures pages == initial
    {
      pages := initial;
    }

    /** addPage. */
    method AddPage(env: Env, req: CreateRequest) returns (r: Outcome)
      modifies this
      ensures Create(old(pages), env, req).Ok? ==> r == Pass && pages == Create(old(pages), env, req).value
      ensures Create(old(pages), env, req).Err? ==> r == Fail(Create(old(pages), env, req).error) && pages == old(pages)
      ensures r.Pass? ==>
        var key := PageIdentity(req.language, req.pageId);
        key !in old(pages) && pages.Keys == old(pages).Keys + {key}
        && forall k :: k in old(pages) ==> pages[k] == old(pages)[k]
    {
      var format := req.format;
      if !IsBlank(req.link) {
        format := Some(Link);
      }
      var check := CheckValidLanguage(env, req.language);
      if check.Fail? { return check; }
      check := CheckMandatoryContent(req.upload, req.link);
      if check.Fail? { return check; }
      check := CheckUniqueContent(req.upload, req.link);
      if check.Fail? { return check; }
      check := CheckCorrectFormat(req.upload, req.link, format);
      if check.Fail? { return check; }

      var key := PageIdentity(req.language, req.pageId);
      if key in pages {
        return Fail(AlreadyExists);
      }
      var filled := FillContent(env, req.upload, req.link, EmptyHiddenDraftPage(format));
      if filled.Err? {
        return Fail(filled.error);
      }
      var page := filled.value;
      if req.sections.Some? {
        page := ReplaceSections(page, req.sections.value);
      }
      if req.status.Some? {
        page := page.(status := req.status.value);
      }
      pages := pages[key := page];
      r := Pass;
      CreateAddsOneKey(old(pages), env, req);
    }

    /** updatePage. */
    method UpdatePage(env: Env, req: UpdateRequest) returns (r: Outcome)
      modifies this
      ensures Update(old(pages), env, req).Ok? ==> r == Pass && pages == Update(old(pages), env, req).value
      ensures Update(old(pages), env, req).Err? ==> r == Fail(Update(old(pages), env, req).error) && pages == old(pages)
      ensures r.Pass? ==>
        var key := PageIdentity(req.language, req.pageId);
        key in old(pages) && forall k :: k in old(pages) && k != key ==> k in pages && pages[k] == old(pages)[k]
    {
      var check := CheckValidLanguage(env, req.language);
      if check.Fail? { return check; }

      var key := PageIdentity(req.language, req.pageId);
      var found := SearchPage(pages, key);
      if found.Err? { return Fail(found.error); }
      var edited := EditStoredPage(env, found.value, req);
      if edited.Err? { return Fail(edited.error); }
      var page := edited.value;

      if req.newLanguage != Some(req.language) || req.newPageId != Some(req.pageId) {
        var updatedLanguage := if IsBlank(req.newLanguage) then req.language else req.newLanguage.value;
        var updatedPageId := if IsBlank(req.newPageId) then req.pageId else req.newPageId.value;
        check := CheckValidLanguage(env, updatedLanguage);
        if check.Fail? { return check; }
        var newId := PageIdentity(updatedLanguage, updatedPageId);
        if newId in pages {
          return Fail(AlreadyExists);
        }
        pages := pages[newId := page];
        pages := pages - {key};
        assert pages == (old(pages) - {key})[newId := page];
      } else {
        pages := pages[key := page];
      }
      r := Pass;
    }

    /** deletePage. */
    method DeletePage(language: string, pageId: string) returns (r: Outcome)
      modifies this
      ensures Delete(old(pages), PageIdentity(language, pageId)).Ok? ==>
        r == Pass && pages == Delete(old(pages), PageIdentity(language, pageId)).value
      ensures Delete(old(pages), PageIdentity(language, pageId)).Err? ==>
        r == Fail(NotFound) && pages == old(pages)
      ensures r.Pass? <==> PageIdentity(language, pageId) in old(pages)
      ensures pages.Keys == old(pages).Keys - {PageIdentity(language, pageId)}
    {
      var key := PageIdentity(language, pageId);
      var found := SearchPage(pages, key);
      if found.Err? { return Fail(found.error); }
      pages := pages - {key};
      r := Pass;
    }

    /** getPage: NotFound for a missing page, Forbidden when the single-page rule refuses the caller. */
    method GetPage(language: string, pageId: string, caller: Caller) returns (r: Result<Page>)
      ensures r == Fetch(pages, PageIdentity(language, pageId), caller.profile)
      ensures PageIdentity(language, pageId) !in pages ==> r == Err(NotFound)
      ensures PageIdentity(language, pageId) in pages ==>
        && (r.Ok? <==> SinglePageVisible(pages[PageIdentity(language, pageId)].status, caller.profile))
        && (r.Ok? ==> r.value == pages[PageIdentity(language, pageId)])
        && (r.Err? ==> r.error == Forbidden)
    {
      var found := SearchPage(pages, PageIdentity(language, pageId));
      if found.Err? { return found; }
      r := CheckPermissions(Some(found.value), caller.profile);
    }

    /**
     * getPageContent: the same lookup and rule as getPage, answering the stored
     * bytes when there are any and the link otherwise.
     */
    method GetPageContent(language: string, pageId: string, caller: Caller) returns (r: Result<Body>)
      ensures PageIdentity(language, pageId) !in pages ==> r == Err(NotFound)
      ensures PageIdentity(language, pageId) in pages ==>
        var p := pages[PageIdentity(language, pageId)];
        && (r.Ok? <==> SinglePageVisible(p.status, caller.profile))
        && (r.Ok? && HasData(p) ==> r.value == Document(p.data.value))
        && (r.Ok? && !HasData(p) ==> r.value == LinkText(p.link))
        && (r.Err? ==> r.error == Forbidden)
    {
      var key := PageIdentity(language, pageId);
      if key !in pages {
        return Err(NotFound);
      }
      var page := pages[key];
      if page.status == Hidden && caller.profile != Some(Administrator) {
        return Err(Forbidden);
      } else if page.status == Private && (caller.profile.None? || caller.profile == Some(Guest)) {
        return Err(Forbidden);
      }
      r := Ok(PageContent(page));
    }

    /**
     * listPages: walks the repository's candidates (every page, or those of
     * one language) and keeps, in order, those the listing rule and the
     * section filter admit. The format parameter is accepted and ignored.
     */
    method ListPages(language: Option<string>, section: Option<PageSection>, format: Option<PageFormat>,
                     caller: Caller, storeOrder: seq<PageIdentity>) returns (r: seq<Entry>)
      requires Enumerates(storeOrder, pages)
      ensures r == Listed(pages, Candidates(storeOrder, language), section, caller)
      ensures forall e :: e in r <==>
        && e.id in pages && e.page == pages[e.id]
        && LanguageMatches(e.id, language)
        && ListVisible(e.page.status, caller)
        && SectionMatches(e.page.sections, section)
      ensures forall e :: e in r ==> e.page.status != DraftStatus
      ensures IsSubsequence(r, Entries(pages, Candidates(storeOrder, language)))
      ensures DistinctIds(r)
    {
      var candidates := Candidates(storeOrder, language);
      assert forall k :: k in candidates ==> k in pages;
      r := [];
      for i := 0 to |candidates|
        invariant r == Listed(pages, candidates[..i], section, caller)
      {
        var id := candidates[i];
        var page := pages[id];
        ListedSnoc(pages, candidates[..i], id, section, caller);
        assert candidates[..i + 1] == candidates[..i] + [id];
        if ListVisible(page.status, caller) {
          if section.None? || section == Some(All) {
            r := r + [Entry(id, page)];
          } else if All in page.sections || section.value in page.sections {
            r := r + [Entry(id, page)];
          }
        }
      }
      assert candidates[..|candidates|] == candidates;
      forall e ensures e in r <==> e.id in candidates && e.id in pages && e.page == pages[e.id] && Keep(e.page, section, caller) {
        ListedMembers(pages, candidates, section, caller, e);
      }
      ListedIsSubsequence(pages, candidates, section, caller);
      ListedDistinct(pages, candidates, section, caller);
    }
  }
}
