/**
 * What each operation of the page controller does to the page store, stated
 * as functions from the old store to the new one (an error leaves the store
 * as it was), and the properties of those operations.
 */
module StoreSpec {
  import opened PageTypes
  import opened Validation
  import opened Access

  /** searchPage: the page stored under the key, or NotFound. */
  function SearchPage(m: Store, key: PageIdentity): (r: Result<Page>)
    ensures r.Ok? <==> key in m
    ensures r.Ok? ==> r.value == m[key]
    ensures r.Err? ==> r.error == NotFound
  {
    if key in m then Ok(m[key]) else Err(NotFound)
  }

  /** Supplied sections replace the list wholesale, in the given order; a supplied status replaces the status. */
  function Place(p: Page, sections: Option<seq<PageSection>>, status: Option<PageStatus>): (r: Page)
    ensures r.data == p.data && r.link == p.link && r.format == p.format
    ensures sections.Some? ==> r.sections == sections.value
    ensures sections.None? ==> r.sections == p.sections
    ensures status.Some? ==> r.status == status.value
    ensures status.None? ==> r.status == p.status
  {
    p.(sections := if sections.Some? then sections.value else p.sections,
       status := if status.Some? then status.value else p.status)
  }

  /** addPage. */
  function Create(m: Store, env: Env, req: CreateRequest): (r: Result<Store>)
    ensures req.language !in env.languages ==> r == Err(InvalidLanguage)
    ensures PageIdentity(req.language, req.pageId) in m ==> r.Err?
    ensures r.Ok? ==>
      var key := PageIdentity(req.language, req.pageId);
      && r.value.Keys == m.Keys + {key}
      && (forall k :: k in m ==> r.value[k] == m[k])
  {
    var format := ForcedFormat(req.link, req.format);
    var key := PageIdentity(req.language, req.pageId);
    if req.language !in env.languages then Err(InvalidLanguage)
    else if IsBlank(req.link) && !HasContent(req.upload) then Err(MissingContent)
    else if !IsBlank(req.link) && HasContent(req.upload) then Err(ConflictingContent)
    else if CheckCorrectFormat(req.upload, req.link, format).Fail? then Err(InvalidFormat)
    else if key in m then Err(AlreadyExists)
    else
      var filled :- FillContent(env, req.upload, req.link, EmptyHiddenDraftPage(format));
      Ok(m[key := Place(filled, req.sections, req.status)])
  }

  /**
   * The field edits of updatePage on the stored page: new content when an
   * upload or a link is supplied (null and empty both count as supplied
   * here), the format when one is supplied or forced, then sections and status.
   */
  function EditPage(env: Env, page: Page, req: UpdateRequest): (r: Result<Page>)
    ensures r.Err? ==> r.error in {ConflictingContent, UnsupportedFileType, InvalidLink, InvalidFormat}
    ensures !IsBlank(req.link) && HasContent(req.upload) ==> r == Err(ConflictingContent)
    ensures req.upload.None? && req.link.None? && req.format.None? ==> r == Ok(Place(page, req.sections, req.status))
  {
    var format := ForcedFormat(req.link, req.format);
    var filled :-
      if req.upload.None? && req.link.None? then Ok(page)
      else if !IsBlank(req.link) && HasContent(req.upload) then Err(ConflictingContent)
      else FillContent(env, req.upload, req.link, page);
    if format.Some? && CheckCorrectFormat(req.upload, req.link, format).Fail? then Err(InvalidFormat)
    else Ok(Place(filled.(format := if format.Some? then format else filled.format), req.sections, req.status))
  }

  /**
   * The identity updatePage moves the page to, or None when it stays. The page
   * stays only when both new fields are given and equal the current ones;
   * otherwise a blank new field defaults to the current value.
   */
  function RenameTarget(key: PageIdentity, newLanguage: Option<string>, newPageId: Option<string>): (r: Option<PageIdentity>)
    ensures r.None? <==> newLanguage == Some(key.language) && newPageId == Some(key.pageId)
    ensures r.Some? ==> r.value.language == (if IsBlank(newLanguage) then key.language else newLanguage.value)
    ensures r.Some? ==> r.value.pageId == (if IsBlank(newPageId) then key.pageId else newPageId.value)
  {
    if newLanguage == Some(key.language) && newPageId == Some(key.pageId) then None
    else
      Some(PageIdentity(
        if IsBlank(newLanguage) then key.language else newLanguage.value,
        if IsBlank(newPageId) then key.pageId else newPageId.value))
  }

  /** updatePage. */
  function Update(m: Store, env: Env, req: UpdateRequest): (r: Result<Store>)
    ensures req.language !in env.languages ==> r == Err(InvalidLanguage)
    ensures req.language in env.languages && PageIdentity(req.language, req.pageId) !in m ==> r == Err(NotFound)
    ensures r.Ok? ==>
      var key := PageIdentity(req.language, req.pageId);
      && key in m
      && |r.value| == |m|
      && (forall k :: k in m && k != key ==> k in r.value && r.value[k] == m[k])
  {
    var key := PageIdentity(req.language, req.pageId);
    if req.language !in env.languages then Err(InvalidLanguage)
    else if key !in m then Err(NotFound)
    else
      var page :- EditPage(env, m[key], req);
      match RenameTarget(key, req.newLanguage, req.newPageId)
      case None => Ok(m[key := page])
      case Some(target) =>
        if target.language !in env.languages then Err(InvalidLanguage)
        else if target in m then Err(AlreadyExists)
        else Ok((m - {key})[target := page])
  }

  /** deletePage. */
  function Delete(m: Store, key: PageIdentity): (r: Result<Store>)
    ensures r.Ok? <==> key in m
    ensures r.Err? ==> r.error == NotFound
    ensures r.Ok? ==> r.value.Keys == m.Keys - {key} && forall k :: k in r.value ==> r.value[k] == m[k]
  {
    if key !in m then Err(NotFound) else Ok(m - {key})
  }

  /** getPage: look the page up, then apply the single-page rule. */
  function Fetch(m: Store, key: PageIdentity, profile: Option<Profile>): (r: Result<Page>)
    ensures key !in m ==> r == Err(NotFound)
    ensures key in m ==> (r.Ok? <==> SinglePageVisible(m[key].status, profile))
    ensures key in m && r.Err? ==> r.error == Forbidden
    ensures r.Ok? ==> r.value == m[key]
  {
    var page :- SearchPage(m, key);
    CheckPermissions(Some(page), profile)
  }

  // ----- addPage -----

  /** The checks of addPage, in the order they run; any failure leaves the store as it was. */
  lemma CreateRejections(m: Store, env: Env, req: CreateRequest)
    ensures req.language !in env.languages ==> Create(m, env, req) == Err(InvalidLanguage)
    ensures req.language in env.languages && IsBlank(req.link) && !HasContent(req.upload) ==>
      Create(m, env, req) == Err(MissingContent)
    ensures req.language in env.languages && !IsBlank(req.link) && HasContent(req.upload) ==>
      Create(m, env, req) == Err(ConflictingContent)
    ensures PageIdentity(req.language, req.pageId) in m ==> Create(m, env, req).Err?
    ensures (&& PageIdentity(req.language, req.pageId) in m
             && req.language in env.languages
             && (!IsBlank(req.link) != HasContent(req.upload))
             && !(ForcedFormat(req.link, req.format) == Some(Link) && HasContent(req.upload)))
      ==> Create(m, env, req) == Err(AlreadyExists)
    ensures (&& req.language in env.languages
             && (!IsBlank(req.link) != HasContent(req.upload))
             && ForcedFormat(req.link, req.format) == Some(Link) && HasContent(req.upload))
      ==> Create(m, env, req) == Err(InvalidFormat)
    ensures (&& req.language in env.languages
             && (!IsBlank(req.link) != HasContent(req.upload))
             && !(ForcedFormat(req.link, req.format) == Some(Link) && HasContent(req.upload))
             && PageIdentity(req.language, req.pageId) !in m
             && HasContent(req.upload) && !env.allowedExtension(req.upload.value.filename))
      ==> Create(m, env, req) == Err(UnsupportedFileType)
    ensures (&& req.language in env.languages
             && (!IsBlank(req.link) != HasContent(req.upload))
             && !(ForcedFormat(req.link, req.format) == Some(Link) && HasContent(req.upload))
             && PageIdentity(req.language, req.pageId) !in m
             && (HasContent(req.upload) ==> env.allowedExtension(req.upload.value.filename))
             && req.link.Some? && !env.validRedirect(req.link.value))
      ==> Create(m, env, req) == Err(InvalidLink)
  {
    ForcedFormatOnlyRejectsUpload(req.upload, req.link, req.format);
  }

  /** addPage succeeds exactly when every one of its checks passes. */
  lemma CreateSucceeds(m: Store, env: Env, req: CreateRequest)
    ensures Create(m, env, req).Ok? <==>
      && req.language in env.languages
      && (!IsBlank(req.link) != HasContent(req.upload))
      && !(ForcedFormat(req.link, req.format) == Some(Link) && HasContent(req.upload))
      && PageIdentity(req.language, req.pageId) !in m
      && (HasContent(req.upload) ==> env.allowedExtension(req.upload.value.filename))
      && (req.link.Some? ==> env.validRedirect(req.link.value))
  {
    ForcedFormatOnlyRejectsUpload(req.upload, req.link, req.format);
  }

  /** A successful addPage adds exactly one key, previously absent, and changes no other. */
  lemma CreateAddsOneKey(m: Store, env: Env, req: CreateRequest)
    requires Create(m, env, req).Ok?
    ensures var key := PageIdentity(req.language, req.pageId);
      var m' := Create(m, env, req).value;
      && key !in m
      && m'.Keys == m.Keys + {key}
      && |m'| == |m| + 1
      && forall k :: k in m ==> m'[k] == m[k]
  {
  }

  /**
   * The page addPage stores: HIDDEN and [DRAFT] unless status and sections are
   * supplied, the link exactly as supplied, the bytes of a non-empty upload
   * and nothing otherwise, and LINK whenever the link is non-blank.
   */
  lemma CreatedPage(m: Store, env: Env, req: CreateRequest)
    requires Create(m, env, req).Ok?
    ensures var p := Create(m, env, req).value[PageIdentity(req.language, req.pageId)];
      && p.status == (if req.status.Some? then req.status.value else Hidden)
      && p.sections == (if req.sections.Some? then req.sections.value else [Draft])
      && p.link == req.link
      && p.data == (if HasContent(req.upload) then Some(req.upload.value.bytes) else None)
      && p.format == ForcedFormat(req.link, req.format)
      && (!IsBlank(req.link) ==> p.format == Some(Link))
  {
  }

  /**
   * When valid redirects are never blank, a page that addPage stores holds
   * exactly one of bytes and link, and is LINK exactly when it holds the link.
   */
  lemma CreatedPageWellFormed(m: Store, env: Env, req: CreateRequest)
    requires RedirectsNonBlank(env)
    requires Create(m, env, req).Ok?
    ensures WellFormed(Create(m, env, req).value[PageIdentity(req.language, req.pageId)])
  {
    var p := Create(m, env, req).value[PageIdentity(req.language, req.pageId)];
    CreatedPage(m, env, req);
    if req.link.Some? {
      assert env.validRedirect(req.link.value);
      assert !IsBlank(req.link);
    }
  }

  /** After addPage, an administrator fetches the page as stored; without a supplied status nobody else may. */
  lemma CreateThenFetch(m: Store, env: Env, req: CreateRequest, profile: Option<Profile>)
    requires Create(m, env, req).Ok?
    ensures var key := PageIdentity(req.language, req.pageId);
      var m' := Create(m, env, req).value;
      && Fetch(m', key, Some(Administrator)) == Ok(m'[key])
      && (req.status.None? && profile != Some(Administrator) ==> Fetch(m', key, profile) == Err(Forbidden))
  {
  }

  // ----- updatePage -----

  /** updatePage checks the current language first, then that the page exists. */
  lemma UpdateEntryChecks(m: Store, env: Env, req: UpdateRequest)
    ensures req.language !in env.languages ==> Update(m, env, req) == Err(InvalidLanguage)
    ensures req.language in env.languages && PageIdentity(req.language, req.pageId) !in m ==>
      Update(m, env, req) == Err(NotFound)
  {
  }

  /**
   * The page updatePage stores: the bytes of a non-empty upload, else the old
   * bytes; the supplied link (null included) whenever an upload or a link was
   * supplied, else the old link; the supplied or forced format, else the old
   * one; the supplied sections and status, else the old ones.
   */
  lemma EditedPage(env: Env, page: Page, req: UpdateRequest)
    requires EditPage(env, page, req).Ok?
    ensures var p := EditPage(env, page, req).value;
      var forced := ForcedFormat(req.link, req.format);
      && p.data == (if HasContent(req.upload) then Some(req.upload.value.bytes) else page.data)
      && p.link == (if req.upload.Some? || req.link.Some? then req.link else page.link)
      && p.format == (if forced.Some? then forced else page.format)
      && (!IsBlank(req.link) ==> p.format == Some(Link))
      && p.sections == (if req.sections.Some? then req.sections.value else page.sections)
      && p.status == (if req.status.Some? then req.status.value else page.status)
  {
  }

  /**
   * The field edits of updatePage succeed exactly when the supplied content is
   * unique, its file type and link pass fillContent, and a LINK format (asked
   * for or forced) does not come with a non-empty upload.
   */
  lemma EditPageSucceeds(env: Env, page: Page, req: UpdateRequest)
    ensures EditPage(env, page, req).Ok? <==>
      && !(!IsBlank(req.link) && HasContent(req.upload))
      && (HasContent(req.upload) ==> env.allowedExtension(req.upload.value.filename))
      && (req.link.Some? ==> env.validRedirect(req.link.value))
      && !(ForcedFormat(req.link, req.format) == Some(Link) && HasContent(req.upload))
  {
    ForcedFormatOnlyRejectsUpload(req.upload, req.link, req.format);
  }

  /**
   * The rejections of updatePage once the page is found: conflicting content,
   * then fillContent's file type and link checks, then a LINK format with a
   * non-empty upload; after the edits, an unsupported target language, then
   * an occupied target.
   */
  lemma UpdateRejections(m: Store, env: Env, req: UpdateRequest)
    requires req.language in env.languages && PageIdentity(req.language, req.pageId) in m
    ensures !IsBlank(req.link) && HasContent(req.upload) ==> Update(m, env, req) == Err(ConflictingContent)
    ensures (&& !(!IsBlank(req.link) && HasContent(req.upload))
             && HasContent(req.upload) && !env.allowedExtension(req.upload.value.filename))
      ==> Update(m, env, req) == Err(UnsupportedFileType)
    ensures (&& !(!IsBlank(req.link) && HasContent(req.upload))
             && (HasContent(req.upload) ==> env.allowedExtension(req.upload.value.filename))
             && req.link.Some? && !env.validRedirect(req.link.value))
      ==> Update(m, env, req) == Err(InvalidLink)
    ensures (&& !(!IsBlank(req.link) && HasContent(req.upload))
             && (HasContent(req.upload) ==> env.allowedExtension(req.upload.value.filename))
             && (req.link.Some? ==> env.validRedirect(req.link.value))
             && ForcedFormat(req.link, req.format) == Some(Link) && HasContent(req.upload))
      ==> Update(m, env, req) == Err(InvalidFormat)
    ensures var key := PageIdentity(req.language, req.pageId);
      var target := RenameTarget(key, req.newLanguage, req.newPageId);
      EditPage(env, m[key], req).Ok? && target.Some? && target.value.language !in env.languages ==>
      Update(m, env, req) == Err(InvalidLanguage)
    ensures var key := PageIdentity(req.language, req.pageId);
      var target := RenameTarget(key, req.newLanguage, req.newPageId);
      EditPage(env, m[key], req).Ok? && target.Some? && target.value.language in env.languages && target.value in m ==>
      Update(m, env, req) == Err(AlreadyExists)
  {
  }

  /**
   * updatePage succeeds exactly when the current language is supported, the
   * page exists, its field edits succeed and, when the page moves, the target
   * language is supported and the target identity is free.
   */
  lemma UpdateSucceeds(m: Store, env: Env, req: UpdateRequest)
    ensures var key := PageIdentity(req.language, req.pageId);
      var target := RenameTarget(key, req.newLanguage, req.newPageId);
      Update(m, env, req).Ok? <==>
        && req.language in env.languages
        && key in m
        && EditPage(env, m[key], req).Ok?
        && (target.Some? ==> target.value.language in env.languages && target.value !in m)
  {
  }

  /** An update that keeps the identity replaces the value at that key and nothing else. */
  lemma UpdateInPlace(m: Store, env: Env, req: UpdateRequest)
    requires Update(m, env, req).Ok?
    requires req.newLanguage == Some(req.language) && req.newPageId == Some(req.pageId)
    ensures var key := PageIdentity(req.language, req.pageId);
      var m' := Update(m, env, req).value;
      && key in m
      && EditPage(env, m[key], req).Ok?
      && m' == m[key := EditPage(env, m[key], req).value]
      && m'.Keys == m.Keys
      && forall k :: k in m && k != key ==> m'[k] == m[k]
  {
  }

  /**
   * A successful rename removes the old key and inserts the edited page under
   * the new one, which was free and differs from the old; nothing else changes.
   */
  lemma UpdateRename(m: Store, env: Env, req: UpdateRequest)
    requires Update(m, env, req).Ok?
    requires RenameTarget(PageIdentity(req.language, req.pageId), req.newLanguage, req.newPageId).Some?
    ensures var key := PageIdentity(req.language, req.pageId);
      var target := RenameTarget(key, req.newLanguage, req.newPageId).value;
      var m' := Update(m, env, req).value;
      && key in m && target !in m && target != key
      && target.language in env.languages
      && EditPage(env, m[key], req).Ok?
      && m'.Keys == m.Keys - {key} + {target}
      && |m'| == |m|
      && m'[target] == EditPage(env, m[key], req).value
      && forall k :: k in m && k != key ==> m'[k] == m[k]
  {
    var key := PageIdentity(req.language, req.pageId);
    var target := RenameTarget(key, req.newLanguage, req.newPageId).value;
    var m' := Update(m, env, req).value;
    assert (m - {key}).Keys == m.Keys - {key};
    assert |m - {key}| == |m| - 1;
  }

  /**
   * An update that omits both new-identity fields never succeeds: it takes the
   * rename path, the target defaults to the page's own key, and that key exists.
   */
  lemma UpdateWithoutNewIdentityCollides(m: Store, env: Env, req: UpdateRequest)
    requires req.newLanguage.None? && req.newPageId.None?
    ensures Update(m, env, req).Err?
    ensures var key := PageIdentity(req.language, req.pageId);
      req.language in env.languages && key in m && EditPage(env, m[key], req).Ok? ==>
      Update(m, env, req) == Err(AlreadyExists)
  {
    var key := PageIdentity(req.language, req.pageId);
    assert RenameTarget(key, req.newLanguage, req.newPageId) == Some(key);
  }

  /** An update that supplies only a status changes only the status. */
  lemma UpdateStatusOnly(m: Store, env: Env, req: UpdateRequest)
    requires req.newLanguage == Some(req.language) && req.newPageId == Some(req.pageId)
    requires req.upload.None? && req.link.None? && req.format.None? && req.sections.None?
    requires req.status.Some?
    requires req.language in env.languages && PageIdentity(req.language, req.pageId) in m
    ensures var key := PageIdentity(req.language, req.pageId);
      Update(m, env, req) == Ok(m[key := m[key].(status := req.status.value)])
  {
  }

  /**
   * Supplying a valid link on update sets it and forces LINK, but keeps the
   * stored bytes: a page that held bytes then holds both, breaking the record
   * invariant.
   */
  lemma UpdateLinkKeepsData(m: Store, env: Env, req: UpdateRequest)
    requires req.newLanguage == Some(req.language) && req.newPageId == Some(req.pageId)
    requires req.upload.None? && req.link.Some? && !IsBlank(req.link)
    requires Update(m, env, req).Ok?
    ensures var key := PageIdentity(req.language, req.pageId);
      var p := Update(m, env, req).value[key];
      && p.data == m[key].data
      && p.link == req.link
      && p.format == Some(Link)
      && (HasData(m[key]) ==> !WellFormed(p))
  {
  }

  /** An empty upload on update counts as supplied content: it clears the link and leaves the bytes. */
  lemma UpdateEmptyUploadClearsLink(m: Store, env: Env, req: UpdateRequest)
    requires req.newLanguage == Some(req.language) && req.newPageId == Some(req.pageId)
    requires req.upload.Some? && |req.upload.value.bytes| == 0 && req.link.None?
    requires Update(m, env, req).Ok?
    ensures var key := PageIdentity(req.language, req.pageId);
      var p := Update(m, env, req).value[key];
      p.link.None? && p.data == m[key].data
  {
  }

  /**
   * On update the format check sees only the request: asking for LINK with no
   * upload and no link succeeds on a page that holds bytes, and the stored page
   * stops being well formed.
   */
  lemma UpdateFormatIgnoresStoredContent(m: Store, env: Env, req: UpdateRequest)
    requires req.newLanguage == Some(req.language) && req.newPageId == Some(req.pageId)
    requires req.upload.None? && req.link.None? && req.format == Some(Link)
    requires req.sections.None? && req.status.None?
    requires req.language in env.languages
    requires var key := PageIdentity(req.language, req.pageId); key in m && WellFormed(m[key]) && HasData(m[key])
    ensures var key := PageIdentity(req.language, req.pageId);
      && Update(m, env, req) == Ok(m[key := m[key].(format := Some(Link))])
      && !WellFormed(m[key].(format := Some(Link)))
  {
  }

  // ----- deletePage -----

  /** deletePage fails on a missing key, else removes exactly that key; afterwards the page is not found. */
  lemma DeleteRemovesOneKey(m: Store, key: PageIdentity, profile: Option<Profile>)
    ensures key !in m ==> Delete(m, key) == Err(NotFound)
    ensures key in m ==>
      && Delete(m, key).Ok?
      && Delete(m, key).value.Keys == m.Keys - {key}
      && |Delete(m, key).value| == |m| - 1
      && (forall k :: k in m && k != key ==> Delete(m, key).value[k] == m[k])
      && Fetch(Delete(m, key).value, key, profile) == Err(NotFound)
  {
    if key in m {
      assert (m - {key}).Keys == m.Keys - {key};
    }
  }
}
