/**
 * The request validators of the page controller and the two helpers that
 * build a page's content: the placeholder of a new page and the filling of
 * its bytes or link from the request.
 */
module Validation {
  import opened PageTypes

  /** A non-blank link forces the LINK format, whatever format was requested. */
  function ForcedFormat(link: Option<string>, format: Option<PageFormat>): (r: Option<PageFormat>)
    ensures !IsBlank(link) ==> r == Some(Link)
    ensures IsBlank(link) ==> r == format
  {
    if !IsBlank(link) then Some(Link) else format
  }

  /** checkValidLanguage: the language must be one of the supported UI languages. */
  function CheckValidLanguage(env: Env, language: string): (r: Outcome)
    ensures r.Pass? <==> language in env.languages
    ensures r.Fail? ==> r.error == InvalidLanguage
  {
    if language in env.languages then Pass else Fail(InvalidLanguage)
  }

  /** checkMandatoryContent: a non-blank link or a non-empty upload must be given. */
  function CheckMandatoryContent(upload: Option<Upload>, link: Option<string>): (r: Outcome)
    ensures r.Pass? <==> !IsBlank(link) || HasContent(upload)
    ensures r.Fail? ==> r.error == MissingContent
  {
    if IsBlank(link) && !HasContent(upload) then Fail(MissingContent) else Pass
  }

  /** checkUniqueContent: a non-blank link and a non-empty upload may not come together. */
  function CheckUniqueContent(upload: Option<Upload>, link: Option<string>): (r: Outcome)
    ensures r.Fail? <==> !IsBlank(link) && HasContent(upload)
    ensures r.Fail? ==> r.error == ConflictingContent
  {
    if !IsBlank(link) && HasContent(upload) then Fail(ConflictingContent) else Pass
  }

  /**
   * checkCorrectFormat: LINK may not come with a non-empty upload, and any
   * other format (null included) may not come with a non-blank link.
   */
  function CheckCorrectFormat(upload: Option<Upload>, link: Option<string>, format: Option<PageFormat>): (r: Outcome)
    ensures r.Fail? <==>
      (format == Some(Link) && HasContent(upload)) || (format != Some(Link) && !IsBlank(link))
    ensures r.Fail? ==> r.error == InvalidFormat
  {
    if format == Some(Link) && HasContent(upload) then Fail(InvalidFormat)
    else if format != Some(Link) && !IsBlank(link) then Fail(InvalidFormat)
    else Pass
  }

  /** checkFileType: a given upload must carry an allowed file extension. */
  function CheckFileType(env: Env, upload: Option<Upload>): (r: Outcome)
    ensures r.Fail? <==> upload.Some? && !env.allowedExtension(upload.value.filename)
    ensures r.Fail? ==> r.error == UnsupportedFileType
  {
    if upload.Some? && !env.allowedExtension(upload.value.filename) then Fail(UnsupportedFileType)
    else Pass
  }

  /** getEmptyHiddenDraftPage: the placeholder a new page starts from. */
  function EmptyHiddenDraftPage(format: Option<PageFormat>): (r: Page)
    ensures r.data.None? && r.link.None? && r.format == format
    ensures r.sections == [Draft] && r.status == Hidden
  {
    Page(None, None, format, [Draft], Hidden)
  }

  /**
   * fillContent: a non-empty upload, once its file type passes, replaces the
   * bytes; then a link that is given but not a valid redirect is refused, and
   * otherwise the link is set to exactly what was supplied, null included.
   * Stored bytes are never cleared.
   */
  function FillContent(env: Env, upload: Option<Upload>, link: Option<string>, page: Page): (r: Result<Page>)
    ensures r.Ok? <==>
      && (HasContent(upload) ==> env.allowedExtension(upload.value.filename))
      && (link.Some? ==> env.validRedirect(link.value))
    ensures r.Err? && HasContent(upload) && !env.allowedExtension(upload.value.filename) ==>
      r.error == UnsupportedFileType
    ensures r.Err? && !(HasContent(upload) && !env.allowedExtension(upload.value.filename)) ==>
      r.error == InvalidLink
    ensures r.Ok? ==> r.value.link == link
    ensures r.Ok? && HasContent(upload) ==> r.value.data == Some(upload.value.bytes)
    ensures r.Ok? && !HasContent(upload) ==> r.value.data == page.data
    ensures r.Ok? ==> r.value.format == page.format && r.value.sections == page.sections && r.value.status == page.status
  {
    var filled :-
      if !HasContent(upload) then Ok(page)
      else if CheckFileType(env, upload).Fail? then Err(UnsupportedFileType)
      else Ok(page.(data := Some(upload.value.bytes)));
    if link.Some? && !env.validRedirect(link.value) then Err(InvalidLink)
    else Ok(filled.(link := link))
  }

  /**
   * Because a non-blank link forces LINK, the format check's second rule
   * (a link without LINK) can never fire: the only rejection left is LINK
   * together with a non-empty upload.
   */
  lemma ForcedFormatOnlyRejectsUpload(upload: Option<Upload>, link: Option<string>, format: Option<PageFormat>)
    ensures CheckCorrectFormat(upload, link, ForcedFormat(link, format)).Fail? <==>
      ForcedFormat(link, format) == Some(Link) && HasContent(upload)
  {
  }

  /** The mandatory and uniqueness checks together admit exactly one kind of content. */
  lemma ContentChecksAdmitExactlyOne(upload: Option<Upload>, link: Option<string>)
    ensures CheckMandatoryContent(upload, link).Pass? && CheckUniqueContent(upload, link).Pass? <==>
      (!IsBlank(link) != HasContent(upload))
  {
  }
}
