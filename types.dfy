/**
 * The entities of the static-page subsystem: page identities, page records,
 * their closed enumerations, the request inputs that arrive as loosely typed
 * (nullable) parameters, the caller's context, and the error kinds.
 */
module PageTypes {

  /** A Java reference that may be null. */
  datatype Option<+T> = None | Some(value: T)

  /** The outcome of an operation that yields a value or raises one of the errors below. */
  datatype Result<+T> = Ok(value: T) | Err(error: Error) {
    predicate IsFailure() { Err? }

    function PropagateFailure<U>(): Result<U>
      requires Err?
    {
      Err(error)
    }

    function Extract(): T
      requires Ok?
    {
      value
    }
  }

  /** The outcome of a check or of an operation that returns nothing. */
  datatype Outcome = Pass | Fail(error: Error)

  /** The exceptions and error responses the controller produces. */
  datatype Error =
    | InvalidLanguage      // checkValidLanguage
    | MissingContent       // checkMandatoryContent
    | ConflictingContent   // checkUniqueContent
    | InvalidFormat        // checkCorrectFormat
    | UnsupportedFileType  // checkFileType
    | InvalidLink          // fillContent: the link is not a valid redirect
    | AlreadyExists        // ResourceAlreadyExistException
    | NotFound             // ResourceNotFoundException / 404
    | Forbidden            // 403

  datatype PageFormat = Html | Text | Markdown | Link

  datatype PageSection = All | Draft | Header | Footer

  datatype PageStatus = Hidden | DraftStatus | Private | Public | PublicOnly

  /** The caller's profile; every profile other than these two behaves alike here. */
  datatype Profile = Administrator | Guest | OtherProfile

  newtype byte = x: int | 0 <= x < 256

  /** The composite primary key of a page. */
  datatype PageIdentity = PageIdentity(language: string, pageId: string)

  /** A stored page; its identity is the key under which the store holds it. */
  datatype Page = Page(
    data: Option<seq<byte>>,
    link: Option<string>,
    format: Option<PageFormat>,
    sections: seq<PageSection>,
    status: PageStatus)

  /** An uploaded multipart file: its original name and its bytes. */
  datatype Upload = Upload(filename: string, bytes: seq<byte>)

  /** A page as returned by a listing, together with its identity. */
  datatype Entry = Entry(id: PageIdentity, page: Page)

  /** What the content endpoint answers: the stored bytes, or else the (possibly null) link. */
  datatype Body = Document(bytes: seq<byte>) | LinkText(link: Option<string>)

  /** The session of the caller, passed explicitly. */
  datatype Caller = Caller(profile: Option<Profile>, authenticated: bool)

  /**
   * The collaborators whose code is not part of this model: the supported UI
   * languages, the redirect-safety check on links and the file-extension
   * allow-list applied to upload names.
   */
  datatype Env = Env(
    languages: set<string>,
    validRedirect: string -> bool,
    allowedExtension: string -> bool)

  /**
   * The parameters of addPage. Every optional request parameter is an Option;
   * the multipart file is an Upload.
   */
  datatype CreateRequest = CreateRequest(
    language: string,
    pageId: string,
    sections: Option<seq<PageSection>>,
    status: Option<PageStatus>,
    upload: Option<Upload>,
    link: Option<string>,
    format: Option<PageFormat>)

  /** The parameters of updatePage: the current identity, the optional new one, and the optional edits. */
  datatype UpdateRequest = UpdateRequest(
    language: string,
    pageId: string,
    newLanguage: Option<string>,
    newPageId: Option<string>,
    sections: Option<seq<PageSection>>,
    status: Option<PageStatus>,
    upload: Option<Upload>,
    link: Option<string>,
    format: Option<PageFormat>)

  type Store = map<PageIdentity, Page>

  /**
   * Java's Character.isWhitespace as defined from JDK 9 on (JDK 8 also
   * counted U+180E, which this table leaves out). A Dafny char is a Unicode scalar value
   * rather than a UTF-16 code unit; the two agree here because no character
   * outside the Basic Multilingual Plane is whitespace in Java.
   */
  predicate IsWhitespace(c: char) {
    var n := c as int;
    || 0x09 <= n <= 0x0D
    || 0x1C <= n <= 0x20
    || n == 0x1680
    || 0x2000 <= n <= 0x2006
    || 0x2008 <= n <= 0x200A
    || n == 0x2028 || n == 0x2029 || n == 0x205F || n == 0x3000
  }

  /** StringUtils.isBlank: null, empty, or whitespace only. */
  predicate IsBlank(s: Option<string>): (r: bool)
    ensures s == Some("") ==> r
    ensures r <==> s.None? || forall c :: c in s.value ==> IsWhitespace(c)
    ensures s.Some? && !r ==> exists i :: 0 <= i < |s.value| && !IsWhitespace(s.value[i])
  {
    s.None? || forall i :: 0 <= i < |s.value| ==> IsWhitespace(s.value[i])
  }

  /** `data != null && !data.isEmpty()` on a multipart upload. */
  predicate HasContent(upload: Option<Upload>) {
    upload.Some? && |upload.value.bytes| > 0
  }

  /** The stored page holds non-empty bytes. */
  predicate HasData(p: Page) {
    p.data.Some? && |p.data.value| > 0
  }

  /**
   * The record invariant that every created page satisfies
   * (`CreatedPageWellFormed`) and that `updatePage` can break: exactly one
   * of the bytes and the link is set, and the format is LINK exactly when
   * the link is set.
   */
  predicate WellFormed(p: Page) {
    && (HasData(p) != p.link.Some?)
    && (p.format == Some(Link) <==> p.link.Some?)
  }

  /** Redirect safety never admits a blank string (a valid redirect starts with "/" or a scheme). */
  ghost predicate RedirectsNonBlank(env: Env) {
    forall l :: env.validRedirect(l) ==> !IsBlank(Some(l))
  }
}
