# Static pages of the catalog: a verified model

This project models the static-page controller of the catalog application
(`PagesAPI`). A page is a localized content record keyed by its identity,
the pair (language, pageId). It holds either uploaded bytes or an external
link, plus a format, a list of sections and a visibility status. The
controller creates, updates, renames, deletes, fetches and lists pages. It
validates each request and checks every error before it writes to the store.

The model has these parts:

- `PageTypes` (`types.dfy`) holds the entities. A page identity, a page
  (`data`, `link`, `format`, `sections`, `status`), and the closed
  enumerations of formats, sections, statuses and profiles. It also holds
  the request records, the caller, and the environment `Env`. `Env` bundles
  the supported UI languages, an abstract redirect-safety check on links and
  an abstract file-extension allow-list. Java `null` is `None`.
  "Blank" is commons-lang `isBlank`: null, or only characters that Java's
  `Character.isWhitespace` accepts.
- `Validation` (`validation.dfy`) holds the request checks. It also holds
  the placeholder page that creation starts from and `FillContent`, which
  sets a page's bytes and link from the request.
- `Access` (`access.dfy`) holds the visibility rules. The single-page rule is
  used by `getPage` and `getPageContent`; the listing rule and the section
  filter are used by `listPages`.
- `StoreSpec` (`store.dfy`) states each store operation as a function from
  the old store to `Ok(new store)` or `Err(error)`:
  - `Create` is `addPage`.
  - `Update` is `updatePage`; its field edits are `EditPage`.
  - `Delete` is `deletePage`.
  - `Fetch` is `getPage`.

  The file also proves the properties of these functions.
- `Listing` (`listing.dfy`) defines the listing:
  - the repository's candidates, `Candidates`;
  - the filter the controller's loop computes, `Listed`.
- `PagesApi` (`manager.dfy`) holds the class `PageManager`. Its one field is
  the store, `pages: map<PageIdentity, Page>`. Each method does the
  controller's steps in the source's order: checks with early exits, field
  by field edits of a working page, the section list cleared and refilled
  by a loop, and the listing built by an appending loop. Each mutating
  method is proved equal to its `StoreSpec` function. So every property
  proved about `Create`, `Update` and `Delete` holds of the class.

The store is one finite map, so "the store is unchanged on error" and "no
other key changes" are stated as frame conditions. Errors are values of
`Error`: `InvalidLanguage`, `MissingContent`, `ConflictingContent`,
`InvalidFormat`, `UnsupportedFileType`, `InvalidLink`, `AlreadyExists`,
`NotFound`, `Forbidden`.

Behaviours of the code that a reader may not expect; the model keeps them as written:

- `updatePage` keeps the page's identity only when `newLanguage` and
  `newPageId` are both given and equal the current ones. When both are
  omitted, it takes the rename path: the target defaults to the page's own
  key, which exists. So such an update never succeeds; once the language,
  lookup, content, file-type, link and format checks pass, it fails with
  `AlreadyExists`.
- On update the format check looks only at the request parameters, never
  at the stored content. Asking for LINK on a page that holds bytes
  succeeds and leaves a page that is not well formed.
- Supplying a link on update does not clear stored bytes.
- An empty upload on update, with no link supplied, clears the stored link
  and keeps the stored bytes.
- `listPages` never lists a DRAFT page, though `getPage` serves one to
  anybody. It lists a PUBLIC_ONLY page only to unauthenticated callers,
  though `getPage` serves one to everybody.
- In `addPage`, the `AlreadyExists` check runs before the file-type and
  link checks inside `fillContent`.

## Model

| member | source | states |
|---|---|---|
| `PageTypes.IsBlank` | services/src/main/java/org/fao/geonet/api/pages/PagesAPI.java:103 | blank means null or made only of Java whitespace characters; the empty string is blank, and a non-blank string holds a non-whitespace character |
| `Validation.ForcedFormat` | services/src/main/java/org/fao/geonet/api/pages/PagesAPI.java:103-105 | a non-blank link yields LINK; otherwise the requested format (null included) is kept |
| `Validation.CheckValidLanguage` | services/src/main/java/org/fao/geonet/api/pages/PagesAPI.java:409-416 | passes exactly when the language is a supported UI language; otherwise InvalidLanguage |
| `Validation.CheckMandatoryContent` | services/src/main/java/org/fao/geonet/api/pages/PagesAPI.java:385-390 | passes exactly when the link is non-blank or the upload is non-empty; otherwise MissingContent |
| `Validation.CheckUniqueContent` | services/src/main/java/org/fao/geonet/api/pages/PagesAPI.java:392-397 | fails, with ConflictingContent, exactly when a non-blank link and a non-empty upload come together |
| `Validation.CheckCorrectFormat` | services/src/main/java/org/fao/geonet/api/pages/PagesAPI.java:375-383 | fails, with InvalidFormat, exactly for LINK with a non-empty upload or for a non-LINK (or null) format with a non-blank link |
| `Validation.CheckFileType` | services/src/main/java/org/fao/geonet/api/pages/PagesAPI.java:400-407 | fails, with UnsupportedFileType, exactly when an upload is given whose name has no allowed extension |
| `Validation.EmptyHiddenDraftPage` | services/src/main/java/org/fao/geonet/api/pages/PagesAPI.java:465-469 | the placeholder has no bytes, no link, the requested format, sections [DRAFT] and status HIDDEN |
| `Validation.FillContent` | services/src/main/java/org/fao/geonet/api/pages/PagesAPI.java:478-496 | succeeds exactly when a non-empty upload has an allowed extension and a given link is a valid redirect. A bad file type wins over a bad link. On success the bytes are replaced only by a non-empty upload and never cleared. The link becomes exactly the supplied value, null included. Nothing else changes |
| `Validation.ForcedFormatOnlyRejectsUpload` | services/src/main/java/org/fao/geonet/api/pages/PagesAPI.java:103-113 | after forcing, the format check fails only for LINK with a non-empty upload; its link rule can never fire |
| `Validation.ContentChecksAdmitExactlyOne` | services/src/main/java/org/fao/geonet/api/pages/PagesAPI.java:109-111 | the mandatory and uniqueness checks both pass exactly when one of a non-blank link and a non-empty upload is given |
| `Access.SinglePageVisible` | services/src/main/java/org/fao/geonet/api/pages/PagesAPI.java:430-433 | HIDDEN is visible only to an administrator. PRIVATE is visible to any profile except none and Guest. Every other status is visible to all |
| `Access.ListVisible` | services/src/main/java/org/fao/geonet/api/pages/PagesAPI.java:327-330 | HIDDEN is listed for an administrator. PRIVATE is listed for a profile other than none and Guest. PUBLIC is listed always. PUBLIC_ONLY is listed only when the caller is unauthenticated. DRAFT is never listed |
| `Access.SectionMatches` | services/src/main/java/org/fao/geonet/api/pages/PagesAPI.java:331-340 | no section or ALL keeps every page; otherwise a page is kept exactly when its sections hold ALL or the requested section |
| `Access.CheckPermissions` | services/src/main/java/org/fao/geonet/api/pages/PagesAPI.java:425-438 | a missing page is NotFound; a present one is returned unchanged when the single-page rule admits the caller, else Forbidden |
| `Access.PageContent` | services/src/main/java/org/fao/geonet/api/pages/PagesAPI.java:288-293 | the stored bytes when they are present and non-empty, else the stored link, which may be null |
| `Access.ListableIsFetchable` | services/src/main/java/org/fao/geonet/api/pages/PagesAPI.java:327-330 | whatever a caller may list, that caller may also fetch |
| `Access.FetchableButNotListable` | services/src/main/java/org/fao/geonet/api/pages/PagesAPI.java:283-286 | DRAFT is fetchable by anyone but never listed; PUBLIC_ONLY is fetchable by an authenticated caller who does not see it listed |
| `Access.HiddenAndPublic` | services/src/main/java/org/fao/geonet/api/pages/PagesAPI.java:326-330 | HIDDEN is neither fetched nor listed for a non-administrator; PUBLIC is fetched and listed for every caller |
| `StoreSpec.SearchPage` | services/src/main/java/org/fao/geonet/api/pages/PagesAPI.java:449-457 | returns the stored page exactly when the key is present, else NotFound |
| `StoreSpec.RenameTarget` | services/src/main/java/org/fao/geonet/api/pages/PagesAPI.java:197-199 | the page stays only when both new fields are given and equal the current ones; otherwise each blank new field defaults to the current value |
| `StoreSpec.Place` | services/src/main/java/org/fao/geonet/api/pages/PagesAPI.java:121-131 | supplied sections replace the list and a supplied status replaces the status; omitted ones keep the old values, and the bytes, link and format never change |
| `StoreSpec.Create` | services/src/main/java/org/fao/geonet/api/pages/PagesAPI.java:94-138 | an unsupported language is InvalidLanguage and an occupied key always fails; on success the store gains exactly the new key and every old key keeps its page |
| `StoreSpec.EditPage` | services/src/main/java/org/fao/geonet/api/pages/PagesAPI.java:167-195 | any failure is ConflictingContent, UnsupportedFileType, InvalidLink or InvalidFormat, and a non-blank link with a non-empty upload is ConflictingContent; with no upload, link or format supplied only sections and status are placed |
| `StoreSpec.Update` | services/src/main/java/org/fao/geonet/api/pages/PagesAPI.java:156-219 | an unsupported current language is InvalidLanguage, then a missing page NotFound; on success the page existed, the store keeps its size and every other key keeps its page |
| `StoreSpec.Delete` | services/src/main/java/org/fao/geonet/api/pages/PagesAPI.java:233-239 | succeeds exactly when the key exists, else NotFound; on success exactly that key is gone and every other page is unchanged |
| `StoreSpec.Fetch` | services/src/main/java/org/fao/geonet/api/pages/PagesAPI.java:252-259 | a missing key is NotFound; a present page is returned unchanged exactly when the single-page rule admits the profile, else Forbidden |
| `StoreSpec.CreateRejections` | services/src/main/java/org/fao/geonet/api/pages/PagesAPI.java:107-137 | an unsupported language fails first, then missing content, then conflicting content. A key already present always fails, and fails with AlreadyExists once the content and format checks pass. LINK with a non-empty upload is InvalidFormat; on a free key a disallowed upload name is then UnsupportedFileType, and after that an invalid redirect link is InvalidLink |
| `StoreSpec.CreateSucceeds` | services/src/main/java/org/fao/geonet/api/pages/PagesAPI.java:103-133 | a create succeeds exactly when the language is supported, exactly one of a non-blank link and a non-empty upload is given, a forced or requested LINK does not come with an upload, the key is free, a non-empty upload has an allowed extension and a given link is a valid redirect |
| `StoreSpec.CreateAddsOneKey` | services/src/main/java/org/fao/geonet/api/pages/PagesAPI.java:115-133 | a successful create adds exactly the previously absent key, grows the store by one and changes no other key |
| `StoreSpec.CreatedPage` | services/src/main/java/org/fao/geonet/api/pages/PagesAPI.java:118-131 | the new page is HIDDEN and [DRAFT] unless status and sections are supplied; supplied sections replace the list in their order. Its link is the supplied one; its bytes are those of a non-empty upload, else none. A non-blank link makes it LINK |
| `StoreSpec.CreatedPageWellFormed` | services/src/main/java/org/fao/geonet/api/pages/PagesAPI.java:103-133 | if valid redirects are never blank, a created page holds exactly one of bytes and link, and is LINK exactly when it holds the link |
| `StoreSpec.CreateThenFetch` | services/src/main/java/org/fao/geonet/api/pages/PagesAPI.java:252-259 | after a create an administrator fetches the stored page. Without a supplied status, any other caller gets Forbidden |
| `StoreSpec.UpdateEntryChecks` | services/src/main/java/org/fao/geonet/api/pages/PagesAPI.java:171-173 | update fails with InvalidLanguage on an unsupported current language, before looking the page up. It then fails with NotFound on a missing page |
| `StoreSpec.EditedPage` | services/src/main/java/org/fao/geonet/api/pages/PagesAPI.java:175-195 | the edited page takes the bytes of a non-empty upload, else keeps its bytes; takes the supplied link (null included) when an upload or link is supplied, else keeps its link; takes the supplied or forced format, else keeps it (LINK for a non-blank link); supplied sections and status replace the old ones |
| `StoreSpec.EditPageSucceeds` | services/src/main/java/org/fao/geonet/api/pages/PagesAPI.java:167-183 | the field edits succeed exactly when the content is unique, a non-empty upload has an allowed extension, a given link is a valid redirect, and a LINK format does not come with a non-empty upload |
| `StoreSpec.UpdateRejections` | services/src/main/java/org/fao/geonet/api/pages/PagesAPI.java:171-206 | for a found page of a supported language: ConflictingContent for a non-blank link with a non-empty upload; then UnsupportedFileType, then InvalidLink; then InvalidFormat for LINK with a non-empty upload; after the edits, InvalidLanguage for an unsupported target language and AlreadyExists for any occupied target |
| `StoreSpec.UpdateSucceeds` | services/src/main/java/org/fao/geonet/api/pages/PagesAPI.java:171-216 | an update succeeds exactly when the current language is supported, the page exists, the field edits succeed and, when the page moves, the target language is supported and the target identity is free |
| `StoreSpec.UpdateInPlace` | services/src/main/java/org/fao/geonet/api/pages/PagesAPI.java:214-216 | an update that keeps the identity replaces only the value at the old key with the edited page |
| `StoreSpec.UpdateRename` | services/src/main/java/org/fao/geonet/api/pages/PagesAPI.java:197-213 | a successful rename moves to a key that is free, supported and different from the old one. It removes the old key and stores the edited page under the new key. The store keeps its size and no other key changes |
| `StoreSpec.UpdateWithoutNewIdentityCollides` | services/src/main/java/org/fao/geonet/api/pages/PagesAPI.java:197-206 | with both new-identity fields omitted an update never succeeds. Once the earlier checks pass, it fails with AlreadyExists on the page's own key |
| `StoreSpec.UpdateStatusOnly` | services/src/main/java/org/fao/geonet/api/pages/PagesAPI.java:193-195 | with both identity fields given unchanged, an update supplying only a status succeeds and changes only the status |
| `StoreSpec.UpdateLinkKeepsData` | services/src/main/java/org/fao/geonet/api/pages/PagesAPI.java:175-178 | a link supplied on update is stored and forces LINK, but the stored bytes stay. A page that held bytes is then not well formed |
| `StoreSpec.UpdateEmptyUploadClearsLink` | services/src/main/java/org/fao/geonet/api/pages/PagesAPI.java:175-178 | an empty upload without a link clears the stored link and keeps the bytes |
| `StoreSpec.UpdateFormatIgnoresStoredContent` | services/src/main/java/org/fao/geonet/api/pages/PagesAPI.java:180-183 | LINK requested with no upload and no link passes the format check on a page holding bytes. Only the format changes, and the page stops being well formed |
| `StoreSpec.DeleteRemovesOneKey` | services/src/main/java/org/fao/geonet/api/pages/PagesAPI.java:233-239 | a missing key is NotFound; otherwise exactly that key is removed, nothing else changes, and a later fetch is NotFound |
| `Listing.Candidates` | services/src/main/java/org/fao/geonet/api/pages/PagesAPI.java:318-322 | the candidates are exactly the enumerated keys of the requested language (all keys when none is given). There are no more of them than keys, and no duplicates when the enumeration has none |
| `Listing.Listed` | services/src/main/java/org/fao/geonet/api/pages/PagesAPI.java:324-342 | the listing has no more entries than candidates, and every listed entry is a candidate carrying its stored page that passes visibility and the section filter |
| `Listing.ListedSnoc` | services/src/main/java/org/fao/geonet/api/pages/PagesAPI.java:326-342 | one more candidate extends the listing by that page exactly when it passes the filter |
| `Listing.ListedMembers` | services/src/main/java/org/fao/geonet/api/pages/PagesAPI.java:326-342 | an entry is listed exactly when its key is a candidate, it carries the stored page, and the page passes visibility and the section filter |
| `Listing.ListedIsSubsequence` | services/src/main/java/org/fao/geonet/api/pages/PagesAPI.java:324-342 | the listing is an order-preserving subsequence of the candidate entries |
| `Listing.ListedDistinct` | services/src/main/java/org/fao/geonet/api/pages/PagesAPI.java:324-342 | distinct candidates give a listing that names each page at most once |
| `PagesApi.ReplaceSections` | services/src/main/java/org/fao/geonet/api/pages/PagesAPI.java:121-127 | after clearing and adding one by one, the sections are exactly the supplied ones, in order; no other field changes |
| `PagesApi.EditStoredPage` | services/src/main/java/org/fao/geonet/api/pages/PagesAPI.java:167-195 | the setter-by-setter edits of an update yield exactly `EditPage`. They fail with ConflictingContent for a non-blank link with a non-empty upload, and succeed exactly when the content is unique, a non-empty upload has an allowed extension, a given link is a valid redirect, and a LINK format (asked for or forced) does not come with a non-empty upload; any other error is UnsupportedFileType, InvalidLink or InvalidFormat. On success the bytes are those of a non-empty upload, else the old ones; the link is the supplied one (null included) when an upload or a link was supplied, else the old one; the format is the supplied or forced one, else the old one; supplied sections and status replace the old ones |
| `PagesApi.PageManager.AddPage` | services/src/main/java/org/fao/geonet/api/pages/PagesAPI.java:94-138 | the new store is exactly the one `Create` gives, and an error leaves the store unchanged. On success exactly one absent key is added and the other keys keep their pages |
| `PagesApi.PageManager.UpdatePage` | services/src/main/java/org/fao/geonet/api/pages/PagesAPI.java:156-219 | the new store is exactly the one `Update` gives, and an error leaves the store unchanged. On success the old key existed and every other key keeps its page |
| `PagesApi.PageManager.DeletePage` | services/src/main/java/org/fao/geonet/api/pages/PagesAPI.java:233-239 | succeeds exactly when the key exists, and removes exactly that key; otherwise NotFound with the store unchanged |
| `PagesApi.PageManager.GetPage` | services/src/main/java/org/fao/geonet/api/pages/PagesAPI.java:252-259 | a missing page is NotFound. A present page is returned exactly when the single-page rule admits the caller, else Forbidden |
| `PagesApi.PageManager.GetPageContent` | services/src/main/java/org/fao/geonet/api/pages/PagesAPI.java:271-298 | a missing page is NotFound and a refused caller gets Forbidden. Otherwise the answer is the non-empty stored bytes, else the stored link |
| `PagesApi.PageManager.ListPages` | services/src/main/java/org/fao/geonet/api/pages/PagesAPI.java:308-345 | an entry is listed exactly when it is a stored page of the requested language that passes the listing rule and the section filter. So no DRAFT page is listed. The result is an order-preserving subsequence of the candidates and names each page once. The format parameter has no effect |

## Left out

- HTTP plumbing is not modelled: request mappings, response entities and status codes, the administrator-only `@PreAuthorize` guards, and the API documentation annotations. Outcomes are `Result`/`Outcome` values.
- The JPA repository and its transactions are not modelled; the store is a map. The rename path checks that the target is free and then writes. A concurrent create between the check and the write is a concurrency concern, and the model does not capture it.
- In the source, `fillContent` may set the bytes on the loaded entity before the link check throws. The model edits a working copy, which is discarded on any error. Persisting such a half-edited entity through the persistence context is not modelled.
- Reading the upload's bytes and wrapping a read failure into a server error (`IOFailure`) are left out, because this is I/O. So is the UTF-8 decoding of the bytes in `getPageContent`: content is an opaque byte sequence.
- Several collaborators' code is not part of this model and is taken as a parameter. `UrlUtils.isValidRedirectUrl` is `Env.validRedirect`. `FilenameUtils.getExtension` with `Page.PageExtension` is `Env.allowedExtension`. `languageUtils.getUiLanguages()` is `Env.languages`. The session from `ApiUtils.getUserSession` is the `Caller` (an optional profile and an authenticated flag).
- Every profile other than Administrator and Guest is one value, `OtherProfile`, because the code tests only those two. A null original file name and null elements inside the section array are not represented.
- `Page.java` is not part of this model. The model's sections are ALL, DRAFT, HEADER and FOOTER. The controller filters only on ALL and uses DRAFT only as the placeholder's section, so any other section the program defines behaves like HEADER and FOOTER. The model's formats are HTML, TEXT, MARKDOWN and LINK; among formats only LINK is treated specially.
- `IsWhitespace` follows `Character.isWhitespace` as defined from JDK 9 on; JDK 8 also counted U+180E as whitespace, which the model does not.
- `PageJSONWrapper` output shaping is not part of this model. `getPage` and `listPages` return the stored page itself, with its identity in a listing.
- The repository's enumeration order for `findAll` and `findByPageIdentityLanguage` is an explicit parameter of `ListPages`. Its precondition says only that the order lists every stored key exactly once.
- The `/config/formats`, `/config/sections` and `/config/status` enumerators are left out, because they only return the fixed values of the enumerations above.
