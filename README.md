# Secret library: a verified model of the store and its rules

The secret library is an invitation-only web application. Signed-in users upload EPUB and
PDF files as media items, tag them, group them in collections, move them to a trash that
is purged after a week, and convert PDFs to EPUBs. Newcomers get in only with an
invitation. This project models, in Dafny:

- the database behind all of it, as one object (`Store.Library`);
- every route handler and page handler that reads or changes the database, as a method
  or function over that object;
- the pure helpers around them (string trimming and splitting, HTML escaping, metadata
  mapping, date reformatting, the library search, the PDF reader's page arithmetic).

The model's conventions:

- Each table is a sequence of rows in insertion order. `findFirst` and `findUnique` take
  the first matching row.
- Every row id comes from one counter, so every new id is fresh.
- Many-to-many relations (media–tag, collection–media, book–tag) are sets of id pairs.
- Users are a map from email to id. The authentication adapter creates them; that
  adapter is not part of this model.
- The signed-in caller is an `Option<Id>` parameter, with `None` meaning no session.
- Time is an integer number of milliseconds, and a day is 86,400,000 ms.
- Blob storage is not called directly:
  - each purge appends the URLs it asks to delete to the `blobDeletes` log;
  - the URL an upload receives is a parameter.
- The random invitation token is a parameter of length 32.
- The PDF-to-EPUB converter is an oracle parameter. It maps a media id to a produced
  EPUB URL or to a failure message.

Each route's answer is an `Http.Response`: either a body or an error status with its
message. Every route method states how the store changes, down to the rows and links
it adds. Every refusal is proved to leave the store unchanged.

Modules follow the source files:

| module | models |
|---|---|
| `Store` | the database tables, their invariants, and the row operations the routes use |
| `Auth` | `src/lib/auth.ts` |
| `InvitationsApi`, `InvitationsPage` | `src/app/api/invitations/route.ts`, `src/app/invitations/page.tsx` |
| `MediaApi`, `CreateFromBlob`, `UploadApi` | the three upload paths |
| `MediaCleanup`, `DeletedApi`, `DeletedPage` | the trash: purge, listing, countdown |
| `CollectionsApi`, `BooksApi`, `ConvertApi` | collections, the legacy books, PDF-to-EPUB conversion |
| `PdfToEpub`, `Metadata`, `LibraryPage`, `PdfReader` | the pure helpers |
| `Text`, `TagParsing`, `Ordering`, `Wrappers`, `Http` | JavaScript string functions, tag parsing, `filter` / `orderBy`, and support types |

## Model

| member | source | states |
|---|---|---|
| Store.MediaIndex | src/app/api/media/route.ts:51-54 | the lookup by id finds a row with that id, or proves that no row has it |
| Store.TagIndex | src/app/api/media/route.ts:129-133 | the lookup by name finds a tag with that name, or proves that no tag has it |
| Store.OrNull | src/app/api/media/route.ts:97-100 | a field is stored exactly when it is present and non-empty, and then unchanged |
| Store.OrDefault | src/lib/pdf-to-epub.ts:47-50 | `x || fallback`: a present, non-empty value, or else the fallback; also the "Untitled" title of a completed upload and the "Not specified" email column |
| Store.FieldTagNames | src/app/api/media/route.ts:123-124 | a missing or empty tags field gives no names; otherwise the names are the parse of the field; every name given is non-empty, trimmed and comma-free |
| Store.Library.AttachFile | src/app/api/media/route.ts:49-77 | adding a file to an item refuses exactly a missing item, an item of another owner, or an item that already has that file type; otherwise exactly one file row is added; a refusal adds nothing; one file per type per item is kept |
| Store.Library.AddFile | src/app/api/media/route.ts:71-77 | adds exactly one file row, with a fresh id, to an item that has no file of that type yet |
| Store.Library.CreateMedia | src/app/api/media/route.ts:94-120 | a new active item with fresh id, given fields and owner, and its single file row |
| Store.Library.AddInvitation | src/app/api/invitations/route.ts:34-41 | appends one unused invitation with a fresh id and the given token, email, creator and times |
| Store.Library.AddCollection | src/app/api/collections/route.ts:86-91 | appends one collection with a fresh id; the (name, owner) pair stays unique |
| Store.Library.AddBook | src/app/api/books/route.ts:37-46 | appends one legacy book row with a fresh id and the given fields |
| Store.Library.UpsertTag | src/app/api/media/route.ts:129-133 | the tag of that name: the existing one with the table unchanged, or one new tag appended; tag names stay unique |
| Store.Library.UpsertTags | src/app/api/media/route.ts:126-136 | every name gets its tag; old tags are kept; each new tag is for a listed name not seen before, with a fresh id |
| Store.Library.ConnectMediaTags | src/app/api/media/route.ts:139-146 | the item is linked to exactly the given tags, and no other link changes |
| Store.Library.LinkTags | src/app/api/media/route.ts:123-146 | after the tag step each parsed name has exactly one tag, linked to the item; every new tag bears one of those names; the only new links are the item's, to tags of those names |
| Store.NamesLinked | src/app/api/media/route.ts:136-146 | linking the upserted tags links every name and nothing else |
| Store.Library.LinkBookTag | src/app/api/books/route.ts:54-72 | one turn of the book tag loop: find or create the tag, then one new book–tag link |
| Store.Library.DeleteMedia | src/app/api/media/cleanup/route.ts:68-74 | removes exactly the items with the given ids, with their files, tag links and collection entries; the count is the number of rows removed |
| Store.KeptRowsOk | src/app/api/media/cleanup/route.ts:68-74 | once nothing links to the removed items, the remaining media and files still satisfy the table invariants |
| Store.KeptMediaOk | src/app/api/media/cleanup/route.ts:68-74 | removing media rows keeps ids unique, and the remaining ids are the old ones minus the removed ones |
| Store.KeptFilesOk | src/app/api/media/cleanup/route.ts:68-74 | removing an item's files with the item keeps every file attached to an existing item, one per type |
| Auth.TokenIndex | src/lib/auth.ts:43-47 | the token lookup finds the invitation with that token, or proves that none has it |
| Auth.CookieInvitation | src/lib/auth.ts:38-52 | the cookie path picks this invitation only if the cookie names its token and it is unused, unexpired (inclusive) and general (no or an empty email) or addressed to this email |
| Auth.GateChoice | src/lib/auth.ts:25-98 | the decision, in the code's order: a registered email is admitted with no invitation read; a new user without a non-empty email is refused; otherwise the cookie's invitation comes first, then one addressed to the email, then one with a null email; only a consumable invitation is chosen; refusal happens exactly when all three lookups fail, and always when nothing is consumable |
| Auth.RefusedIffNothingConsumable | src/lib/auth.ts:25-98 | when no invitation has an empty email, a new user is refused exactly when they have no non-empty email or no invitation is consumable for it |
| Auth.SignIn | src/lib/auth.ts:25-98 | follows the decision, testing the email for truthiness as the code does; a registered user or a refusal changes no invitation; admitting a new user changes exactly one unused invitation, setting `usedAt` to now; a refusal redirects to `/auth/unauthorized` |
| Auth.MarkUsed | src/lib/auth.ts:54-57 | only the chosen invitation changes, and only its `usedAt`, to now |
| Auth.UsedStaysUsed | src/lib/auth.ts:49-52 | a consumed invitation is never consumable again, for any email at any later time; no other invitation changed |
| Auth.SessionCallback | src/lib/auth.ts:99-104 | the session keeps its expiry and user fields; the user id is set exactly when a user is present |
| InvitationsApi.ExpiryDays | src/app/api/invitations/route.ts:14 | the requested number of days, or 7 when none is given |
| InvitationsApi.InviteLink | src/app/api/invitations/route.ts:43 | the link starts with the base URL and ends with the token |
| InvitationsApi.LinkCarriesToken | src/app/api/invitations/route.ts:43 | the token and `/invite/` can be cut back out of the link |
| InvitationsApi.Create | src/app/api/invitations/route.ts:6-57 | 401 without a session; 400 without an email; 400 for an email that already has an account; 500 for a taken token; each refusal stores nothing; otherwise exactly one new unused invitation from the caller, expiring the requested number of days after now, and its link |
| InvitationsApi.CreatedInvitationAdmits | src/app/api/invitations/route.ts:34-41 | a new, unexpired invitation addressed to an address without an account lets that address sign in, consuming an invitation |
| InvitationsApi.AddressedInvitationIsPersonal | src/lib/auth.ts:49-84 | an invitation addressed to one email never admits another email |
| InvitationsApi.InvitationsBy | src/app/api/invitations/route.ts:67-74 | exactly the caller's invitations, every copy kept, newest `createdAt` first |
| InvitationsApi.List | src/app/api/invitations/route.ts:59-81 | 401 exactly without a session; otherwise the caller's invitations, newest first |
| InvitationsPage.StatusOf | src/app/invitations/page.tsx:194-206 | exactly one badge: Used iff `usedAt` is set; Expired iff unused and strictly past expiry; Active iff unused and not past expiry |
| InvitationsPage.ActiveIffConsumable | src/app/invitations/page.tsx:194-206 | the Active badge agrees with the sign-in gate's consumability test for the addressee |
| InvitationsPage.StatusOverTime | src/app/invitations/page.tsx:198-206 | an expired invitation stays expired, and an active one was active earlier |
| InvitationsPage.InvitationsPageState.constructor | src/app/invitations/page.tsx:16-22 | starts empty and loading, with the form cleared and 7 days preset |
| InvitationsPage.InvitationsPageState.Shown | src/app/invitations/page.tsx:158-209 | a loading message, the empty message, or one row per invitation, in order, with its email label and badge |
| InvitationsPage.InvitationsPageState.FetchInvitations | src/app/invitations/page.tsx:28-40 | a successful fetch replaces the list; a failed one keeps it; loading stops either way |
| InvitationsPage.InvitationsPageState.HandleCreate | src/app/invitations/page.tsx:42-69 | on success the link is shown, the error and email are cleared, and the list is refetched; on failure the server's or the generic message is shown with no link; an error is shown iff creation failed |
| MediaCleanup.PurgeSelection | src/app/api/media/cleanup/route.ts:15-29 | exactly the items deleted strictly more than seven days before now (`DueForPurge`) |
| MediaCleanup.FileUrls | src/app/api/media/cleanup/route.ts:40-47 | exactly the URLs of the item's files |
| MediaCleanup.AllBlobsComplete | src/app/api/media/cleanup/route.ts:39-63 | every file of a purged item, and its cover when present, gets a blob deletion request |
| MediaCleanup.AllBlobsSound | src/app/api/media/cleanup/route.ts:39-63 | every deletion request names a file or the cover of a purged item |
| MediaCleanup.RequestBlobDeletes | src/app/api/media/cleanup/route.ts:39-65 | the deletion log grows by exactly the selection's files and covers, item after item |
| MediaCleanup.KeptAreNotDue | src/app/api/media/cleanup/route.ts:68-79 | removing the selected ids keeps exactly the items not due; the number removed is the size of the selection |
| MediaCleanup.Cleanup | src/app/api/media/cleanup/route.ts:6-84 | 401 and no change without a session; otherwise only the due items go, with their files and links, after their blobs are requested; the count equals the selection's size; an empty selection reports the nothing-to-purge message; nothing due remains |
| MediaCleanup.Purge | src/app/api/media/cleanup/route.ts:39-79 | the purge proper: the same outcome, with the count and nothing due left |
| MediaCleanup.NothingSelected | src/app/api/media/cleanup/route.ts:31-36 | with nothing due, the early return loses nothing a purge would have done |
| MediaCleanup.NothingLeftDue | src/app/api/media/cleanup/route.ts:19-74 | after a purge, nothing left is due at the same time |
| MediaCleanup.PurgeAgain | src/app/api/media/cleanup/route.ts:19-74 | a second sweep at the same time or earlier selects nothing |
| MediaCleanup.ExactlyAWeek | src/app/api/media/cleanup/route.ts:15-23 | an item deleted exactly seven days ago is kept, and due one millisecond later |
| MediaCleanup.ActiveNeverPurged | src/app/api/media/cleanup/route.ts:21-24 | an item that is not deleted is never selected |
| MediaCleanup.PurgedMessage | src/app/api/media/cleanup/route.ts:76-79 | the success message differs from the nothing-to-purge one, and the number of purged items can be read back from it |
| DeletedApi.DeletedBy | src/app/api/media/deleted/route.ts:14-32 | exactly the caller's deleted items, every copy kept, latest deletion first |
| DeletedApi.ListDeleted | src/app/api/media/deleted/route.ts:5-39 | 401 exactly without a session; otherwise the caller's trash |
| DeletedPage.CeilDiv | src/app/library/deleted/page.tsx:65 | the least integer not below the quotient |
| DeletedPage.DaysLeft | src/app/library/deleted/page.tsx:60-67 | `max(0, ceil(remaining / day))`: a positive count N has the week's remaining time above (N-1) days and at most N days; zero means no time remains |
| DeletedPage.DaysLeftPositive | src/app/library/deleted/page.tsx:60-67 | days left is positive exactly while the week since deletion has not run out |
| DeletedPage.DaysLeftRoundsUp | src/app/library/deleted/page.tsx:65 | a positive count is the week's remaining time in days, rounded up |
| DeletedPage.DaysLeftAtMostAWeek | src/app/library/deleted/page.tsx:60-67 | after the deletion, at most seven days are ever shown |
| DeletedPage.DaysLeftMonotone | src/app/library/deleted/page.tsx:60-67 | days left never goes up as time passes |
| DeletedPage.DueMeansNoDaysLeft | src/app/library/deleted/page.tsx:60-67 | an item the purge would remove shows zero days |
| DeletedPage.PendingAtTheEndOfTheWeek | src/app/library/deleted/page.tsx:60-67 | at exactly seven days the page already shows pending while the purge still keeps the item |
| DeletedPage.CountdownLabel | src/app/library/deleted/page.tsx:173-177 | the pending message exactly at zero days; otherwise the countdown opens with "Will be permanently deleted in " |
| DeletedPage.CountdownReadsBack | src/app/library/deleted/page.tsx:173-177 | a positive count reads "…in N day" with an "s" iff N is not 1, and N can be read back from the text |
| DeletedPage.RestoreAlert | src/app/library/deleted/page.tsx:52 | the alert is the fixed prefix followed by the server's message, or by "undefined" when the reply has none |
| DeletedPage.DeletedPageState.constructor | src/app/library/deleted/page.tsx:21-22 | starts with no items, loading |
| DeletedPage.DeletedPageState.Shown | src/app/library/deleted/page.tsx:116-177 | a loading message, the empty message, or one card per item, in order, with its countdown line |
| DeletedPage.DeletedPageState.FetchDeleted | src/app/library/deleted/page.tsx:28-40 | a successful fetch replaces the list; a failed one keeps it; loading stops either way |
| DeletedPage.DeletedPageState.HandleRestore | src/app/library/deleted/page.tsx:42-58 | a successful restore refetches the list with no alert; a refusal or a network failure alerts and changes nothing |
| MediaApi.UploadFileType | src/app/api/media/route.ts:34-39 | exactly the EPUB and PDF content types are accepted, each as its own file type |
| MediaApi.MimeRoundTrip | src/app/api/media/route.ts:35-39 | the content type of each file type is accepted as that file type |
| MediaApi.ValidatedMediaType | src/app/api/media/route.ts:30-31 | a listed media type is kept; anything else, or none, becomes Book |
| MediaApi.MediaTypeRoundTrip | src/app/api/media/route.ts:30-31 | every media type survives being written out and validated again |
| MediaApi.AttachRefusal | src/app/api/media/route.ts:56-68 | a missing item answers 404, another owner's item 403, a duplicate file type 400 |
| MediaApi.AttachToExisting | src/app/api/media/route.ts:49-91 | 404, 403 and 400 exactly in those cases, with their messages, adding nothing; otherwise one file is added to the caller's item |
| MediaApi.CreateWithTags | src/app/api/media/route.ts:94-164 | a new item with its file, then every parsed tag name found or created once and linked to it |
| MediaApi.StoreUpload | src/app/api/media/route.ts:46-164 | an accepted upload goes to the named item under the attach rules, or becomes a new item with its tags |
| MediaApi.Post | src/app/api/media/route.ts:6-171 | 401 without a session; 400 without a file or title; 400 for another content type; every refusal changes nothing; otherwise the attach or the creation, with empty optional fields stored as null and the media type validated |
| MediaApi.ActiveMedia | src/app/api/media/route.ts:181-198 | exactly the items that are not deleted, every copy kept, newest upload first |
| MediaApi.List | src/app/api/media/route.ts:173-205 | 401 exactly without a session; otherwise every active item |
| MediaApi.LibraryAndTrashSplit | src/app/api/media/route.ts:181-184 | each of an owner's items is listed by exactly one of the library and the trash |
| CreateFromBlob.BlobFileType | src/app/api/media/create-from-blob/route.ts:32 | EPUB exactly for the EPUB content type; anything else, or none, is PDF |
| CreateFromBlob.BlobTypeAgrees | src/app/api/media/create-from-blob/route.ts:32 | on the two accepted content types the blob path and the upload check agree |
| CreateFromBlob.StoreBlob | src/app/api/media/create-from-blob/route.ts:34-159 | with a `mediaId` the attach rules apply; without one a title is required and a new item is created with its tags and a validated media type |
| CreateFromBlob.Post | src/app/api/media/create-from-blob/route.ts:5-166 | 401 without a session, 400 without a blob URL, 400 without a title for a new item; refusals change nothing; otherwise as `StoreBlob` |
| UploadApi.PayloadMetadata | src/app/api/upload/route.ts:33-47 | a parsed payload is carried along; an absent or unparseable one becomes empty metadata |
| UploadApi.TokenFor | src/app/api/upload/route.ts:44-55 | the token carries the caller's id, admits only PDF and EPUB, and caps the size at 5·1024³ bytes |
| UploadApi.TokenTypesAgree | src/app/api/upload/route.ts:52 | the token admits exactly the content types the media endpoint accepts |
| UploadApi.OnUploadCompleted | src/app/api/upload/route.ts:57-193 | no user id means no change; a refused attach or an already stored URL changes nothing; otherwise one file is added to the item, or one new item with its tags is created |
| UploadApi.CompletedTwice | src/app/api/upload/route.ts:122-131 | the same completion reported twice creates at most one item and one file |
| UploadApi.CompletedAgain | src/app/api/upload/route.ts:122-131 | a report that the stored rows already settle changes nothing |
| UploadApi.Post | src/app/api/upload/route.ts:6-201 | 401 and no change without a session; a token request gets the token options and changes nothing; a completion report is acknowledged whatever it did, and the store changes exactly as `OnUploadCompleted` states |
| CollectionsApi.InsertByNameSorted | src/app/api/collections/route.ts:43-45 | inserting into a name-sorted list keeps it sorted and adds exactly that collection |
| CollectionsApi.SortByName | src/app/api/collections/route.ts:43-45 | the same collections, ascending by name |
| CollectionsApi.CollectionsOf | src/app/api/collections/route.ts:13-46 | exactly the caller's collections, every copy kept, ascending by name |
| CollectionsApi.CollectionItems | src/app/api/collections/route.ts:18-32 | exactly the linked items that are not deleted, in table order |
| CollectionsApi.View | src/app/api/collections/route.ts:13-46 | one listed collection: the collection itself and, in table order, exactly its linked items that are not deleted |
| CollectionsApi.CountIsListed | src/app/api/collections/route.ts:18-41 | the active-item count equals the number of items listed |
| CollectionsApi.DistinctImageSize | src/app/api/collections/route.ts:33-41 | distinct items give as many link pairs as items |
| CollectionsApi.List | src/app/api/collections/route.ts:5-53 | 401 exactly without a session; otherwise one view per collection of the caller, in name order |
| CollectionsApi.ListedCountsMatch | src/app/api/collections/route.ts:13-46 | in every listed collection the count equals the length of its item list |
| CollectionsApi.Create | src/app/api/collections/route.ts:55-125 | 401 without a session; 400 for a missing or blank name; 400 when the caller already has that trimmed name; refusals change nothing; otherwise one collection with the trimmed name, the description or null, owned by the caller; the same name under another user is allowed |
| CollectionsApi.NoLinksYet | src/app/api/collections/route.ts:86-118 | a new collection lists no items and counts zero |
| BooksApi.UniqueTagNames | src/app/api/books/route.ts:54-62 | with unique tag names every name in the table occurs exactly once |
| BooksApi.TagBook | src/app/api/books/route.ts:49-74 | after the loop every parsed name has exactly one tag, linked to the book; every new tag and link comes from a name; repeated names create one tag |
| BooksApi.TagNext | src/app/api/books/route.ts:52-73 | one turn of the loop extends the loop's bookkeeping by one name |
| BooksApi.TagLoopDone | src/app/api/books/route.ts:49-74 | the loop's bookkeeping, once all names are handled, is the outcome `TagBook` promises |
| BooksApi.Post | src/app/api/books/route.ts:6-81 | 401 without a session; 400 without a file or title; 400 for another content type; refusals change nothing; otherwise one book with its file type, author and description or null, the caller, and tags as above |
| BooksApi.AllBooks | src/app/api/books/route.ts:91-104 | every book, with no filter, newest upload first |
| BooksApi.List | src/app/api/books/route.ts:83-111 | 401 exactly without a session; otherwise every book |
| ConvertApi.Precheck | src/app/api/media/convert-pdf-to-epub/route.ts:101-140 | the failures in order: not found, deleted, no PDF, EPUB already there |
| ConvertApi.ConversionQueue | src/app/api/media/convert-pdf-to-epub/route.ts:46-65 | exactly the active items with a PDF file and no EPUB file, in table order |
| ConvertApi.PrecheckAgreesWithQueue | src/app/api/media/convert-pdf-to-epub/route.ts:46-140 | an item passes the single-item checks exactly when it is in the batch queue |
| ConvertApi.ConvertOne | src/app/api/media/convert-pdf-to-epub/route.ts:96-195 | succeeds exactly when the checks pass and the converter succeeds; a success adds exactly one EPUB file to that item; a failure adds nothing and reports the first failing check or the converter's message |
| ConvertApi.ConvertQueued | src/app/api/media/convert-pdf-to-epub/route.ts:70-73 | a queued item passes the checks, so only the converter decides |
| ConvertApi.QueuedPasses | src/app/api/media/convert-pdf-to-epub/route.ts:101-140 | with unique ids a queued item passes every check |
| ConvertApi.ConvertNext | src/app/api/media/convert-pdf-to-epub/route.ts:70-73 | one turn of the batch loop extends the bookkeeping by one item |
| ConvertApi.StepKeeps | src/app/api/media/convert-pdf-to-epub/route.ts:70-73 | one turn keeps the results, the queue and the new files consistent |
| ConvertApi.KeptInQueue | src/app/api/media/convert-pdf-to-epub/route.ts:70-73 | converting one item leaves the later items still needing conversion |
| ConvertApi.NewFilesStep | src/app/api/media/convert-pdf-to-epub/route.ts:173-179 | the new files are exactly EPUB files of converted items, each the converter's output |
| ConvertApi.BatchDone | src/app/api/media/convert-pdf-to-epub/route.ts:70-77 | after the last item the bookkeeping is the batch's whole outcome |
| ConvertApi.ConvertAll | src/app/api/media/convert-pdf-to-epub/route.ts:41-74 | the queue is the batch selection; one result per queued item, in order; the files grow by exactly one EPUB per success |
| ConvertApi.SuccessCountStep | src/app/api/media/convert-pdf-to-epub/route.ts:76 | one more result adds one success exactly when it succeeded |
| ConvertApi.CountsAddUp | src/app/api/media/convert-pdf-to-epub/route.ts:76-77 | successes plus failures equal the number of results |
| ConvertApi.Summary | src/app/api/media/convert-pdf-to-epub/route.ts:76-82 | the message opens with "Conversion complete: ", and the success count and then the failure count can be read back from it |
| ConvertApi.Post | src/app/api/media/convert-pdf-to-epub/route.ts:15-91 | 401 without a session; 400 with neither `mediaId` nor `all`; refusals change nothing; a `mediaId` converts that one item and `all` is ignored, with that item's outcome and files as for `ConvertOne`; otherwise the batch, with one result per queued item and the files grown by exactly one EPUB per success, as for `ConvertAll`; the message states the counts |
| PdfToEpub.EscapeChar | src/lib/pdf-to-epub.ts:153-160 | a special character becomes its entity; any other stays as it is |
| PdfToEpub.EscapeHtml | src/lib/pdf-to-epub.ts:152-161 | the result holds no `<`, `>`, `"` or `'` |
| PdfToEpub.EscapeHtmlAppend | src/lib/pdf-to-epub.ts:160 | escaping works one character at a time, so it distributes over concatenation |
| PdfToEpub.EscapeHtmlIdentity | src/lib/pdf-to-epub.ts:160 | text without special characters is left as it is |
| PdfToEpub.EscapeRoundTrip | src/lib/pdf-to-epub.ts:152-161 | decoding the five entities gives the original text back |
| PdfToEpub.UnescapeStep | src/lib/pdf-to-epub.ts:153-159 | each entity decodes back to its character |
| PdfToEpub.EpubMetadataFor | src/lib/pdf-to-epub.ts:47-50 | the defaults are "Untitled", "Unknown Author", "" and "en"; given non-empty values are kept |
| PdfToEpub.TitleLine | src/lib/pdf-to-epub.ts:116-118 | a title line appears exactly when the title is non-empty |
| PdfToEpub.AuthorLine | src/lib/pdf-to-epub.ts:120-122 | an author line appears exactly when the author is non-empty |
| PdfToEpub.SubjectLine | src/lib/pdf-to-epub.ts:124-126 | a subject line appears exactly when the subject is non-empty |
| PdfToEpub.PageBlockPosition | src/lib/pdf-to-epub.ts:137-142 | the block of page i comes right after the blocks of pages 1 to i−1, so all N blocks appear in order |
| PdfToEpub.BlockPosition | src/lib/pdf-to-epub.ts:137-142 | in a concatenation of numbered blocks each block stands after the ones before it |
| PdfToEpub.PreambleIs | src/lib/pdf-to-epub.ts:109-133 | the text before the first page block is the opening div, the metadata lines and the notice |
| PdfToEpub.ContentIs | src/lib/pdf-to-epub.ts:137-146 | the preamble, N page blocks and the closing div make up the whole document |
| PdfToEpub.AppendPageBlocks | src/lib/pdf-to-epub.ts:137-142 | the page loop appends exactly the blocks of pages 1 to N |
| PdfToEpub.ExtractPdfContent | src/lib/pdf-to-epub.ts:105-147 | the accumulated text is the document: the opening div, escaped metadata lines, the notice, N page blocks, the closing div |
| Metadata.CreatorAuthor | src/lib/metadata.ts:33-39 | a creator list is joined with ", ", and a non-empty creator string is kept; nothing else gives an author |
| Metadata.ExtractEpubMetadata | src/lib/metadata.ts:25-58 | title, description and language are copied exactly when each is a non-empty string; `date` wins over `published` |
| Metadata.FirstDateAt | src/lib/metadata.ts:96 | the leftmost position of `D:` and eight digits, or none |
| Metadata.PdfDate | src/lib/metadata.ts:95-101 | a date exactly when the pattern occurs, built from its first occurrence |
| Metadata.PdfDateShape | src/lib/metadata.ts:96-101 | the result has the `YYYY-MM-DD` shape, and dropping the dashes gives back the matched digits |
| Metadata.ExtractPdfMetadata | src/lib/metadata.ts:73-106 | non-empty Title, Author and Subject become title, author and description; a creation date matching the pattern is reformatted, otherwise left out; no language |
| Metadata.ExtractMetadata | src/lib/metadata.ts:119-130 | "epub" goes to the EPUB extractor, "pdf" to the PDF one, anything else gives empty metadata; a parser failure is passed on |
| LibraryPage.FilteredBooks | src/app/library/page.tsx:40-44 | a subsequence of the books, in their order, keeping a book exactly when it matches |
| LibraryPage.EmptyFilterKeepsAll | src/app/library/page.tsx:40-44 | an empty filter keeps every book |
| LibraryPage.KeptIffOccurs | src/app/library/page.tsx:41-43 | a book is kept exactly when the lowercased filter occurs in its lowercased title, author or a tag name |
| LibraryPage.NullAuthorKept | src/app/library/page.tsx:42 | a book without an author can match only by its title or tags |
| PdfReader.PrevPage | src/components/PdfReader.tsx:19-21 | one page back, never below 1; page 1 stays |
| PdfReader.NextPage | src/components/PdfReader.tsx:23-25 | one page on, never past the page count |
| PdfReader.StepsStayInRange | src/components/PdfReader.tsx:19-25 | both steps keep a page of the document inside it |
| PdfReader.ButtonsAgreeWithSteps | src/components/PdfReader.tsx:51-61 | a button is disabled exactly when its step would not move the page |
| PdfReader.NextThenPrev | src/components/PdfReader.tsx:19-25 | Next then Previous comes back, except from the last page |
| PdfReader.PrevThenNext | src/components/PdfReader.tsx:19-25 | Previous then Next comes back, except from the first page |
| PdfReader.NextBeforeLoad | src/components/PdfReader.tsx:24 | before the document loads, Next goes to page 0 |
| PdfReader.Reader.constructor | src/components/PdfReader.tsx:12-13 | page 1 of 0 pages |
| PdfReader.Reader.OnDocumentLoadSuccess | src/components/PdfReader.tsx:15-17 | the page count comes from the document; the page is kept |
| PdfReader.Reader.GoToPrevPage | src/components/PdfReader.tsx:19-21 | the page moves as `PrevPage`, stays at least 1, and stays inside the document |
| PdfReader.Reader.GoToNextPage | src/components/PdfReader.tsx:23-25 | the page moves as `NextPage`, stays at most the count, and stays inside the document |
| TagParsing.ParseTagNamesSound | src/app/api/media/route.ts:124 | every parsed name is non-empty, trimmed and comma-free, and a name is parsed exactly when it is a trimmed non-empty piece between commas |
| TagParsing.ParseTagNames | src/app/api/media/route.ts:124 | at most one name per comma-separated piece; every name is non-empty and is one of the trimmed pieces |
| TagParsing.ParseJoinedNames | src/app/api/media/route.ts:124 | names that are trimmed, non-empty and comma-free, joined with ", ", parse back to the same list |
| TagParsing.SplitJoinedNames | src/app/api/media/route.ts:124 | a ", "-joined list splits on commas into the names, each after a space except the first |
| TagParsing.TrimSpacedPieces | src/app/api/media/route.ts:124 | trimming those pieces gives the names back |
| TagParsing.JoinCommaSpace | src/app/api/media/route.ts:124 | joining with ", " is joining with "," after a space before each later name |
| TagParsing.TrimEach | src/app/api/media/route.ts:124 | each piece trimmed, in order |
| TagParsing.ParseEmpty | src/app/api/media/route.ts:123-124 | an empty field gives no names |
| Text.TrimStart | src/app/api/collections/route.ts:66-70 | only leading white space is cut, all of it |
| Text.TrimEnd | src/app/api/collections/route.ts:66-70 | only trailing white space is cut, all of it |
| Text.Trim | src/app/api/collections/route.ts:66-70 | a contiguous slice of the input, with white space cut only at its ends and none left there |
| Text.TrimEmptyIffBlank | src/app/api/collections/route.ts:66 | a string trims to empty exactly when it is all white space |
| Text.TrimOfTrimmed | src/app/api/collections/route.ts:70 | trimming is idempotent on trimmed strings |
| Text.TrimAfterSpace | src/app/api/media/route.ts:124 | one leading space before a trimmed string is cut away |
| Text.Join | src/lib/metadata.ts:35 | a single piece joins to itself |
| Text.Split | src/app/api/media/route.ts:124 | at least one piece, none holding the separator, and joining the pieces gives the input back |
| Text.SplitNoSeparator | src/app/api/media/route.ts:124 | a string without the separator splits into itself |
| Text.SplitAtSeparator | src/app/api/media/route.ts:124 | splitting peels off the piece before the first separator |
| Text.SplitJoin | src/app/api/media/route.ts:124 | splitting undoes joining when no piece holds the separator |
| Text.Lower | src/app/library/page.tsx:41-43 | the same length, each character lowered |
| Text.IncludesIff | src/app/library/page.tsx:41-43 | the substring search succeeds exactly when the text occurs at some position |
| Text.EmptyIncluded | src/app/library/page.tsx:41 | the empty string occurs in every string |
| Text.NatToString | src/app/library/deleted/page.tsx:174 | decimal digits with no leading zero |
| Text.NatToStringValue | src/app/library/deleted/page.tsx:174 | reading the digits back gives the number |
| Text.LexLeTotal | src/app/api/collections/route.ts:43-45 | the name order relates any two names |
| Text.LexLeTrans | src/app/api/collections/route.ts:43-45 | the name order is transitive |
| Text.LexLeAntisymmetric | src/app/api/collections/route.ts:43-45 | names ordered both ways are equal |
| Ordering.FirstIndex | src/app/api/upload/route.ts:124-126 | the first position satisfying the condition, or proof that none does |
| Ordering.Filter | src/app/api/media/convert-pdf-to-epub/route.ts:63-65 | exactly the elements satisfying the condition, never more copies than the input |
| Ordering.FilterSubsequence | src/app/library/page.tsx:40 | the filter's output keeps the input's order |
| Ordering.FilterAll | src/app/library/page.tsx:40-44 | a condition every element satisfies keeps the whole list |
| Ordering.FilterAppend | src/app/api/media/cleanup/route.ts:68-74 | filtering one more element appends it exactly when it passes |
| Ordering.FilterCount | src/app/api/media/route.ts:181-198 | filtering keeps every copy of a passing element |
| Ordering.FilterSplit | src/app/api/media/convert-pdf-to-epub/route.ts:76-77 | a condition and its complement split the list |
| Ordering.FilterAgree | src/app/api/media/cleanup/route.ts:68-74 | conditions that agree on every element filter alike |
| Ordering.FilterPairwise | src/app/api/media/route.ts:181-198 | an order between all earlier and later elements survives filtering |
| Ordering.InsertDescSorted | src/app/api/media/route.ts:195-197 | inserting into a list sorted by a key, descending, keeps it sorted and adds exactly that element |
| Ordering.SortDesc | src/app/api/media/route.ts:195-197 | the same rows, largest key first |
| Ordering.Listing | src/app/api/media/route.ts:181-198 | exactly the rows satisfying the condition, every copy kept, largest key first |
| Ordering.SameMembers | src/app/api/collections/route.ts:13-46 | lists with the same multiset have the same elements |

## Left out

- Blob storage: uploads (`put`) and client uploads (`handleUpload`) are represented only by the URL they return, a parameter. Deletions (`del`) are appended to `blobDeletes` and never fail. A failing deletion not stopping the purge is therefore implicit.
- The PDF fetch in the conversion route, the converter's libraries (pdf-lib, the HTML-to-EPUB renderer, temporary files) and the EPUB and PDF parsers. The converter is an oracle parameter. The extractors start from the parsers' output.
- Sending email: the mail transport and its three environment variables are I/O.
- Concurrency. The tag upserts run one after another instead of through `Promise.all`. The model says nothing about races in two places:
  - invitation consumption is a read followed by a write, with no conditional update;
  - the purge selects and then deletes without checking `deletedAt` again.
- Real dates: `setDate` is local-calendar arithmetic sensitive to daylight saving, and `Math.ceil` divides floating-point numbers. Here time is an integer of milliseconds and a day is fixed.
- The soft-delete and restore endpoints are not part of this model. Restoring on the trash page takes the endpoint's reply as a parameter.
- `nanoid(32)`: the token is a parameter of length 32, assumed random. A token that is already taken ends in the generic 500 answer.
- The tag generation endpoint and the metadata extraction endpoint are not part of this model.
- The UI-only components and pages (the collection and edit modals, the upload and sign-in pages, the EPUB reader, the layout) are not part of this model.
- Sessions and cookies: the caller and the cookie's token are parameters.
- Response bodies are reduced to the rows they are built from. The `include` of files, tags and user names is not reproduced.
- Any unexpected exception answering 500: only the 500 from a taken invitation token is modelled.
- JavaScript's dynamic values: form and JSON fields are `Option<string>`, and EPUB parser fields use a small value type.
- A non-numeric `expiresInDays` is not modelled. The number of days is an `Option<int>`.
- Text.Lower: lowers ASCII letters only, while JavaScript's `toLowerCase` maps all of Unicode.
- Text.LexLe: the name order of collections compares characters one by one, without the database's collation.
- Auth.SignIn: a sign-in without any email is refused. The source looks the user up by `user.email!` first, and that lookup would more likely fail with an error.
- UploadApi.OnUploadCompleted: a token payload that fails to parse is treated as absent. Errors thrown inside the callback are swallowed, so the callback is modelled with no error path at all.
- Metadata.ExtractMetadata: states only part of each extractor's contract (the author and the title presence for EPUB, the empty result and the missing language for PDF). The extractors' own contracts state the rest.
- PdfToEpub.ExtractPdfContent: the page loop is written as the helper `AppendPageBlocks`, which has its own loop invariant.
- MediaCleanup.Cleanup: the database schema is not part of this model. The model assumes that deleting an item also deletes its files, tag links and collection entries (cascading deletes).
- BooksApi.TagBook: the loop reads the tag and then creates it. The model takes this as one find-or-create step.

Choices where the model keeps the code's behaviour as written:

- `signIn` looks for an existing user before it reads any invitation.
- `POST /api/invitations` requires an email.
- Adding a file to an existing item does not check whether the item is deleted. A file can be added to an item in the trash.
- On the upload completion path, a content type that is not EPUB is taken as PDF.
