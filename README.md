# Top Automaat Les: gallery, storage and contact form, in Dafny

This project models the three small cores of the driving school's web site:

- **The gallery request handlers** (`server/routes.ts`): the upload
  middleware's MIME allow-list and 5 MiB size limit, the admin-only photo
  upload, the public photo listing, the admin-only photo deletion and the
  admin-only listing of contact submissions. A request's outcome is a status
  code and JSON body, or a refusal by the authentication or upload middleware.
  The uploads directory is a set of file names, `Date.now()` is a parameter,
  and a throwing step is named by a `fault` parameter. The model keeps the
  source's order of checks and writes. It proves that every non-admin is
  refused before anything is written, that a deletion never removes a file,
  and that a failed insert leaves both files and no row. It also proves that
  every photo row's display and thumbnail files stay on disk.
- **The storage layer** (`server/storage.ts` over the tables of
  `shared/schema.ts`): a `DatabaseStorage` class whose three tables are
  sequences in insertion order. The photo and submission tables each have
  a `serial` counter, and the database has a strictly increasing clock. The invariants are unique user ids,
  unique non-null e-mails, uploaders that exist, and fresh, increasing ids and
  timestamps. Listings are proved newest-first and complete. Deletion removes
  exactly the rows with the id, and deleting twice is deleting once.
- **The contact form** (`client/src/components/contact-section.tsx`): the
  validation rule, the e-mail subject and body, and the `mailto:` link. The
  body is proved to read line by line as the template writes it. The link is
  proved to give back the subject and the body under percent-decoding.

The ECMAScript built-ins the code relies on are modelled in `ecma.dfy`
(module `EcmaScript`): `String(n)` for a non-negative integer up to 2^53, `parseInt`
without a radix (section 15.1.2.2 of ECMA-262 5.1), `encodeURIComponent`
(section 15.1.3.4), and `decodeURIComponent` (section 15.1.3.2) as its proved
inverse.

Files: `wrappers.dfy` (Option, Result), `ecma.dfy`, `schema.dfy` (rows,
payloads, defaults, table constraints), `storage.dfy`, `routes.dfy`,
`contact.dfy`.

The model follows the code as written:

- The stored file name is `<now>-<originalname>` with the client's name as
  given. There is no sanitising and no random suffix.
- Neither a failed file write nor a failed insert removes the files already
  written.
- A photo id is anything `parseInt` reads. Negative ids and digit prefixes
  such as `"7x"` are accepted; an id outside the 4-byte range fails in the
  database, which answers 500.
- The contact table only requires its four text columns to be present. It
  does not require them to be non-empty; only the form checks that.

## Model

| member | source | states |
|---|---|---|
| Routes.UploadCheck | server/routes.ts:14-24 | A file passes the middleware iff its MIME type is exactly image/jpeg, image/png or image/webp and it has at most 5*1024*1024 bytes. A wrong type is reported as such whatever the size. |
| Routes.StoredName | server/routes.ts:83 | `${Date.now()}-${originalname}` starts with a digit and ends with a dash and the client's name. |
| Routes.ThumbnailName | server/routes.ts:85 | `thumb-` + the stored name: it starts with `t` and ends with the stored name. |
| Routes.PublicUrl | server/routes.ts:106-107 | A url is `/uploads/` + the file name: a rooted path ending with the name. |
| Routes.PhotoData | server/routes.ts:83-86 | The row payload has the stored name as its filename and keeps the client name, MIME type and uploader id. Its size string parses back to the byte count, its stored name parses back to the upload time, and its url and thumbnailUrl are "/uploads/" + the stored name and "/uploads/thumb-" + the stored name. |
| Routes.SizeStringValue | server/routes.ts:105 | For a size the middleware lets through (at most 5 MiB), `parseInt(size.toString())` is the size: the decimal string holds the number exactly. |
| Routes.StoredNameTime | server/routes.ts:83 | `parseInt` of a stored name `<now>-<originalname>` is `now`. |
| Routes.StoredNameInjective | server/routes.ts:83 | Two stored names are equal only for the same millisecond and the same client name. |
| Routes.ThumbnailNeverStored | server/routes.ts:83-86 | No thumbnail name equals any display file name. |
| Routes.App.CallerIsAdmin | server/routes.ts:72-77 | The check `!user?.isAdmin` passes iff the caller's row exists and its isAdmin is true; a missing row, false and NULL all refuse. |
| Routes.App.ListPhotos | server/routes.ts:59-67 | Public. 200 with every row, newest first; exactly when the query throws, 500 "Failed to fetch photos". Every listed photo's two files are on disk. |
| Routes.App.UploadPhoto | server/routes.ts:70-117 | Authentication, then the middleware, then the admin check (403), the missing-file check (400), the display write, the thumbnail write and the insert. Before the first write nothing changes. A throwing user lookup, a failed write or a failed insert (a throw or an exhausted serial) answers 500 "Failed to upload photo" and keeps the files already written. Success adds both files and exactly one row carrying the payload and a fresh id. |
| Routes.App.StoreUpload | server/routes.ts:83-116 | From the file names on: the files in the set after each failing step; 200 iff no step throws and the serial is not exhausted; the row only on 200. |
| Routes.App.SavePhoto | server/routes.ts:110-111 | With both files on disk, the insert answers 200 with exactly one new row holding the payload and an id above every existing one, or 500 "Failed to upload photo" with the table unchanged when the serial is exhausted; every row stays served. |
| Routes.App.WriteFiles | server/routes.ts:89-98 | The display file is written before the thumbnail; a throw in either stops there. |
| Routes.App.DeletePhoto | server/routes.ts:120-140 | A throwing user lookup answers 500 "Failed to delete photo"; 403 for a non-admin, 400 when `parseInt` gives NaN. Otherwise the answer is `{success: true}` or 500 "Failed to delete photo": `{success: true}` iff the delete does not throw and the id fits 4 bytes, with the table then without the rows of that id. The file set never changes, and the table is unchanged on every other answer. |
| Routes.App.ListContactSubmissions | server/routes.ts:143-158 | 403 for a non-admin; 500 "Failed to fetch submissions" when a step throws; otherwise 200 with every submission, newest first. |
| Storage.UserIndex | server/storage.ts:32-35 | The position of the row with the id, or the table length exactly when no row has it. |
| Storage.DatabaseStorage.GetUser | server/storage.ts:32-35 | Returns a row of the table with that id, and nothing exactly when no row has it. |
| Storage.DatabaseStorage.UpsertUser | server/storage.ts:37-53 | Fails with a unique violation, changing nothing, iff another user holds the written e-mail. Otherwise a new id appends the inserted row and a known id gets the merged row. Other rows stay, the ids gain exactly the upserted id, and the table invariants hold. |
| Storage.DatabaseStorage.CreatePhoto | server/storage.ts:56-59 | Appends exactly one row holding the payload, with the next serial id and the clock, whose id and time exceed every existing row's. Fails without a row when the serial is exhausted or the uploader does not exist; a drawn serial value is used up either way. |
| Storage.DatabaseStorage.GetPhotos | server/storage.ts:61-63 | Every photo row and only those, newest first. |
| Storage.DatabaseStorage.DeletePhoto | server/storage.ts:65-67 | Removes exactly the rows with the id, keeping the others in order; no match is no error; an id outside the 4-byte range is refused without change. |
| Storage.WithoutPhoto | server/storage.ts:66 | A row survives the delete iff it was there and has another id. |
| Storage.WithoutPhotoInOrder | server/storage.ts:66 | Deleting keeps the remaining rows in insertion order. |
| Storage.WithoutAbsentPhoto | server/storage.ts:65-67 | Deleting an id that no row has changes nothing. |
| Storage.WithoutPhotoTwice | server/storage.ts:65-67 | Deleting twice is deleting once. |
| Storage.DatabaseStorage.CreateContactSubmission | server/storage.ts:70-73 | Appends exactly one row holding the payload (language defaulting to "nl"), with a fresh, larger id and time; fails only when the serial is exhausted. |
| Storage.DatabaseStorage.GetContactSubmissions | server/storage.ts:75-77 | Every submission and only those, newest first. |
| Schema.Written | server/storage.ts:40-49 | A field left out keeps the current value (default on insert, old value on update); null writes NULL; a value writes that value. |
| Schema.NewUser | server/storage.ts:37-43 | An inserted user has the given id. Each supplied e-mail, name and image URL is written (null as NULL), and each one left out is NULL. isAdmin is the given value, or false. createdAt is the database's now() (shared/schema.ts:25) and updatedAt the server's `new Date()`. |
| Schema.MergeUser | server/storage.ts:44-50 | On conflict, each supplied field overwrites the old value (null clears it) and each field left out keeps it. isAdmin is replaced only when given. id and createdAt stay, and updatedAt becomes the server's `new Date()`. |
| Schema.MergeUserRepeat | server/storage.ts:37-53 | Repeating an upsert changes only updatedAt. |
| Schema.MergeAfterInsert | server/storage.ts:37-53 | An upsert of the row it inserted earlier changes only updatedAt. |
| Schema.NewPhoto | shared/schema.ts:30-40 | An inserted photo has the given id and time and holds the payload unchanged. |
| Schema.NewSubmission | shared/schema.ts:43-53 | An inserted submission has the given id and time, holds the payload, and has language "nl" when it was left out. |
| EcmaScript.DecimalString | server/routes.ts:83 | For an integer up to 2^53, where `String` writes plain decimal, the rendering is a non-empty run of decimal digits with no leading zero. |
| EcmaScript.DecimalStringValue | server/routes.ts:105 | The digits of the rendering denote the number. |
| EcmaScript.ParseInt | server/routes.ts:129 | After the leading white space and at most one sign, `parseInt` is NaN iff the text starts with neither a decimal digit nor `0x`/`0X` followed by a hexadecimal digit. A negative result needs a minus sign, and after a minus sign the result is not positive. |
| EcmaScript.ParseIntWhiteSpace | server/routes.ts:129 | Leading white space and line terminators do not change the result. |
| EcmaScript.ParseIntSign | server/routes.ts:129 | A `+` keeps the result and a `-` negates it; NaN stays NaN. |
| EcmaScript.ParseIntHex | server/routes.ts:129 | After `0x` or `0X`, the result is the value of the hexadecimal digits up to the first character that is not one. |
| EcmaScript.ParseIntHexExample | server/routes.ts:129 | `parseInt("0x1F")` is 31. |
| EcmaScript.ParseIntDigits | server/routes.ts:129 | A run of decimal digits, leading zeros included, followed by text that does not continue it and with no `0x` prefix, reads as the value of the run. |
| EcmaScript.ParseIntLeadingZeros | server/routes.ts:129 | `parseInt("007")` is 7. |
| EcmaScript.ParseIntDecimal | server/routes.ts:129 | `parseInt` reads back the decimal rendering of n followed by any text that does not continue the digits. |
| EcmaScript.ParseIntNegative | server/routes.ts:129 | A minus sign before such a rendering gives -n. |
| EcmaScript.ParseIntNoDigit | server/routes.ts:129-132 | Text starting with a character that is no white space, sign or digit gives NaN. |
| EcmaScript.ParseIntLetters | server/routes.ts:129-132 | `parseInt("abc")` is NaN. |
| EcmaScript.ParseIntDigitPrefix | server/routes.ts:129 | `parseInt("7x")` is 7. |
| EcmaScript.EncodeURIComponent | client/src/components/contact-section.tsx:66 | The encoding holds only unreserved characters and `%`, so no `&`, `=`, `?` or `#`. |
| EcmaScript.DecodeEncode | client/src/components/contact-section.tsx:66 | Percent-decoding the encoding gives the text back. |
| Contact.ValidationErrors | client/src/components/contact-section.tsx:21-26 | Each of the four messages is reported iff its field fails: empty first name, empty last name, an address that is not well-formed, empty message. |
| Contact.AcceptsExactly | client/src/components/contact-section.tsx:21-26 | The form is accepted iff both names and the message are non-empty and the address is well-formed. |
| Contact.DefaultFormRefused | client/src/components/contact-section.tsx:37-45 | The untouched form is refused whatever counts as an address. |
| Contact.Subject | client/src/components/contact-section.tsx:50 | The subject ends with the sender's full name, and it is one line when both names are. |
| Contact.Body | client/src/components/contact-section.tsx:51-64 | The body starts with the greeting line and ends with the sender's full name. |
| Contact.BodyLines | client/src/components/contact-section.tsx:51-64 | Split at line breaks, the body is the greeting, the interest line, name and e-mail, then a phone line or an empty line, then a service line or an empty line, then "Message:" and the message verbatim, then the closing and the full name. |
| Contact.SelectedServiceLine | client/src/components/contact-section.tsx:58 | A service picked in the selector gives one `Preferred Service: ` line naming it. |
| Contact.MailtoLink | client/src/components/contact-section.tsx:66 | The link starts with `mailto:` + the address + `?subject=`, and no `?` or `#` follows, so there is one query and no fragment. |
| Contact.QueryRoundTrip | client/src/components/contact-section.tsx:66 | The text after `subject=` splits at its first `&` into the subject and the body, each decoding back. |
| Contact.MailtoRoundTrip | client/src/components/contact-section.tsx:66 | The link "mailto:Laithrazzak@gmail.com?subject=" + enc(subject) + "&body=" + enc(body) reads back as exactly the subject and the body. |
| Contact.Submit | client/src/components/contact-section.tsx:48-66 | A link is produced iff the form is valid, and it reads back as the subject "Driving Lesson Inquiry - " + full name and the body. |

## Left out

- Image resampling by `sharp` (server/routes.ts:89-98) is a native library. Each write is modelled as adding one name to the file set, or throwing.
- Express, the `isAuthenticated` middleware and the `replitAuth` module are not part of this model. Neither is the multer machinery, the error handler behind it, or multipart parsing. A refusal by authentication or by the upload middleware is an abstract outcome with no status code.
- The server's `new Date()` for a user's `updatedAt` is the parameter `serverNow` of `UpsertUser`. It is not related to the database clock, since the source takes the two from different machines.
- Routes.App.UploadPhoto: does not state the status of a request refused by `isAuthenticated` or by the upload middleware, because that code is outside the source.
- The Postgres/drizzle driver is replaced by sequences in memory. Concurrent requests, transactions and ties in `createdAt` are not modelled; the clock strictly increases.
- Faults are one abstract `fault` parameter naming the first step that throws. Which exceptions occur and the `console.error` logging are not modelled.
- `Date.now()` is the parameter `now`, a non-negative integer of at most 8.64e15 (the largest time value), whose `String` is its plain decimal digits.
- EcmaScript.ParseInt: does not model the Number rounding of digit runs past 2^53, because such ids fall outside the 4-byte column and fail in the database either way.
- EcmaScript.EncodeURIComponent: strings are sequences of Unicode scalar values, so the URIError on a lone surrogate is not modelled.
- `path.join` of the uploads directory with the client name is not modelled. A name holding `/` or `..` is kept as one opaque entry of the file set.
- How the static handler resolves a URL to a file is not modelled. The url field is the stored name under "/uploads/" without percent-encoding.
- `users.id` has a `gen_random_uuid()` default, which never applies: every upsert payload carries an id.
- The `GET /api/auth/user` route (server/routes.ts:41-50) and `setupAuth` are outside the gallery core.
- `server/emailService.ts` is not part of this model; no route uses it, since the contact endpoint is disabled (server/routes.ts:52-56).
- The zod e-mail pattern is the parameter `isEmail`. Zod's check of string lengths counts UTF-16 units, which agrees with the scalar count on emptiness, the only length it checks.
- `window.location`, the toast and `form.reset` (contact-section.tsx:69-77) are browser effects. The rendering components and pages are UI.
- The form's phone and service are always strings, since they start as "" and the inputs only set strings. So `undefined` and `null` are not modelled there.
