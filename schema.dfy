/** The rows of the `users`, `photos` and `contact_submissions` tables, the
    payloads that insert them, and the constraints the table declarations
    put on them (primary keys, the unique e-mail, the uploader reference,
    column defaults). Timestamps are ticks of the database clock. */
module Schema {
  import opened Wrappers

  /** A field of an insert or upsert payload: left out (`undefined`), given
      as `null`, or given a value. A column default applies only to a field
      that is left out. */
  datatype Field<T> = Omitted | Null | Given(value: T)

  /** The column value a payload field writes over `current`: a field that
      is left out keeps `current` (the column default on insert, the old
      value on update). */
  function Written<T>(f: Field<T>, current: Option<T>): (v: Option<T>)
    ensures f.Omitted? ==> v == current
    ensures f.Null? ==> v.None?
    ensures f.Given? ==> v == Some(f.value)
  {
    match f
    case Omitted => current
    case Null => None
    case Given(x) => Some(x)
  }

  // ---------------------------------------------------------------------
  // users

  /** A row of `users`. `createdAt` and `updatedAt` are nullable in the
      table but always set, as no payload supplies them. */
  datatype User = User(
    id: string,
    email: Option<string>,
    firstName: Option<string>,
    lastName: Option<string>,
    profileImageUrl: Option<string>,
    isAdmin: Option<bool>,
    createdAt: int,
    updatedAt: int)

  /** `UpsertUser`: the id, the four profile columns picked by
      `insertUserSchema` (optional and nullable), and an optional `isAdmin`. */
  datatype UpsertUser = UpsertUser(
    id: string,
    email: Field<string>,
    firstName: Field<string>,
    lastName: Field<string>,
    profileImageUrl: Field<string>,
    isAdmin: Option<bool>)

  /** The row an upsert inserts when no row has its id: every supplied
      field is written, left-out columns take their defaults (`NULL`, and
      `false` for `isAdmin`), `createdAt` is the database's `now()` and
      `updatedAt` the server's `new Date()`. */
  function NewUser(u: UpsertUser, created: int, updated: int): (r: User)
    ensures r.id == u.id && r.createdAt == created && r.updatedAt == updated
    ensures r.email == Written(u.email, None) && r.firstName == Written(u.firstName, None)
    ensures r.lastName == Written(u.lastName, None) && r.profileImageUrl == Written(u.profileImageUrl, None)
    ensures u.isAdmin.Some? ==> r.isAdmin == u.isAdmin
    ensures u.isAdmin.None? ==> r.isAdmin == Some(false)
  {
    User(u.id, Written(u.email, None), Written(u.firstName, None), Written(u.lastName, None),
         Written(u.profileImageUrl, None), Some(if u.isAdmin.Some? then u.isAdmin.value else false),
         created, updated)
  }

  /** The row an upsert leaves when a row with its id exists: the supplied
      fields overwrite (a `null` clears), the others keep their values,
      `updatedAt` becomes the server's `new Date()`, and `id` and
      `createdAt` stay. */
  function MergeUser(prev: User, u: UpsertUser, updated: int): (r: User)
    requires prev.id == u.id
    ensures r.id == prev.id && r.createdAt == prev.createdAt && r.updatedAt == updated
    ensures r.email == Written(u.email, prev.email) && r.firstName == Written(u.firstName, prev.firstName)
    ensures r.lastName == Written(u.lastName, prev.lastName)
    ensures r.profileImageUrl == Written(u.profileImageUrl, prev.profileImageUrl)
    ensures u.isAdmin.None? ==> r.isAdmin == prev.isAdmin
    ensures u.isAdmin.Some? ==> r.isAdmin == u.isAdmin
  {
    prev.(email := Written(u.email, prev.email),
          firstName := Written(u.firstName, prev.firstName),
          lastName := Written(u.lastName, prev.lastName),
          profileImageUrl := Written(u.profileImageUrl, prev.profileImageUrl),
          isAdmin := if u.isAdmin.Some? then u.isAdmin else prev.isAdmin,
          updatedAt := updated)
  }

  /** Repeating an upsert changes nothing but `updatedAt`. */
  lemma MergeUserRepeat(prev: User, u: UpsertUser, t1: int, t2: int)
    requires prev.id == u.id
    ensures MergeUser(MergeUser(prev, u, t1), u, t2) == MergeUser(prev, u, t2)
  {
  }

  /** An upsert that finds the row it inserted earlier changes nothing but
      `updatedAt`. */
  lemma MergeAfterInsert(u: UpsertUser, created: int, t1: int, t2: int)
    ensures MergeUser(NewUser(u, created, t1), u, t2) == NewUser(u, created, t2)
  {
  }

  function UserIds(users: seq<User>): set<string> {
    set u | u in users :: u.id
  }

  /** `id` is the primary key of `users`. */
  ghost predicate UserKeysUnique(users: seq<User>) {
    forall i, j :: 0 <= i < j < |users| ==> users[i].id != users[j].id
  }

  /** `email` is unique; `NULL` e-mails do not clash. */
  ghost predicate EmailsUnique(users: seq<User>) {
    forall i, j :: 0 <= i < j < |users| && users[i].email.Some? ==> users[i].email != users[j].email
  }

  /** Whether a row other than the one with `id` already holds `email`. */
  predicate EmailTaken(users: seq<User>, email: Option<string>, id: string) {
    email.Some? && exists k | 0 <= k < |users| :: users[k].id != id && users[k].email == email
  }

  // ---------------------------------------------------------------------
  // photos

  /** A row of `photos`. `size` is a string column; `thumbnailUrl` is the
      only nullable column besides `createdAt`, which is always set because
      no payload supplies it. */
  datatype Photo = Photo(
    id: int,
    filename: string,
    originalName: string,
    mimetype: string,
    size: string,
    url: string,
    thumbnailUrl: Option<string>,
    uploadedBy: string,
    createdAt: int)

  /** `InsertPhoto`: every column but `id` and `createdAt`, which storage
      assigns. Leaving `thumbnailUrl` out and passing `null` both store
      `NULL`. */
  datatype InsertPhoto = InsertPhoto(
    filename: string,
    originalName: string,
    mimetype: string,
    size: string,
    url: string,
    thumbnailUrl: Option<string>,
    uploadedBy: string)

  /** The payload part of a row: the row without `id` and `createdAt`. */
  function PhotoPayload(p: Photo): InsertPhoto {
    InsertPhoto(p.filename, p.originalName, p.mimetype, p.size, p.url, p.thumbnailUrl, p.uploadedBy)
  }

  /** The row an insert of `p` creates, with the serial `id` and the
      default `createdAt`: it holds the payload unchanged. */
  function NewPhoto(id: int, now: int, p: InsertPhoto): (r: Photo)
    ensures r.id == id && r.createdAt == now
    ensures PhotoPayload(r) == p
  {
    Photo(id, p.filename, p.originalName, p.mimetype, p.size, p.url, p.thumbnailUrl, p.uploadedBy, now)
  }

  /** `uploaded_by` references `users.id`. */
  ghost predicate UploadersExist(photos: seq<Photo>, users: seq<User>) {
    forall i :: 0 <= i < |photos| ==> photos[i].uploadedBy in UserIds(users)
  }

  // ---------------------------------------------------------------------
  // contact_submissions

  /** A row of `contact_submissions`. */
  datatype ContactSubmission = ContactSubmission(
    id: int,
    firstName: string,
    lastName: string,
    email: string,
    phone: Option<string>,
    service: Option<string>,
    message: string,
    language: Option<string>,
    createdAt: int)

  /** `InsertContactSubmission`: every column but `id` and `createdAt`.
      Left out and `null` are the same for `phone` and `service`, which have
      no default; `language` has one. */
  datatype InsertContactSubmission = InsertContactSubmission(
    firstName: string,
    lastName: string,
    email: string,
    phone: Option<string>,
    service: Option<string>,
    message: string,
    language: Field<string>)

  const DefaultLanguage := "nl"

  /** The row an insert of `s` creates: the payload, `language` defaulting
      to "nl" when left out, and the serial `id` and default `createdAt`. */
  function NewSubmission(id: int, now: int, s: InsertContactSubmission): (r: ContactSubmission)
    ensures r.id == id && r.createdAt == now
    ensures s.language.Omitted? ==> r.language == Some(DefaultLanguage)
    ensures SubmissionPayload(r) == s.(language := if s.language.Omitted? then Given(DefaultLanguage) else s.language)
  {
    ContactSubmission(id, s.firstName, s.lastName, s.email, s.phone, s.service, s.message,
                      Written(s.language, Some(DefaultLanguage)), now)
  }

  /** The payload that writes exactly the columns of `c` other than `id` and
      `createdAt`. */
  function SubmissionPayload(c: ContactSubmission): InsertContactSubmission {
    InsertContactSubmission(c.firstName, c.lastName, c.email, c.phone, c.service, c.message,
                            if c.language.Some? then Given(c.language.value) else Null)
  }
}
