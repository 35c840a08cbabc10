/** The gallery and admin request handlers of server/routes.ts. The
    `uploads` directory is the set of file names in it; `Date.now()` is the
    parameter `now`; a failure of the database or of the image writer is
    the parameter `fault`, naming the first step that throws (a throw ends
    the handler, so only the first one matters). Authentication and the
    upload middleware are abstract outcomes: what they answer is decided
    outside this file. */
module Routes {
  import opened Wrappers
  import opened EcmaScript
  import opened Schema
  import opened Storage

  // ---------------------------------------------------------------------
  // The upload middleware

  const AllowedTypes: seq<string> := ["image/jpeg", "image/png", "image/webp"]

  /** The `fileSize` limit in bytes. */
  const MaxFileSize := 5 * 1024 * 1024

  datatype UploadError = InvalidType | TooLarge

  /** The file part of a multipart request as the middleware reports it. */
  datatype UploadedFile = UploadedFile(originalname: string, mimetype: string, size: nat)

  /** `fileFilter`: the MIME type must be one of the three, compared
      exactly. */
  predicate FileFilter(mimetype: string) {
    mimetype in AllowedTypes
  }

  /** Why the middleware refuses a file, if it does. The filter sees the
      part's headers before any byte is counted, so a wrong type is
      reported even for an oversized file; a file of exactly the limit
      passes. */
  function UploadCheck(f: UploadedFile): (r: Option<UploadError>)
    ensures r.None? <==> FileFilter(f.mimetype) && f.size <= MaxFileSize
    ensures r == Some(InvalidType) <==> !FileFilter(f.mimetype)
    ensures r == Some(TooLarge) <==> FileFilter(f.mimetype) && f.size > MaxFileSize
  {
    if !FileFilter(f.mimetype) then Some(InvalidType)
    else if f.size > MaxFileSize then Some(TooLarge)
    else None
  }

  // ---------------------------------------------------------------------
  // Names and URLs of an upload

  /** The largest time value a `Date` can hold, 8.64e15 ms (section
      15.9.1.1 of ECMA-262 5.1). `Date.now()` never exceeds it, so its
      rendering is the plain decimal one, far below 1e21 where `String`
      switches to exponent notation. */
  const MaxTimeValue: nat := 8_640_000_000_000_000

  /** `${Date.now()}-${originalname}`. */
  function StoredName(now: nat, originalname: string): (n: string)
    requires now <= MaxTimeValue
    // It starts with a digit and ends with a dash and the client's name.
    ensures |n| > |originalname| + 1 && IsDecimalDigit(n[0])
    ensures n[|n| - |originalname| - 1] == '-' && n[|n| - |originalname|..] == originalname
  {
    DecimalString(now) + "-" + originalname
  }

  /** `thumb-${fileName}`. */
  function ThumbnailName(fileName: string): (t: string)
    ensures |t| == |fileName| + 6 && t[0] == 't' && t[6..] == fileName
  {
    "thumb-" + fileName
  }

  /** Where the static handler serves a file of the uploads directory. */
  function PublicUrl(name: string): (u: string)
    ensures |u| == |name| + 9 && u[0] == '/' && u[9..] == name
  {
    "/uploads/" + name
  }

  /** The row payload the upload handler builds. Its stored name starts
      with the upload time, which `parseInt` reads back, and its size is the
      decimal string that `parseInt` reads back as the byte count. */
  function PhotoData(now: nat, f: UploadedFile, userId: string): (p: InsertPhoto)
    requires now <= MaxTimeValue && f.size <= MaxFileSize
    ensures p.filename == StoredName(now, f.originalname)
    ensures p.originalName == f.originalname && p.mimetype == f.mimetype && p.uploadedBy == userId
    ensures ParseInt(p.size) == Some(f.size)
    ensures ParseInt(p.filename) == Some(now)
    ensures p.url == PublicUrl(p.filename)
    ensures p.thumbnailUrl == Some(PublicUrl(ThumbnailName(p.filename)))
  {
    var fileName := StoredName(now, f.originalname);
    StoredNameTime(now, f.originalname);
    SizeStringValue(f.size);
    InsertPhoto(fileName, f.originalname, f.mimetype, DecimalString(f.size),
                PublicUrl(fileName), Some(PublicUrl(ThumbnailName(fileName))), userId)
  }

  lemma SizeStringValue(size: nat)
    requires size <= MaxFileSize
    ensures ParseInt(DecimalString(size)) == Some(size)
  {
    ParseIntDecimal(size, "");
    assert DecimalString(size) + "" == DecimalString(size);
  }

  /** `parseInt` of a stored name is the upload time. */
  lemma StoredNameTime(now: nat, originalname: string)
    requires now <= MaxTimeValue
    ensures ParseInt(StoredName(now, originalname)) == Some(now)
  {
    var rest := "-" + originalname;
    assert EndsDigits(now, rest) by {
      assert rest[0] == '-';
    }
    StoredNameSplit(now, originalname);
    ParseIntDecimal(now, rest);
  }

  lemma StoredNameSplit(now: nat, originalname: string)
    requires now <= MaxTimeValue
    ensures StoredName(now, originalname) == DecimalString(now) + ("-" + originalname)
  {
  }

  predicate NoDash(s: string) {
    forall i :: 0 <= i < |s| ==> s[i] != '-'
  }

  /** Splitting at the first dash: the part before it has none. */
  lemma SplitAtDash(a: string, b: string, c: string, d: string)
    requires NoDash(a) && NoDash(c)
    requires a + "-" + b == c + "-" + d
    ensures a == c && b == d
  {
    var s := a + "-" + b;
    var k := IndexOf(s, '-');
    assert s[|a|] == '-' && s[|c|] == '-';
    assert k == |a| == |c|;
    assert a == s[..|a|] == c;
    assert b == s[|a| + 1..] == d;
  }

  /** Two uploads get the same stored name only when they were made at the
      same millisecond with the same client file name. */
  lemma StoredNameInjective(t1: nat, o1: string, t2: nat, o2: string)
    requires t1 <= MaxTimeValue && t2 <= MaxTimeValue
    requires StoredName(t1, o1) == StoredName(t2, o2)
    ensures t1 == t2 && o1 == o2
  {
    SplitAtDash(DecimalString(t1), o1, DecimalString(t2), o2);
    DecimalStringValue(t1);
    DecimalStringValue(t2);
  }

  /** A thumbnail never has the name of a displayed file: one starts with
      `t`, the other with a digit. So no upload overwrites a thumbnail with
      a display image or the other way round. */
  lemma ThumbnailNeverStored(t1: nat, o1: string, t2: nat, o2: string)
    requires t1 <= MaxTimeValue && t2 <= MaxTimeValue
    ensures ThumbnailName(StoredName(t1, o1)) != StoredName(t2, o2)
  {
    assert ThumbnailName(StoredName(t1, o1))[0] == 't';
    assert StoredName(t2, o2)[0] == DecimalString(t2)[0];
  }

  // ---------------------------------------------------------------------
  // Requests and responses

  datatype Caller = Anonymous | Authenticated(sub: string)

  /** The steps of a handler that can throw. */
  datatype Step = FetchUser | WriteDisplay | WriteThumbnail | InsertRow | DeleteRow | ReadRows

  /** The JSON a handler sends. */
  datatype Json =
    | PhotoJson(photo: Photo)
    | PhotoListJson(photos: seq<Photo>)
    | SubmissionListJson(submissions: seq<ContactSubmission>)
    | SuccessJson
    | MessageJson(message: string)

  /** What a request gets: refused by `isAuthenticated`, refused by the
      upload middleware, or answered by the handler. */
  datatype Outcome =
    | Unauthenticated
    | UploadRejected(reason: UploadError)
    | Reply(status: int, body: Json)

  const AdminRequired := "Admin access required"
  const NoFileUploaded := "No file uploaded"
  const InvalidPhotoId := "Invalid photo ID"
  const FetchPhotosFailed := "Failed to fetch photos"
  const UploadFailed := "Failed to upload photo"
  const DeleteFailed := "Failed to delete photo"
  const FetchSubmissionsFailed := "Failed to fetch submissions"

  /** `!user?.isAdmin` is false: the caller's row exists and its `isAdmin`
      is true (a missing row, `false` and `NULL` all refuse). */
  ghost predicate IsAdmin(users: seq<User>, id: string) {
    exists u :: u in users && u.id == id && u.isAdmin == Some(true)
  }

  /** A photo row whose two files are on disk and whose URLs point at them. */
  ghost predicate Served(p: Photo, files: set<string>) {
    && p.filename in files && ThumbnailName(p.filename) in files
    && p.url == PublicUrl(p.filename)
    && p.thumbnailUrl == Some(PublicUrl(ThumbnailName(p.filename)))
  }

  /** An upload request that gets past the middleware, the user lookup and
      the two checks of the handler, to the first file write. */
  ghost predicate ReachesWrites(caller: Caller, file: Option<UploadedFile>, fault: Option<Step>, users: seq<User>) {
    && caller.Authenticated? && file.Some? && UploadCheck(file.value).None?
    && fault != Some(FetchUser) && IsAdmin(users, caller.sub)
  }

  /** The server: the uploads directory and the storage behind it. */
  class App {
    var uploads: set<string>
    const db: DatabaseStorage

    /** The storage's invariant, and every photo row is served: both its
        files are on disk (nothing here removes a file) and its URLs point
        at them. */
    ghost predicate Valid()
      reads this, db
    {
      db.Valid() && forall q :: q in db.photos ==> Served(q, uploads)
    }

    constructor (db: DatabaseStorage, files: set<string>)
      requires db.Valid() && forall q :: q in db.photos ==> Served(q, files)
      ensures Valid() && this.db == db && uploads == files
    {
      this.db := db;
      uploads := files;
    }

    /** `storage.getUser(userId)` followed by `!user?.isAdmin`. */
    method CallerIsAdmin(id: string) returns (admin: bool)
      requires Valid()
      ensures admin <==> IsAdmin(db.users, id)
    {
      var user := db.GetUser(id);
      admin := user.Some? && user.value.isAdmin == Some(true);
      if user.Some? && !admin {
        forall u | u in db.users && u.id == id ensures u.isAdmin != Some(true) {
          var i :| 0 <= i < |db.users| && db.users[i] == u;
          var j :| 0 <= j < |db.users| && db.users[j] == user.value;
          assert i == j;
        }
      }
    }

    /** `GET /api/photos`: public; every row, newest first. */
    method ListPhotos(fault: Option<Step>) returns (o: Outcome)
      requires Valid()
      ensures o.Reply? && (o.status == 200 <==> fault != Some(ReadRows))
      ensures fault == Some(ReadRows) ==> o == Reply(500, MessageJson(FetchPhotosFailed))
      ensures o.status == 500 ==> o.body == MessageJson(FetchPhotosFailed)
      ensures o.status == 200 ==> o.body.PhotoListJson? && PhotosNewestFirst(o.body.photos)
      ensures o.status == 200 ==> |o.body.photos| == |db.photos| && forall q :: q in o.body.photos <==> q in db.photos
      ensures o.status == 200 ==> forall q :: q in o.body.photos ==> Served(q, uploads)
    {
      if fault == Some(ReadRows) {
        return Reply(500, MessageJson(FetchPhotosFailed));
      }
      var photos := db.GetPhotos();
      return Reply(200, PhotoListJson(photos));
    }

    /** `POST /api/photos`: `isAuthenticated`, then the upload middleware,
        then the handler: the admin check, the missing-file check, the
        display file, the thumbnail, and last the row. A step that throws
        answers 500 and keeps what the steps before it did. */
    method UploadPhoto(caller: Caller, file: Option<UploadedFile>, now: nat, fault: Option<Step>) returns (o: Outcome)
      requires Valid() && now <= MaxTimeValue
      modifies this`uploads, db`photos, db`nextPhotoId, db`clock
      ensures Valid()
      ensures db.users == old(db.users) && db.submissions == old(db.submissions)
      ensures caller.Anonymous? ==> o == Unauthenticated
      ensures caller.Authenticated? && file.Some? && UploadCheck(file.value).Some? ==>
        o == UploadRejected(UploadCheck(file.value).value)
      ensures caller.Authenticated? && (file.None? || UploadCheck(file.value).None?) ==>
        o.Reply? &&
        (fault == Some(FetchUser) ==> o == Reply(500, MessageJson(UploadFailed))) &&
        (fault != Some(FetchUser) && !IsAdmin(old(db.users), caller.sub) ==> o == Reply(403, MessageJson(AdminRequired))) &&
        (fault != Some(FetchUser) && IsAdmin(old(db.users), caller.sub) && file.None? ==>
           o == Reply(400, MessageJson(NoFileUploaded)))
      ensures ReachesWrites(caller, file, fault, old(db.users)) ==>
        o.Reply? && (o.status == 200 || o == Reply(500, MessageJson(UploadFailed)))
      ensures o.Reply? && o.status == 500 ==> o.body == MessageJson(UploadFailed)
      // Before the first write nothing changes.
      ensures !ReachesWrites(caller, file, fault, old(db.users)) ==>
        uploads == old(uploads) && db.photos == old(db.photos) && db.nextPhotoId == old(db.nextPhotoId)
      // The writes, in order: display file, thumbnail, row.
      ensures ReachesWrites(caller, file, fault, old(db.users)) ==>
        var name := StoredName(now, file.value.originalname);
        && (fault == Some(WriteDisplay) ==> o.status == 500 && uploads == old(uploads))
        && (fault == Some(WriteThumbnail) ==> o.status == 500 && uploads == old(uploads) + {name})
        && (fault != Some(WriteDisplay) && fault != Some(WriteThumbnail) ==>
              uploads == old(uploads) + {name, ThumbnailName(name)})
        && (fault == Some(InsertRow) ==> o.status == 500)
        && (o.status == 200 <==>
              && fault != Some(WriteDisplay) && fault != Some(WriteThumbnail) && fault != Some(InsertRow)
              && old(db.nextPhotoId) <= MaxInt4)
      ensures o.Reply? && o.status == 200 ==>
        && o.body.PhotoJson?
        && db.photos == old(db.photos) + [o.body.photo]
        && file.Some? && UploadCheck(file.value).None?
        && PhotoPayload(o.body.photo) == PhotoData(now, file.value, caller.sub)
        && (forall q :: q in old(db.photos) ==> q.id < o.body.photo.id)
      ensures !(o.Reply? && o.status == 200) ==> db.photos == old(db.photos)
    {
      if caller.Anonymous? {
        return Unauthenticated;
      }
      if file.Some? && UploadCheck(file.value).Some? {
        return UploadRejected(UploadCheck(file.value).value);
      }
      if fault == Some(FetchUser) {
        return Reply(500, MessageJson(UploadFailed));
      }
      var admin := CallerIsAdmin(caller.sub);
      if !admin {
        return Reply(403, MessageJson(AdminRequired));
      }
      if file.None? {
        return Reply(400, MessageJson(NoFileUploaded));
      }
      o := StoreUpload(file.value, now, caller.sub, fault);
    }

    /** The upload handler from the file names on: the display file, the
        thumbnail, and last the row, each of which can throw. */
    method StoreUpload(f: UploadedFile, now: nat, userId: string, fault: Option<Step>) returns (o: Outcome)
      requires Valid() && userId in UserIds(db.users) && now <= MaxTimeValue && f.size <= MaxFileSize
      modifies this`uploads, db`photos, db`nextPhotoId, db`clock
      ensures Valid()
      ensures db.users == old(db.users) && db.submissions == old(db.submissions)
      ensures o.Reply? && (o.status == 200 || o == Reply(500, MessageJson(UploadFailed)))
      ensures var name := StoredName(now, f.originalname);
        && (fault == Some(WriteDisplay) ==> uploads == old(uploads))
        && (fault == Some(WriteThumbnail) ==> uploads == old(uploads) + {name})
        && (fault != Some(WriteDisplay) && fault != Some(WriteThumbnail) ==>
              uploads == old(uploads) + {name, ThumbnailName(name)})
      ensures o.status == 200 <==>
        && fault != Some(WriteDisplay) && fault != Some(WriteThumbnail) && fault != Some(InsertRow)
        && old(db.nextPhotoId) <= MaxInt4
      ensures o.status == 200 ==>
        && o.body.PhotoJson?
        && db.photos == old(db.photos) + [o.body.photo]
        && PhotoPayload(o.body.photo) == PhotoData(now, f, userId)
        && (forall q :: q in old(db.photos) ==> q.id < o.body.photo.id)
      ensures o.status != 200 ==> db.photos == old(db.photos)
    {
      var name := StoredName(now, f.originalname);
      var written := WriteFiles(name, fault);
      if !written || fault == Some(InsertRow) {
        return Reply(500, MessageJson(UploadFailed));
      }
      var p := PhotoData(now, f, userId);
      assert p.filename == name && name in uploads && ThumbnailName(name) in uploads;
      o := SavePhoto(p);
    }

    /** `storage.createPhoto(photoData)` once both files are on disk: 200
        with the new row, or 500 when the serial is exhausted. */
    method SavePhoto(p: InsertPhoto) returns (o: Outcome)
      requires Valid() && p.uploadedBy in UserIds(db.users)
      requires p.filename in uploads && ThumbnailName(p.filename) in uploads
      requires p.url == PublicUrl(p.filename) && p.thumbnailUrl == Some(PublicUrl(ThumbnailName(p.filename)))
      modifies db`photos, db`nextPhotoId, db`clock
      ensures Valid()
      ensures o.Reply? && (o.status == 200 || o == Reply(500, MessageJson(UploadFailed)))
      ensures o.status == 200 <==> old(db.nextPhotoId) <= MaxInt4
      ensures o.status == 200 ==>
        && o.body.PhotoJson?
        && db.photos == old(db.photos) + [o.body.photo]
        && PhotoPayload(o.body.photo) == p
        && (forall q :: q in old(db.photos) ==> q.id < o.body.photo.id)
      ensures o.status != 200 ==> db.photos == old(db.photos)
    {
      var r := db.CreatePhoto(p);
      if r.Err? {
        return Reply(500, MessageJson(UploadFailed));
      }
      assert Served(r.value, uploads);
      return Reply(200, PhotoJson(r.value));
    }

    /** The two `sharp(...).toFile(...)` calls: the display file, then the
        thumbnail; `written` is false when one of them throws. */
    method WriteFiles(fileName: string, fault: Option<Step>) returns (written: bool)
      requires Valid()
      modifies this`uploads
      ensures Valid()
      ensures written <==> fault != Some(WriteDisplay) && fault != Some(WriteThumbnail)
      ensures fault == Some(WriteDisplay) ==> uploads == old(uploads)
      ensures fault == Some(WriteThumbnail) ==> uploads == old(uploads) + {fileName}
      ensures written ==> uploads == old(uploads) + {fileName, ThumbnailName(fileName)}
    {
      if fault == Some(WriteDisplay) {
        return false;
      }
      uploads := uploads + {fileName};
      if fault == Some(WriteThumbnail) {
        return false;
      }
      uploads := uploads + {ThumbnailName(fileName)};
      written := true;
    }

    /** `DELETE /api/photos/:id`: the admin check, `parseInt` of the id,
        then the row goes. Answers `{success: true}` also when no row had
        the id; never removes a file. */
    method DeletePhoto(caller: Caller, rawId: string, fault: Option<Step>) returns (o: Outcome)
      requires Valid()
      modifies db`photos
      ensures Valid()
      ensures uploads == old(uploads)
      ensures caller.Anonymous? ==> o == Unauthenticated
      ensures caller.Authenticated? ==>
        o.Reply? &&
        (fault == Some(FetchUser) ==> o == Reply(500, MessageJson(DeleteFailed))) &&
        (fault != Some(FetchUser) && !IsAdmin(old(db.users), caller.sub) ==> o == Reply(403, MessageJson(AdminRequired))) &&
        (fault != Some(FetchUser) && IsAdmin(old(db.users), caller.sub) ==>
           (ParseInt(rawId).None? ==> o == Reply(400, MessageJson(InvalidPhotoId))) &&
           (ParseInt(rawId).Some? ==>
              (o == Reply(200, SuccessJson) || o == Reply(500, MessageJson(DeleteFailed))) &&
              (o == Reply(200, SuccessJson) <==>
                 fault != Some(DeleteRow) && MinInt4 <= ParseInt(rawId).value <= MaxInt4)))
      ensures o.Reply? && o.status == 500 ==> o.body == MessageJson(DeleteFailed)
      ensures o == Reply(200, SuccessJson) ==>
        ParseInt(rawId).Some? && db.photos == WithoutPhoto(old(db.photos), ParseInt(rawId).value)
      ensures o != Reply(200, SuccessJson) ==> db.photos == old(db.photos)
    {
      if caller.Anonymous? {
        return Unauthenticated;
      }
      if fault == Some(FetchUser) {
        return Reply(500, MessageJson(DeleteFailed));
      }
      var admin := CallerIsAdmin(caller.sub);
      if !admin {
        return Reply(403, MessageJson(AdminRequired));
      }
      var photoId := ParseInt(rawId);
      if photoId.None? {
        return Reply(400, MessageJson(InvalidPhotoId));
      }
      if fault == Some(DeleteRow) {
        return Reply(500, MessageJson(DeleteFailed));
      }
      var r := db.DeletePhoto(photoId.value);
      if r.Err? {
        return Reply(500, MessageJson(DeleteFailed));
      }
      return Reply(200, SuccessJson);
    }

    /** `GET /api/admin/contact-submissions`: the admin check, then every
        submission, newest first. */
    method ListContactSubmissions(caller: Caller, fault: Option<Step>) returns (o: Outcome)
      requires Valid()
      ensures caller.Anonymous? ==> o == Unauthenticated
      ensures caller.Authenticated? ==>
        o.Reply? &&
        (fault == Some(FetchUser) ==> o == Reply(500, MessageJson(FetchSubmissionsFailed))) &&
        (fault != Some(FetchUser) && !IsAdmin(db.users, caller.sub) ==> o == Reply(403, MessageJson(AdminRequired))) &&
        (fault != Some(FetchUser) && IsAdmin(db.users, caller.sub) ==>
           (o.status == 200 <==> fault != Some(ReadRows)) &&
           (fault == Some(ReadRows) ==> o == Reply(500, MessageJson(FetchSubmissionsFailed))))
      ensures o.Reply? && o.status == 500 ==> o.body == MessageJson(FetchSubmissionsFailed)
      ensures o.Reply? && o.status == 200 ==>
        && o.body.SubmissionListJson? && SubmissionsNewestFirst(o.body.submissions)
        && |o.body.submissions| == |db.submissions|
        && forall c :: c in o.body.submissions <==> c in db.submissions
    {
      if caller.Anonymous? {
        return Unauthenticated;
      }
      if fault == Some(FetchUser) {
        return Reply(500, MessageJson(FetchSubmissionsFailed));
      }
      var admin := CallerIsAdmin(caller.sub);
      if !admin {
        return Reply(403, MessageJson(AdminRequired));
      }
      if fault == Some(ReadRows) {
        return Reply(500, MessageJson(FetchSubmissionsFailed));
      }
      var submissions := db.GetContactSubmissions();
      return Reply(200, SubmissionListJson(submissions));
    }
  }
}
