/** `DatabaseStorage` (server/storage.ts): the user, photo and contact
    submission operations over the three tables, kept here as sequences in
    insertion order. The database's `serial` sequences are counters, and
    its `now()` is a clock that strictly increases from one insert to the
    next. */
module Storage {
  import opened Wrappers
  import opened Schema

  /** The bounds of a 4-byte `integer` column, which `serial` ids are. */
  const MaxInt4 := 0x7FFF_FFFF
  const MinInt4 := -0x8000_0000

  /** The errors the database raises for these operations. */
  datatype DbError =
    | SequenceExhausted     // `nextval` past the largest serial
    | ForeignKeyViolation   // `uploaded_by` names no user
    | UniqueViolation       // another user holds the e-mail
    | OutOfRange            // an id that is no 4-byte integer

  // ---------------------------------------------------------------------
  // Table orders

  /** Insertion order: ids and creation times strictly increase. */
  ghost predicate PhotosInOrder(ps: seq<Photo>) {
    forall i, j :: 0 <= i < j < |ps| ==> ps[i].id < ps[j].id && ps[i].createdAt < ps[j].createdAt
  }

  ghost predicate SubmissionsInOrder(cs: seq<ContactSubmission>) {
    forall i, j :: 0 <= i < j < |cs| ==> cs[i].id < cs[j].id && cs[i].createdAt < cs[j].createdAt
  }

  /** `ORDER BY created_at DESC`. */
  ghost predicate PhotosNewestFirst(ps: seq<Photo>) {
    forall i, j :: 0 <= i < j < |ps| ==> ps[i].createdAt > ps[j].createdAt
  }

  ghost predicate SubmissionsNewestFirst(cs: seq<ContactSubmission>) {
    forall i, j :: 0 <= i < j < |cs| ==> cs[i].createdAt > cs[j].createdAt
  }

  function Reversed<T>(s: seq<T>): (r: seq<T>)
    ensures |r| == |s|
    ensures forall k :: 0 <= k < |s| ==> r[k] == s[|s| - 1 - k]
  {
    if s == [] then [] else Reversed(s[1..]) + [s[0]]
  }

  // ---------------------------------------------------------------------
  // Lookups and deletion

  /** The position of the user row with `id`, or `|users|` when there is
      none. */
  function UserIndex(users: seq<User>, id: string): (k: nat)
    ensures k <= |users|
    ensures k < |users| ==> users[k].id == id
    ensures k == |users| <==> id !in UserIds(users)
  {
    if users == [] then 0
    else if users[0].id == id then 0
    else 1 + UserIndex(users[1..], id)
  }

  /** `DELETE FROM photos WHERE id = $1` on a table in insertion order. */
  function WithoutPhoto(ps: seq<Photo>, id: int): (r: seq<Photo>)
    ensures forall q :: q in r <==> q in ps && q.id != id
    ensures |r| <= |ps|
  {
    if ps == [] then []
    else if ps[0].id == id then WithoutPhoto(ps[1..], id)
    else [ps[0]] + WithoutPhoto(ps[1..], id)
  }

  /** A row before rows that all come after it, in order, is in order. */
  lemma ConsInOrder(p: Photo, t: seq<Photo>)
    requires PhotosInOrder(t)
    requires forall q :: q in t ==> p.id < q.id && p.createdAt < q.createdAt
    ensures PhotosInOrder([p] + t)
  {
    var r := [p] + t;
    forall i, j | 0 <= i < j < |r|
      ensures r[i].id < r[j].id && r[i].createdAt < r[j].createdAt
    {
      assert r[j] == t[j - 1];
      if i > 0 {
        assert r[i] == t[i - 1];
      }
    }
  }

  lemma HeadFirst(ps: seq<Photo>)
    requires ps != [] && PhotosInOrder(ps)
    ensures PhotosInOrder(ps[1..])
    ensures forall q :: q in ps[1..] ==> ps[0].id < q.id && ps[0].createdAt < q.createdAt
  {
    forall q | q in ps[1..] ensures ps[0].id < q.id && ps[0].createdAt < q.createdAt {
      var k :| 0 <= k < |ps[1..]| && ps[1..][k] == q;
      assert ps[k + 1] == q;
    }
  }

  /** Deleting keeps the other rows in their order. */
  lemma {:induction false} WithoutPhotoInOrder(ps: seq<Photo>, id: int)
    requires PhotosInOrder(ps)
    ensures PhotosInOrder(WithoutPhoto(ps, id))
  {
    if ps != [] {
      HeadFirst(ps);
      WithoutPhotoInOrder(ps[1..], id);
      if ps[0].id != id {
        ConsInOrder(ps[0], WithoutPhoto(ps[1..], id));
      }
    }
  }

  /** Deleting an id that no row has leaves the table as it is. */
  lemma {:induction false} WithoutAbsentPhoto(ps: seq<Photo>, id: int)
    requires forall q :: q in ps ==> q.id != id
    ensures WithoutPhoto(ps, id) == ps
  {
    if ps != [] {
      WithoutAbsentPhoto(ps[1..], id);
    }
  }

  /** Deleting twice is deleting once. */
  lemma WithoutPhotoTwice(ps: seq<Photo>, id: int)
    ensures WithoutPhoto(WithoutPhoto(ps, id), id) == WithoutPhoto(ps, id)
  {
    WithoutAbsentPhoto(WithoutPhoto(ps, id), id);
  }

  /** The row an upsert of `u` writes. */
  function UpsertedRow(users: seq<User>, u: UpsertUser, created: int, updated: int): User {
    var k := UserIndex(users, u.id);
    if k < |users| then MergeUser(users[k], u, updated) else NewUser(u, created, updated)
  }

  lemma UserIdsUpdate(users: seq<User>, k: nat, row: User)
    requires k < |users| && row.id == users[k].id
    ensures UserIds(users[k := row]) == UserIds(users)
  {
    var v := users[k := row];
    forall x | x in UserIds(users) ensures x in UserIds(v) {
      var j :| 0 <= j < |users| && users[j].id == x;
      assert v[j].id == x;
    }
    forall x | x in UserIds(v) ensures x in UserIds(users) {
      var j :| 0 <= j < |v| && v[j].id == x;
      assert users[j].id == x;
    }
  }

  class DatabaseStorage {
    var users: seq<User>
    var photos: seq<Photo>
    var submissions: seq<ContactSubmission>
    var nextPhotoId: int
    var nextSubmissionId: int
    var clock: int

    /** The tables' constraints and the counters' relation to them: ids are
        below the next serial value and stamps below the clock. */
    ghost predicate Valid()
      reads this
    {
      && UserKeysUnique(users) && EmailsUnique(users)
      && PhotosInOrder(photos) && UploadersExist(photos, users)
      && (forall i :: 0 <= i < |photos| ==> 1 <= photos[i].id < nextPhotoId && photos[i].createdAt < clock)
      && SubmissionsInOrder(submissions)
      && (forall i :: 0 <= i < |submissions| ==>
            1 <= submissions[i].id < nextSubmissionId && submissions[i].createdAt < clock)
      && nextPhotoId >= 1 && nextSubmissionId >= 1
    }

    constructor (now: int)
      ensures Valid()
      ensures users == [] && photos == [] && submissions == []
      ensures nextPhotoId == 1 && nextSubmissionId == 1 && clock == now
    {
      users, photos, submissions := [], [], [];
      nextPhotoId, nextSubmissionId := 1, 1;
      clock := now;
    }

    /** `getUser(id)`: the row with that id, if any. */
    method GetUser(id: string) returns (r: Option<User>)
      ensures r.Some? ==> r.value in users && r.value.id == id
      ensures r.None? <==> id !in UserIds(users)
    {
      var k := UserIndex(users, id);
      r := if k < |users| then Some(users[k]) else None;
    }

    /** `upsertUser(u)`: insert the row when its id is new, otherwise
        overwrite the supplied fields of the row with that id; either way
        set `updatedAt` to `serverNow`, the server's `new Date()`, while a
        new row's `createdAt` is the database clock. The write fails, changing nothing, when another
        user already holds the e-mail. */
    method UpsertUser(u: UpsertUser, serverNow: int) returns (r: Result<User, DbError>)
      requires Valid()
      modifies this`users, this`clock
      ensures Valid()
      ensures var row := UpsertedRow(old(users), u, old(clock), serverNow);
        r.Ok? <==> !EmailTaken(old(users), row.email, u.id)
      ensures r.Ok? ==> r.value == UpsertedRow(old(users), u, old(clock), serverNow)
      ensures r.Ok? && u.id !in UserIds(old(users)) ==> users == old(users) + [r.value]
      ensures r.Ok? ==> forall v :: v in old(users) && v.id == u.id ==> r.value == MergeUser(v, u, serverNow)
      ensures r.Ok? ==> r.value in users && UserIds(users) == UserIds(old(users)) + {u.id}
      ensures forall v :: v in old(users) && (r.Err? || v.id != u.id) ==> v in users
      ensures forall v :: v in users && (r.Err? || v.id != u.id) ==> v in old(users)
      ensures r.Err? ==> r.error == UniqueViolation && users == old(users) && clock == old(clock)
      ensures clock >= old(clock)
    {
      var k := UserIndex(users, u.id);
      var row := UpsertedRow(users, u, clock, serverNow);
      if EmailTaken(users, row.email, u.id) {
        return Err(UniqueViolation);
      }
      if k < |users| {
        UserIdsUpdate(users, k, row);
        forall v | v in users && v.id == u.id ensures v == users[k] {
          var j :| 0 <= j < |users| && users[j] == v;
        }
        forall v | v in users && v.id != u.id ensures v in users[k := row] {
          var j :| 0 <= j < |users| && users[j] == v;
          assert users[k := row][j] == v;
        }
        users := users[k := row];
      } else {
        users := users + [row];
      }
      clock := clock + 1;
      r := Ok(row);
    }

    /** `createPhoto(p)`: add one row holding the payload, with a fresh
        serial id and the current time, and return it. Drawing the id uses
        up a serial value even when the reference check then refuses the
        row. */
    method CreatePhoto(p: InsertPhoto) returns (r: Result<Photo, DbError>)
      requires Valid()
      modifies this`photos, this`nextPhotoId, this`clock
      ensures Valid()
      ensures r.Ok? <==> old(nextPhotoId) <= MaxInt4 && p.uploadedBy in UserIds(users)
      ensures r == Err(SequenceExhausted) <==> old(nextPhotoId) > MaxInt4
      ensures r.Ok? ==> r.value == NewPhoto(old(nextPhotoId), old(clock), p)
      ensures r.Ok? ==> photos == old(photos) + [r.value]
      ensures r.Ok? ==> forall q :: q in old(photos) ==> q.id < r.value.id && q.createdAt < r.value.createdAt
      ensures r.Err? ==> photos == old(photos)
      ensures nextPhotoId == if old(nextPhotoId) <= MaxInt4 then old(nextPhotoId) + 1 else old(nextPhotoId)
      ensures clock >= old(clock)
    {
      if nextPhotoId > MaxInt4 {
        return Err(SequenceExhausted);
      }
      var id := nextPhotoId;
      nextPhotoId := nextPhotoId + 1;
      if UserIndex(users, p.uploadedBy) == |users| {
        return Err(ForeignKeyViolation);
      }
      var row := NewPhoto(id, clock, p);
      photos := photos + [row];
      clock := clock + 1;
      r := Ok(row);
    }

    /** `getPhotos()`: every photo row, newest first. */
    method GetPhotos() returns (r: seq<Photo>)
      requires Valid()
      ensures PhotosNewestFirst(r)
      ensures |r| == |photos| && forall q :: q in r <==> q in photos
    {
      r := Reversed(photos);
      forall q | q in photos ensures q in r {
        var j :| 0 <= j < |photos| && photos[j] == q;
        assert r[|photos| - 1 - j] == q;
      }
    }

    /** `deletePhoto(id)`: remove the rows with that id and no other; no row
        matching is not an error. An id outside the 4-byte range is
        refused by the database. */
    method DeletePhoto(id: int) returns (r: Result<(), DbError>)
      requires Valid()
      modifies this`photos
      ensures Valid()
      ensures r.Err? <==> !(MinInt4 <= id <= MaxInt4)
      ensures r.Err? ==> r.error == OutOfRange && photos == old(photos)
      ensures r.Ok? ==> photos == WithoutPhoto(old(photos), id)
      ensures forall q :: q in photos <==> q in old(photos) && (r.Err? || q.id != id)
    {
      if !(MinInt4 <= id <= MaxInt4) {
        return Err(OutOfRange);
      }
      WithoutPhotoInOrder(photos, id);
      photos := WithoutPhoto(photos, id);
      r := Ok(());
    }

    /** `createContactSubmission(s)`: add one row holding the payload, with a
        fresh serial id and the current time, and return it. */
    method CreateContactSubmission(s: InsertContactSubmission) returns (r: Result<ContactSubmission, DbError>)
      requires Valid()
      modifies this`submissions, this`nextSubmissionId, this`clock
      ensures Valid()
      ensures r.Ok? <==> old(nextSubmissionId) <= MaxInt4
      ensures r.Ok? ==> r.value == NewSubmission(old(nextSubmissionId), old(clock), s)
      ensures r.Ok? ==> submissions == old(submissions) + [r.value]
      ensures r.Ok? ==> forall c :: c in old(submissions) ==> c.id < r.value.id && c.createdAt < r.value.createdAt
      ensures r.Err? ==> r.error == SequenceExhausted && submissions == old(submissions)
      ensures nextSubmissionId == if old(nextSubmissionId) <= MaxInt4 then old(nextSubmissionId) + 1 else old(nextSubmissionId)
      ensures clock >= old(clock)
    {
      if nextSubmissionId > MaxInt4 {
        return Err(SequenceExhausted);
      }
      var row := NewSubmission(nextSubmissionId, clock, s);
      nextSubmissionId := nextSubmissionId + 1;
      submissions := submissions + [row];
      clock := clock + 1;
      r := Ok(row);
    }

    /** `getContactSubmissions()`: every submission, newest first. */
    method GetContactSubmissions() returns (r: seq<ContactSubmission>)
      requires Valid()
      ensures SubmissionsNewestFirst(r)
      ensures |r| == |submissions| && forall c :: c in r <==> c in submissions
    {
      r := Reversed(submissions);
      forall c | c in submissions ensures c in r {
        var j :| 0 <= j < |submissions| && submissions[j] == c;
        assert r[|submissions| - 1 - j] == c;
      }
    }
  }
}
