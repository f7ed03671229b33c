/** The attendance-form setting: one `attendance_settings` document holding a Google form
    URL, written by the admin handler of backend/app/routes/admin/attendance_settings.py and
    read there and by backend/app/routes/attendance.py. `find_one()` with no filter reads the
    first stored document. */
module AttendanceSettings {
  import opened Outcomes
  import opened ObjectIds
  import opened Collections

  const NoFormConfigured := "No attendance form configured"

  /** An `AttendanceSettings` document: its only field is `google_form_url`. */
  datatype Settings = Settings(google_form_url: string)

  class SettingsCollection {
    var docs: seq<Doc<Settings>>

    ghost predicate Valid()
      reads this
    {
      UniqueIds(docs)
    }
  }

  /** `AttendanceSettings.find_one()`. */
  function First(docs: seq<Doc<Settings>>): (r: Option<Doc<Settings>>)
    ensures r.None? <==> docs == []
    ensures r.Some? ==> r.value == docs[0]
  {
    if docs == [] then None else Some(docs[0])
  }

  /** `set_attendance_form_url`: the answer and the new collection. With no document one
      is inserted; otherwise the first one gets the new URL. */
  function SetFormUrl(docs: seq<Doc<Settings>>, url: string, newId: ObjectId): (r: (string, seq<Doc<Settings>>))
    ensures r.0 == url
    ensures docs == [] ==> r.1 == [Doc(newId, Settings(url))]
    ensures docs != [] ==> r.1 == Replace(docs, docs[0].id, Settings(url))
  {
    match First(docs)
    case None => (url, [Doc(newId, Settings(url))])
    case Some(d) => (url, Replace(docs, d.id, Settings(url)))
  }

  /** The admin `get_attendance_form_url`: "" when there is no document or its URL is empty. */
  function AdminFormUrl(docs: seq<Doc<Settings>>): (r: string)
    ensures docs == [] ==> r == ""
    ensures docs != [] ==> r == docs[0].body.google_form_url
  {
    match First(docs)
    case None => ""
    case Some(d) => if d.body.google_form_url == "" then "" else d.body.google_form_url
  }

  /** The member `get_attendance_form_url`: 404 when there is no document or its URL is
      empty, otherwise the stored URL unchanged. */
  function MemberFormUrl(docs: seq<Doc<Settings>>): (r: Outcome<string>)
    ensures r.Err? <==> docs == [] || docs[0].body.google_form_url == ""
    ensures r.Err? ==> r == Err(NotFound, NoFormConfigured)
    ensures r.Ok? ==> r.value == docs[0].body.google_form_url
  {
    match First(docs)
    case None => Err(NotFound, NoFormConfigured)
    case Some(d) => if d.body.google_form_url == "" then Err(NotFound, NoFormConfigured) else Ok(d.body.google_form_url)
  }

  /** The two readers agree: the member one succeeds exactly when the admin one returns a
      non-empty URL, and then with that URL. */
  lemma ReadersAgree(docs: seq<Doc<Settings>>)
    ensures MemberFormUrl(docs).Ok? <==> AdminFormUrl(docs) != ""
    ensures MemberFormUrl(docs).Ok? ==> MemberFormUrl(docs).value == AdminFormUrl(docs)
  {
  }

  /** After setting `url`, the admin reader returns it, the member reader returns it when it
      is non-empty and 404 otherwise, and there is exactly one more document only when
      there was none. */
  lemma SetThenGet(docs: seq<Doc<Settings>>, url: string, newId: ObjectId)
    ensures AdminFormUrl(SetFormUrl(docs, url, newId).1) == url
    ensures url != "" ==> MemberFormUrl(SetFormUrl(docs, url, newId).1) == Ok(url)
    ensures url == "" ==> MemberFormUrl(SetFormUrl(docs, url, newId).1) == Err(NotFound, NoFormConfigured)
    ensures |SetFormUrl(docs, url, newId).1| == (if docs == [] then 1 else |docs|)
  {
  }

  /** Setting the same URL twice leaves the collection as setting it once, whatever id the
      second call would have used. */
  lemma SetIdempotent(docs: seq<Doc<Settings>>, url: string, id1: ObjectId, id2: ObjectId)
    ensures SetFormUrl(SetFormUrl(docs, url, id1).1, url, id2).1 == SetFormUrl(docs, url, id1).1
  {
    var once := SetFormUrl(docs, url, id1).1;
    assert once != [];
    if docs != [] {
      assert once[0].id == docs[0].id;
    }
  }

  /** `set_attendance_form_url` against the collection. */
  method SetAttendanceFormUrl(db: SettingsCollection, url: string, newId: ObjectId) returns (r: string)
    requires db.Valid()
    modifies db
    ensures db.Valid()
    ensures (r, db.docs) == SetFormUrl(old(db.docs), url, newId)
  {
    var settings := First(db.docs);
    if settings.None? {
      db.docs := [Doc(newId, Settings(url))];
    } else {
      db.docs := Replace(db.docs, settings.value.id, Settings(url));
    }
    r := url;
  }
}

/** Seeding the `system_roles` collection: the seed-once handler of
    backend/app/routes/admin/roles.py and the merging handler of app/routes/admin/roles.py.
    The document looked for is the first whose `name` is "system_roles". */
module RoleSeeding {
  import opened Outcomes
  import opened ObjectIds
  import opened Collections
  import opened MemberModel

  const SystemRolesName := "system_roles"
  const SystemRolesDescription := "System-defined roles"
  const AlreadyInitialized := "Roles already initialized"
  const Initialized := "Roles initialized successfully"

  datatype RolesDoc = RolesDoc(name: string, roles: seq<string>, description: string)

  class RolesCollection {
    var docs: seq<Doc<RolesDoc>>

    ghost predicate Valid()
      reads this
    {
      UniqueIds(docs)
    }
  }

  function IsSystemRoles(d: RolesDoc): bool {
    d.name == SystemRolesName
  }

  /** The document the first seed inserts. */
  function SeedDoc(): (d: RolesDoc)
    ensures d.name == SystemRolesName && d.roles == ValidRoles
  {
    RolesDoc(SystemRolesName, ValidRoles, SystemRolesDescription)
  }

  /** The seed-once handler: 400 when a "system_roles" document exists, nothing changing;
      otherwise one document carrying every valid role, in order, is inserted. */
  function SeedOnce(docs: seq<Doc<RolesDoc>>, newId: ObjectId): (r: (Outcome<string>, seq<Doc<RolesDoc>>))
    ensures FindFirst(docs, IsSystemRoles).Some? ==> r == (Err(BadRequest, AlreadyInitialized), docs)
    ensures FindFirst(docs, IsSystemRoles).None? ==> r == (Ok(Initialized), docs + [Doc(newId, SeedDoc())])
  {
    if FindFirst(docs, IsSystemRoles).Some? then (Err(BadRequest, AlreadyInitialized), docs)
    else (Ok(Initialized), docs + [Doc(newId, SeedDoc())])
  }

  /** After a successful seed, the "system_roles" document read back holds `VALID_ROLES`,
      and a second seed is refused without change. */
  lemma SeedOnceThenAgain(docs: seq<Doc<RolesDoc>>, id1: ObjectId, id2: ObjectId)
    requires SeedOnce(docs, id1).0.Ok?
    ensures FindFirst(SeedOnce(docs, id1).1, IsSystemRoles) == Some(Doc(id1, SeedDoc()))
    ensures SeedOnce(SeedOnce(docs, id1).1, id2) == (Err(BadRequest, AlreadyInitialized), SeedOnce(docs, id1).1)
  {
    FindFirstAppend(docs, Doc(id1, SeedDoc()), IsSystemRoles);
  }

  /** The seed-once handler against the collection. */
  method SeedRolesOnce(db: RolesCollection, newId: ObjectId) returns (r: Outcome<string>)
    requires db.Valid() && !HasId(db.docs, newId)
    modifies db
    ensures db.Valid()
    ensures (r, db.docs) == SeedOnce(old(db.docs), newId)
  {
    var existing := FindFirst(db.docs, IsSystemRoles);
    if existing.Some? {
      return Err(BadRequest, AlreadyInitialized);
    }
    db.docs := db.docs + [Doc(newId, SeedDoc())];
    r := Ok(Initialized);
  }

  /** The answers of the merging handler. */
  datatype MergeAnswer = NoNewRoles | RolesUpdated(added: seq<string>)

  /** `[role for role in VALID_ROLES if not existing_roles]`: every valid role when the stored
      list is empty, none otherwise. */
  function NewRolesAsWritten(existing: seq<string>): (r: seq<string>)
    ensures existing == [] ==> r == ValidRoles
    ensures existing != [] ==> r == []
  {
    if existing == [] then ValidRoles else []
  }

  /** The merging handler as written. Without a "system_roles" document it inserts one and
      then reads `new_roles`, which that branch never assigned: the request ends as a server
      error although the insert happened. With one it adds the roles of
      `NewRolesAsWritten` to the stored list. */
  function MergeSeed(docs: seq<Doc<RolesDoc>>, newId: ObjectId): (r: (Outcome<MergeAnswer>, seq<Doc<RolesDoc>>))
    ensures FindFirst(docs, IsSystemRoles).None? ==>
      r == (Err(InternalError, ServerErrorDetail), docs + [Doc(newId, SeedDoc())])
    ensures FindFirst(docs, IsSystemRoles).Some? ==>
      var e := FindFirst(docs, IsSystemRoles).value;
      (e.body.roles != [] ==> r == (Ok(NoNewRoles), docs)) &&
      (e.body.roles == [] ==> r == (Ok(RolesUpdated(ValidRoles)), Replace(docs, e.id, e.body.(roles := e.body.roles + ValidRoles))))
  {
    match FindFirst(docs, IsSystemRoles)
    case None => (Err(InternalError, ServerErrorDetail), docs + [Doc(newId, SeedDoc())])
    case Some(e) =>
      var added := NewRolesAsWritten(e.body.roles);
      if added == [] then (Ok(NoNewRoles), docs)
      else (Ok(RolesUpdated(added)), Replace(docs, e.id, e.body.(roles := e.body.roles + added)))
  }

  /** On an empty collection the merging handler answers with a server error, yet the
      second call finds the inserted document and answers "No new roles to add". */
  lemma MergeSeedFirstCallFails(id1: ObjectId, id2: ObjectId)
    ensures MergeSeed([], id1).0.Err?
    ensures MergeSeed([], id1).1 == [Doc(id1, SeedDoc())]
    ensures MergeSeed(MergeSeed([], id1).1, id2) == (Ok(NoNewRoles), [Doc(id1, SeedDoc())])
  {
    assert FindFirst([Doc(id1, SeedDoc())], IsSystemRoles) == Some(Doc(id1, SeedDoc()));
  }

  /** A stored list missing valid roles gets none of them added, because the
      comprehension tests the whole stored list rather than each role. */
  lemma MergeSeedMissesRoles(id: ObjectId, newId: ObjectId)
    ensures var docs := [Doc(id, RolesDoc(SystemRolesName, ["Admin"], SystemRolesDescription))];
      MergeSeed(docs, newId) == (Ok(NoNewRoles), docs) && "Staff" in ValidRoles && "Staff" !in docs[0].body.roles
  {
    var docs := [Doc(id, RolesDoc(SystemRolesName, ["Admin"], SystemRolesDescription))];
    assert FindFirst(docs, IsSystemRoles) == Some(docs[0]);
  }

  /** `[role for role in VALID_ROLES if role not in existing_roles]`, keeping their order. */
  function MissingRoles(existing: seq<string>, valid: seq<string>): (r: seq<string>)
    ensures forall i :: 0 <= i < |r| ==> r[i] in valid && r[i] !in existing
    ensures forall i :: 0 <= i < |valid| && valid[i] !in existing ==> valid[i] in r
  {
    if valid == [] then []
    else (if valid[0] in existing then [] else [valid[0]]) + MissingRoles(existing, valid[1..])
  }

  /** The merge as evidently intended: insert when absent and answer normally, otherwise add
      the valid roles the stored list lacks. */
  function MergeSeedIntended(docs: seq<Doc<RolesDoc>>, newId: ObjectId): (r: (Outcome<MergeAnswer>, seq<Doc<RolesDoc>>))
    ensures r.0.Ok?
  {
    match FindFirst(docs, IsSystemRoles)
    case None => (Ok(RolesUpdated(ValidRoles)), docs + [Doc(newId, SeedDoc())])
    case Some(e) =>
      var added := MissingRoles(e.body.roles, ValidRoles);
      if added == [] then (Ok(NoNewRoles), docs)
      else (Ok(RolesUpdated(added)), Replace(docs, e.id, e.body.(roles := e.body.roles + added)))
  }

  /** After the intended merge, the "system_roles" document holds every valid role and every
      role it held before, in the old order followed by the added ones. */
  lemma MergeSeedIntendedComplete(docs: seq<Doc<RolesDoc>>, newId: ObjectId)
    requires UniqueIds(docs) && !HasId(docs, newId)
    ensures var after := FindFirst(MergeSeedIntended(docs, newId).1, IsSystemRoles);
      after.Some? &&
      (forall i :: 0 <= i < |ValidRoles| ==> ValidRoles[i] in after.value.body.roles) &&
      (FindFirst(docs, IsSystemRoles).Some? ==>
         |FindFirst(docs, IsSystemRoles).value.body.roles| <= |after.value.body.roles| &&
         after.value.body.roles[..|FindFirst(docs, IsSystemRoles).value.body.roles|] == FindFirst(docs, IsSystemRoles).value.body.roles)
  {
    var after := MergeSeedIntended(docs, newId).1;
    match FindFirst(docs, IsSystemRoles)
    case None =>
      FindFirstAppend(docs, Doc(newId, SeedDoc()), IsSystemRoles);
    case Some(e) =>
      var added := MissingRoles(e.body.roles, ValidRoles);
      var k :| 0 <= k < |docs| && docs[k] == e;
      LookupUnique(docs, k);
      if added != [] {
        var body := e.body.(roles := e.body.roles + added);
        FirstMatchReplaced(docs, k, body);
        assert body.roles[..|e.body.roles|] == e.body.roles;
      }
  }

  /** Replacing the body of the first match with one that still matches keeps it the first
      match. */
  lemma {:induction false} FirstMatchReplaced(docs: seq<Doc<RolesDoc>>, k: nat, body: RolesDoc)
    requires UniqueIds(docs) && k < |docs| && FindFirst(docs, IsSystemRoles) == Some(docs[k])
    requires IsSystemRoles(body)
    ensures FindFirst(Replace(docs, docs[k].id, body), IsSystemRoles) == Some(Doc(docs[k].id, body))
  {
    var r := Replace(docs, docs[k].id, body);
    if k == 0 {
      assert r[0] == Doc(docs[0].id, body);
    } else {
      assert !IsSystemRoles(docs[0].body);
      assert r[0] == docs[0];
      assert r[1..] == Replace(docs[1..], docs[k].id, body);
      assert FindFirst(docs[1..], IsSystemRoles) == Some(docs[k]);
      assert docs[1..][k - 1] == docs[k];
      FirstMatchReplaced(docs[1..], k - 1, body);
    }
  }

  /** The merging handler against the collection. */
  method MergeSeedRoles(db: RolesCollection, newId: ObjectId) returns (r: Outcome<MergeAnswer>)
    requires db.Valid() && !HasId(db.docs, newId)
    modifies db
    ensures db.Valid()
    ensures (r, db.docs) == MergeSeed(old(db.docs), newId)
  {
    var existing := FindFirst(db.docs, IsSystemRoles);
    if existing.None? {
      db.docs := db.docs + [Doc(newId, SeedDoc())];
      return Err(InternalError, ServerErrorDetail);
    }
    var e := existing.value;
    var added := NewRolesAsWritten(e.body.roles);
    if added == [] {
      return Ok(NoNewRoles);
    }
    db.docs := Replace(db.docs, e.id, e.body.(roles := e.body.roles + added));
    r := Ok(RolesUpdated(added));
  }
}
