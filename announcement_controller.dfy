/** The raw-driver announcement controller, backend/app/controllers/announcement_controller.py.
    It works on untyped documents: a document body is a map from field names to values,
    and `_id` is kept apart as the document's id. */
module AnnouncementController {
  import opened Outcomes
  import opened ObjectIds
  import opened Collections

  datatype RawValue = RStr(s: string) | RTime(t: int) | RNull | ROid(oid: ObjectId)

  type RawFields = map<string, RawValue>

  const UpdatedMessage := "Announcemnet updated"
  const AnnouncementNotFound := "Announcement not found"

  class RawCollection {
    var docs: seq<Doc<RawFields>>

    ghost predicate Valid()
      reads this
    {
      UniqueIds(docs)
    }
  }

  /** The controller's `Announcement` input; `created_at` may be sent as `null`. */
  datatype AnnouncementData = AnnouncementData(title: string, content: string, author: string, created_at: Option<int>)

  /** `data.dict()`. */
  function DataFields(d: AnnouncementData): (r: RawFields)
    ensures r.Keys == {"title", "content", "author", "created_at"}
    ensures r["title"] == RStr(d.title) && r["content"] == RStr(d.content) && r["author"] == RStr(d.author)
    ensures r["created_at"] == (if d.created_at.Some? then RTime(d.created_at.value) else RNull)
  {
    map["title" := RStr(d.title), "content" := RStr(d.content), "author" := RStr(d.author),
        "created_at" := if d.created_at.Some? then RTime(d.created_at.value) else RNull]
  }

  /** `create_announcement`: the driver adds `_id` to the inserted dict in place, so the
      answer carries the submitted fields, `_id`, and `id` as text. */
  method CreateAnnouncement(db: RawCollection, d: AnnouncementData, newId: ObjectId) returns (r: RawFields)
    requires db.Valid() && !HasId(db.docs, newId)
    modifies db
    ensures db.Valid()
    ensures db.docs == old(db.docs) + [Doc(newId, DataFields(d))]
    ensures r == DataFields(d)["_id" := ROid(newId)]["id" := RStr(ToStr(newId))]
  {
    var announcement := DataFields(d);
    db.docs := db.docs + [Doc(newId, announcement)];
    announcement := announcement["_id" := ROid(newId)];
    r := announcement["id" := RStr(ToStr(newId))];
  }

  /** The answer of `create_announcement` names the new document's id and repeats every
      submitted field unchanged. */
  lemma CreateAnswer(d: AnnouncementData, newId: ObjectId)
    requires WellFormed(newId)
    ensures var r := DataFields(d)["_id" := ROid(newId)]["id" := RStr(ToStr(newId))];
      r["id"].RStr? && Parse(r["id"].s) == Some(newId) &&
      forall k :: k in DataFields(d) ==> k in r && r[k] == DataFields(d)[k]
  {
    ParseToStr(newId);
  }

  /** One document as `get_announcements` hands it out: `_id` turned into its text. */
  function Listed(d: Doc<RawFields>): RawFields {
    d.body["_id" := RStr(ToStr(d.id))]
  }

  /** `get_announcements`: every stored document in natural order, each with its `_id` as text. */
  method GetAnnouncements(db: RawCollection) returns (out: seq<RawFields>)
    ensures |out| == |db.docs|
    ensures forall i :: 0 <= i < |out| ==> out[i] == Listed(db.docs[i])
  {
    out := [];
    var i := 0;
    while i < |db.docs|
      invariant 0 <= i <= |db.docs|
      invariant |out| == i
      invariant forall k :: 0 <= k < i ==> out[k] == Listed(db.docs[k])
    {
      out := out + [Listed(db.docs[i])];
      i := i + 1;
    }
  }

  /** Each listed `_id` parses back to the stored id, and every other field is as stored. */
  lemma ListedFaithful(d: Doc<RawFields>)
    requires WellFormed(d.id)
    ensures Listed(d)["_id"].RStr? && Parse(Listed(d)["_id"].s) == Some(d.id)
    ensures forall k :: k in d.body && k != "_id" ==> k in Listed(d) && Listed(d)[k] == d.body[k]
    ensures Listed(d).Keys == d.body.Keys + {"_id"}
  {
    ParseToStr(d.id);
  }

  /** The controller's `UpdateAnnouncement`: both fields may be `null`. */
  datatype AnnouncementChange = AnnouncementChange(title: Option<string>, content: Option<string>)

  /** `{k: v for k, v in data.dict().items() if v is not None}`. */
  function UpdateData(u: AnnouncementChange): (r: RawFields)
    ensures "title" in r <==> u.title.Some?
    ensures "content" in r <==> u.content.Some?
    ensures r.Keys <= {"title", "content"}
    ensures u.title.Some? ==> r["title"] == RStr(u.title.value)
    ensures u.content.Some? ==> r["content"] == RStr(u.content.value)
  {
    var t: RawFields := if u.title.Some? then map["title" := RStr(u.title.value)] else map[];
    if u.content.Some? then t["content" := RStr(u.content.value)] else t
  }

  /** `$set`: the given fields take the given values, every other field is kept. */
  function Merge(body: RawFields, data: RawFields): (r: RawFields)
    ensures r.Keys == body.Keys + data.Keys
    ensures forall k :: k in data ==> r[k] == data[k]
    ensures forall k :: k in body && k !in data ==> r[k] == body[k]
  {
    map k | k in body.Keys + data.Keys :: if k in data then data[k] else body[k]
  }

  /** Setting the same fields twice leaves the document as setting them once. */
  lemma MergeIdempotent(body: RawFields, data: RawFields)
    ensures Merge(Merge(body, data), data) == Merge(body, data)
  {
  }

  /** The write `update_one` performs, and whether it modified a document. */
  function SetResult(store: seq<Doc<RawFields>>, id: ObjectId, data: RawFields): (r: (bool, seq<Doc<RawFields>>))
    ensures !HasId(store, id) ==> r == (false, store)
    ensures HasId(store, id) ==>
      r.0 == (Merge(Lookup(store, id).value, data) != Lookup(store, id).value) &&
      r.1 == Replace(store, id, Merge(Lookup(store, id).value, data))
  {
    match Lookup(store, id)
    case None => (false, store)
    case Some(body) => (Merge(body, data) != body, Replace(store, id, Merge(body, data)))
  }

  /** The whole of `update_announcement`: answer and new store.
      With no field left the handler builds `HTTPException(..., details=...)`, an unknown
      keyword, so the request ends as a server error. An id `ObjectId` refuses also ends
      as one. A write that modifies nothing is reported as 404, even when the document
      exists. */
  function UpdateResult(store: seq<Doc<RawFields>>, announcementId: string, u: AnnouncementChange, now: int)
    : (r: (Outcome<string>, seq<Doc<RawFields>>))
    ensures r.0.Err? ==> r.1 == store
    ensures |UpdateData(u)| == 0 ==> r.0 == Err(InternalError, ServerErrorDetail)
    ensures |UpdateData(u)| > 0 && Parse(announcementId).None? ==> r.0 == Err(InternalError, ServerErrorDetail)
    ensures |UpdateData(u)| > 0 && Parse(announcementId).Some? && !HasId(store, Parse(announcementId).value) ==>
      r.0 == Err(NotFound, AnnouncementNotFound)
    ensures r.0.Ok? <==> (|UpdateData(u)| > 0 && Parse(announcementId).Some? &&
      var id := Parse(announcementId).value;
      HasId(store, id) && Merge(Lookup(store, id).value, UpdateData(u)["updated_at" := RTime(now)]) != Lookup(store, id).value)
    ensures |UpdateData(u)| > 0 && Parse(announcementId).Some? ==>
      var id := Parse(announcementId).value;
      HasId(store, id) && Merge(Lookup(store, id).value, UpdateData(u)["updated_at" := RTime(now)]) == Lookup(store, id).value
      ==> r.0 == Err(NotFound, AnnouncementNotFound)
    ensures r.0.Ok? ==> r.0.value == UpdatedMessage && Parse(announcementId).Some?
    ensures r.0.Ok? ==>
      var id := Parse(announcementId).value;
      HasId(store, id) && r.1 == Replace(store, id, Merge(Lookup(store, id).value, UpdateData(u)["updated_at" := RTime(now)]))
  {
    var data := UpdateData(u);
    if |data| == 0 then (Err(InternalError, ServerErrorDetail), store)
    else
      match Parse(announcementId)
      case None => (Err(InternalError, ServerErrorDetail), store)
      case Some(id) =>
        var (modified, written) := SetResult(store, id, data["updated_at" := RTime(now)]);
        if !modified then (Err(NotFound, AnnouncementNotFound), store)
        else (Ok(UpdatedMessage), written)
  }

  /** Repeating an update at the same clock reading finds nothing to modify and answers 404,
      although the document is there. */
  lemma RepeatedUpdateIsNotFound(store: seq<Doc<RawFields>>, announcementId: string, u: AnnouncementChange, now: int)
    requires UniqueIds(store)
    requires UpdateResult(store, announcementId, u, now).0.Ok?
    ensures var again := UpdateResult(UpdateResult(store, announcementId, u, now).1, announcementId, u, now);
      again.0 == Err(NotFound, AnnouncementNotFound)
  {
    var id := Parse(announcementId).value;
    var data := UpdateData(u)["updated_at" := RTime(now)];
    var merged := Merge(Lookup(store, id).value, data);
    var written := Replace(store, id, merged);
    LookupReplace(store, id, merged, id);
    MergeIdempotent(Lookup(store, id).value, data);
    assert Lookup(written, id) == Some(merged);
  }

  /** `update_announcement` against the collection. */
  method UpdateAnnouncement(db: RawCollection, announcementId: string, u: AnnouncementChange, now: int)
    returns (r: Outcome<string>)
    requires db.Valid()
    modifies db
    ensures db.Valid()
    ensures (r, db.docs) == UpdateResult(old(db.docs), announcementId, u, now)
  {
    var data := UpdateData(u);
    if |data| == 0 {
      return Err(InternalError, ServerErrorDetail);
    }
    data := data["updated_at" := RTime(now)];
    var parsed := Parse(announcementId);
    if parsed.None? {
      return Err(InternalError, ServerErrorDetail);
    }
    var id := parsed.value;
    var found := Lookup(db.docs, id);
    if found.None? || Merge(found.value, data) == found.value {
      return Err(NotFound, AnnouncementNotFound);
    }
    db.docs := Replace(db.docs, id, Merge(found.value, data));
    r := Ok(UpdatedMessage);
  }
}
