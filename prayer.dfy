/** Prayer requests, testimonies and their comments,
    backend/app/models/prayer_testimony_model.py. */
module PrayerModel {
  import opened ObjectIds
  import opened Collections

  datatype Comment = Comment(member_id: string, text: string, created_at: int)

  datatype PrayerRequest = PrayerRequest(
    member_id: string,
    content: string,
    is_public: bool,
    is_approved: bool,
    prayer_count: int,
    created_at: int,
    updated_at: int,
    comments: seq<Comment>)

  datatype Testimony = Testimony(
    member_id: string,
    content: string,
    is_approved: bool,
    created_at: int,
    updated_at: int,
    comments: seq<Comment>)

  /** `Comment(member_id=..., text=...)`: stamped with the current time. */
  function NewComment(memberId: string, text: string, now: int): (c: Comment)
    ensures c.member_id == memberId && c.text == text && c.created_at == now
  {
    Comment(memberId, text, now)
  }

  /** `PrayerRequest(member_id=..., content=..., is_public=...)`: unapproved, never prayed
      for, no comments. */
  function NewPrayerRequest(memberId: string, content: string, isPublic: bool, now: int): (p: PrayerRequest)
    ensures p.member_id == memberId && p.content == content && p.is_public == isPublic
    ensures !p.is_approved && p.prayer_count == 0 && p.comments == []
    ensures p.created_at == now && p.updated_at == now
  {
    PrayerRequest(memberId, content, isPublic, false, 0, now, now, [])
  }

  /** `Testimony(member_id=..., content=...)`: unapproved, no comments. */
  function NewTestimony(memberId: string, content: string, now: int): (t: Testimony)
    ensures t.member_id == memberId && t.content == content
    ensures !t.is_approved && t.comments == []
    ensures t.created_at == now && t.updated_at == now
  {
    Testimony(memberId, content, false, now, now, [])
  }

  /** The `prayer_requests` and `testimonies` collections. */
  class PrayerDatabase {
    var requests: seq<Doc<PrayerRequest>>
    var testimonies: seq<Doc<Testimony>>

    ghost predicate Valid()
      reads this
    {
      UniqueIds(requests) && UniqueIds(testimonies)
    }
  }
}

/** The request and response schemas, app/schemas/prayer_testimony_schema.py. */
module PrayerSchema {
  import opened Outcomes
  import opened ObjectIds

  /** `PrayerRequestCreate`: `is_public` may be left out and then is true. */
  datatype PrayerRequestCreate = PrayerRequestCreate(content: string, is_public: Option<bool>)

  function CreateIsPublic(c: PrayerRequestCreate): (b: bool)
    ensures c.is_public.None? ==> b
    ensures c.is_public.Some? ==> b == c.is_public.value
  {
    if c.is_public.Some? then c.is_public.value else true
  }

  /** `PrayerCounterUpdate.increment`: left out it is 1; a value below 1 is refused with 422. */
  function Increment(v: Option<int>): (r: Outcome<int>)
    ensures r.Ok? ==> r.value >= 1
    ensures v.None? ==> r == Ok(1)
    ensures v.Some? && v.value >= 1 ==> r == Ok(v.value)
    ensures v.Some? && v.value < 1 ==> r == Err(Unprocessable, ValidationDetail)
  {
    match v
    case None => Ok(1)
    case Some(n) => if n >= 1 then Ok(n) else Err(Unprocessable, ValidationDetail)
  }

  /** A value handed to a response schema's field before validation. */
  datatype FieldValue = FOid(oid: ObjectId) | FStr(s: string) | FInt(n: int)

  /** `convert_id_to_str` / `convert_member_id`: an ObjectId becomes its text, anything else
      passes unchanged. */
  function ConvertId(v: FieldValue): (r: FieldValue)
    ensures v.FOid? ==> r == FStr(ToStr(v.oid))
    ensures !v.FOid? ==> r == v
    ensures !r.FOid?
  {
    if v.FOid? then FStr(ToStr(v.oid)) else v
  }

  /** Converting twice is converting once, and a converted id reads back as the id. */
  lemma ConvertIdRoundTrip(v: FieldValue)
    ensures ConvertId(ConvertId(v)) == ConvertId(v)
    ensures v.FOid? && WellFormed(v.oid) ==> ConvertId(v).FStr? && Parse(ConvertId(v).s) == Some(v.oid)
  {
    if v.FOid? && WellFormed(v.oid) {
      ParseToStr(v.oid);
    }
  }

  /** A `str` field accepts only text; anything else fails response validation, which the
      framework reports as a server error. */
  function StrField(v: FieldValue): (r: Outcome<string>)
    ensures r.Ok? <==> v.FStr?
    ensures r.Ok? ==> r.value == v.s
    ensures r.Err? ==> r == Err(InternalError, ServerErrorDetail)
  {
    if v.FStr? then Ok(v.s) else Err(InternalError, ServerErrorDetail)
  }

  /** `id` and `member_id` of `PrayerRequestOut`: both go through the converter. */
  function PrayerRequestOutIds(id: FieldValue, memberId: FieldValue): (r: Outcome<(string, string)>)
    ensures r.Ok? <==> !id.FInt? && !memberId.FInt?
  {
    match StrField(ConvertId(id))
    case Err(s, d) => Err(s, d)
    case Ok(i) =>
      match StrField(ConvertId(memberId))
      case Err(s, d) => Err(s, d)
      case Ok(m) => Ok((i, m))
  }

  /** `id` and `member_id` of `TestimonyOut`: only `id` has a converter. */
  function TestimonyOutIds(id: FieldValue, memberId: FieldValue): (r: Outcome<(string, string)>)
    ensures r.Ok? <==> !id.FInt? && memberId.FStr?
  {
    match StrField(ConvertId(id))
    case Err(s, d) => Err(s, d)
    case Ok(i) =>
      match StrField(memberId)
      case Err(s, d) => Err(s, d)
      case Ok(m) => Ok((i, m))
  }

  /** `CommentOut.member_id` goes through the converter. */
  function CommentOutMember(memberId: FieldValue): (r: Outcome<string>)
    ensures r.Ok? <==> !memberId.FInt?
  {
    StrField(ConvertId(memberId))
  }

  /** The two response schemas differ on a raw ObjectId `member_id`: `PrayerRequestOut`
      turns it into text, `TestimonyOut` refuses it. Stored documents hold text there, and
      with text both schemas agree. */
  lemma OutSchemasDifferOnRawMemberId(id: ObjectId, member: ObjectId, memberText: string)
    ensures PrayerRequestOutIds(FOid(id), FOid(member)) == Ok((ToStr(id), ToStr(member)))
    ensures TestimonyOutIds(FOid(id), FOid(member)).Err?
    ensures PrayerRequestOutIds(FOid(id), FStr(memberText)) == TestimonyOutIds(FOid(id), FStr(memberText))
    ensures TestimonyOutIds(FOid(id), FStr(memberText)) == Ok((ToStr(id), memberText))
  {
  }
}

/** The member-facing handlers, backend/app/routes/prayer_testimony.py. Each is reached
    with a resolved member; request ids are `PydanticObjectId` path parameters. */
module PrayerRoutes {
  import opened Outcomes
  import opened ObjectIds
  import opened Collections
  import opened MemberModel
  import opened PrayerModel
  import opened PrayerSchema

  const PrayerNotFound := "Prayer request not found"
  const TestimonyNotFound := "Testimony not found"
  const CountUpdated := "Prayer count updated"
  const CommentAdded := "Comment added"

  /** `submit_prayer_request`: the new request records the caller. */
  method SubmitPrayerRequest(db: PrayerDatabase, c: PrayerRequestCreate, user: Doc<Member>, newId: ObjectId, now: int)
    returns (r: Doc<PrayerRequest>)
    requires db.Valid() && !HasId(db.requests, newId)
    modifies db
    ensures db.Valid()
    ensures r == Doc(newId, NewPrayerRequest(ToStr(user.id), c.content, CreateIsPublic(c), now))
    ensures db.requests == old(db.requests) + [r] && db.testimonies == old(db.testimonies)
  {
    r := Doc(newId, NewPrayerRequest(ToStr(user.id), c.content, CreateIsPublic(c), now));
    db.requests := db.requests + [r];
  }

  function IsListedRequest(d: Doc<PrayerRequest>): bool {
    d.body.is_public && d.body.is_approved
  }

  /** `get_public_prayer_requests`. */
  function PublicPrayerRequests(requests: seq<Doc<PrayerRequest>>): (r: seq<Doc<PrayerRequest>>)
    ensures forall i :: 0 <= i < |r| ==> r[i] in requests && r[i].body.is_public && r[i].body.is_approved
    ensures Subsequence(r, requests)
  {
    FilterIsSubsequence(requests, IsListedRequest);
    Filter(requests, IsListedRequest)
  }

  /** A stored request is listed exactly when it is both public and approved. */
  lemma PublicPrayerRequestsExact(requests: seq<Doc<PrayerRequest>>, d: Doc<PrayerRequest>)
    requires d in requests
    ensures d in PublicPrayerRequests(requests) <==> d.body.is_public && d.body.is_approved
  {
    if d in PublicPrayerRequests(requests) {
      var k :| 0 <= k < |PublicPrayerRequests(requests)| && PublicPrayerRequests(requests)[k] == d;
    }
  }

  /** A freshly submitted request is not listed until it is approved. */
  lemma SubmittedNotListed(requests: seq<Doc<PrayerRequest>>, memberId: string, content: string, isPublic: bool,
                           newId: ObjectId, now: int)
    ensures PublicPrayerRequests(requests + [Doc(newId, NewPrayerRequest(memberId, content, isPublic, now))])
         == PublicPrayerRequests(requests)
  {
    var d := Doc(newId, NewPrayerRequest(memberId, content, isPublic, now));
    FilterAppend(requests, [d], IsListedRequest);
    assert Filter([d], IsListedRequest) == [] + Filter([d][1..], IsListedRequest);
  }

  /** `increment_prayer_count`: answer and new store. 422 when the id or the increment is
      refused, 404 when the request is absent; otherwise the count grows by the increment.
      Approval is not checked. */
  function Pray(requests: seq<Doc<PrayerRequest>>, requestId: string, increment: Option<int>)
    : (r: (Outcome<string>, seq<Doc<PrayerRequest>>))
    ensures r.0.Err? ==> r.1 == requests
    ensures Parse(requestId).None? || Increment(increment).Err? ==> r.0 == Err(Unprocessable, ValidationDetail)
    ensures Parse(requestId).Some? && Increment(increment).Ok? ==>
      var id := Parse(requestId).value;
      (!HasId(requests, id) ==> r.0 == Err(NotFound, PrayerNotFound)) &&
      (HasId(requests, id) ==> r.0 == Ok(CountUpdated) && r.1 == Replace(requests, id, Counted(Lookup(requests, id).value, Increment(increment).value)))
  {
    match Parse(requestId)
    case None => (Err(Unprocessable, ValidationDetail), requests)
    case Some(id) =>
      match Increment(increment)
      case Err(s, d) => (Err(s, d), requests)
      case Ok(n) =>
        match Lookup(requests, id)
        case None => (Err(NotFound, PrayerNotFound), requests)
        case Some(p) => (Ok(CountUpdated), Replace(requests, id, Counted(p, n)))
  }

  /** `request.prayer_count += update.increment`. */
  function Counted(p: PrayerRequest, n: int): (q: PrayerRequest)
    ensures q.prayer_count == p.prayer_count + n
    ensures q == p.(prayer_count := q.prayer_count)
  {
    p.(prayer_count := p.prayer_count + n)
  }

  /** Praying on a stored request raises its count strictly, whatever its approval, and
      leaves every other field and every other request as it was. */
  lemma PrayIncreasesCount(requests: seq<Doc<PrayerRequest>>, requestId: string, increment: Option<int>)
    requires UniqueIds(requests)
    requires Pray(requests, requestId, increment).0.Ok?
    ensures var id := Parse(requestId).value;
      var after := Lookup(Pray(requests, requestId, increment).1, id);
      after.Some? && after.value.prayer_count > Lookup(requests, id).value.prayer_count &&
      after.value == Lookup(requests, id).value.(prayer_count := after.value.prayer_count)
    ensures forall other :: other != Parse(requestId).value ==>
      Lookup(Pray(requests, requestId, increment).1, other) == Lookup(requests, other)
  {
    var id := Parse(requestId).value;
    var q := Counted(Lookup(requests, id).value, Increment(increment).value);
    LookupReplace(requests, id, q, id);
    forall other | other != id
      ensures Lookup(Pray(requests, requestId, increment).1, other) == Lookup(requests, other)
    {
      LookupReplace(requests, id, q, other);
    }
  }

  /** No stored request has a negative count. */
  predicate CountsNonNegative(requests: seq<Doc<PrayerRequest>>) {
    forall i :: 0 <= i < |requests| ==> requests[i].body.prayer_count >= 0
  }

  /** Counts start at 0 and an increment is at least 1, so `increment_prayer_count` never
      leaves a negative count behind in the store. */
  lemma CountsStayNonNegative(requests: seq<Doc<PrayerRequest>>, requestId: string, increment: Option<int>)
    requires CountsNonNegative(requests)
    ensures CountsNonNegative(Pray(requests, requestId, increment).1)
  {
    var after := Pray(requests, requestId, increment).1;
    if Pray(requests, requestId, increment).0.Ok? {
      var id := Parse(requestId).value;
      var old_ := Lookup(requests, id).value;
      assert Doc(id, old_) in requests;
      forall i | 0 <= i < |after| ensures after[i].body.prayer_count >= 0 {
        if requests[i].id == id {
          assert after[i].body == Counted(old_, Increment(increment).value);
        }
      }
    }
  }

  /** `increment_prayer_count` against the collection. */
  method IncrementPrayerCount(db: PrayerDatabase, requestId: string, increment: Option<int>) returns (r: Outcome<string>)
    requires db.Valid()
    modifies db
    ensures db.Valid()
    ensures (r, db.requests) == Pray(old(db.requests), requestId, increment)
    ensures CountsNonNegative(old(db.requests)) ==> CountsNonNegative(db.requests)
    ensures db.testimonies == old(db.testimonies)
  {
    if CountsNonNegative(db.requests) {
      CountsStayNonNegative(db.requests, requestId, increment);
    }
    var parsed := Parse(requestId);
    if parsed.None? {
      return Err(Unprocessable, ValidationDetail);
    }
    var inc := Increment(increment);
    if inc.Err? {
      return Err(inc.status, inc.detail);
    }
    var found := Lookup(db.requests, parsed.value);
    if found.None? {
      return Err(NotFound, PrayerNotFound);
    }
    db.requests := Replace(db.requests, parsed.value, Counted(found.value, inc.value));
    r := Ok(CountUpdated);
  }

  /** `request.comments.append(new_comment)` on a prayer request. */
  function WithPrayerComment(p: PrayerRequest, c: Comment): (q: PrayerRequest)
    ensures q.comments == p.comments + [c]
    ensures q == p.(comments := q.comments)
  {
    p.(comments := p.comments + [c])
  }

  /** `testimony.comments.append(new_comment)`. */
  function WithTestimonyComment(t: Testimony, c: Comment): (q: Testimony)
    ensures q.comments == t.comments + [c]
    ensures q == t.(comments := q.comments)
  {
    t.(comments := t.comments + [c])
  }

  /** `add_prayer_comment`: 422 for an id that does not parse, 404 for an absent request,
      otherwise one comment by the caller is appended. */
  method AddPrayerComment(db: PrayerDatabase, requestId: string, text: string, user: Doc<Member>, now: int)
    returns (r: Outcome<string>)
    requires db.Valid()
    modifies db
    ensures db.Valid() && db.testimonies == old(db.testimonies)
    ensures Parse(requestId).None? ==> r == Err(Unprocessable, ValidationDetail) && db.requests == old(db.requests)
    ensures Parse(requestId).Some? && !HasId(old(db.requests), Parse(requestId).value) ==>
      r == Err(NotFound, PrayerNotFound) && db.requests == old(db.requests)
    ensures Parse(requestId).Some? && HasId(old(db.requests), Parse(requestId).value) ==>
      var id := Parse(requestId).value;
      r == Ok(CommentAdded) &&
      db.requests == Replace(old(db.requests), id, WithPrayerComment(Lookup(old(db.requests), id).value, NewComment(ToStr(user.id), text, now)))
  {
    var parsed := Parse(requestId);
    if parsed.None? {
      return Err(Unprocessable, ValidationDetail);
    }
    var found := Lookup(db.requests, parsed.value);
    if found.None? {
      return Err(NotFound, PrayerNotFound);
    }
    var comment := NewComment(ToStr(user.id), text, now);
    db.requests := Replace(db.requests, parsed.value, WithPrayerComment(found.value, comment));
    r := Ok(CommentAdded);
  }

  /** After commenting, the stored request has exactly one more comment, at the end, by the
      caller; the earlier comments are unchanged. */
  lemma CommentAppendsOne(requests: seq<Doc<PrayerRequest>>, id: ObjectId, user: Doc<Member>, text: string, now: int)
    requires UniqueIds(requests) && HasId(requests, id)
    ensures var before := Lookup(requests, id).value;
      var after := Lookup(Replace(requests, id, WithPrayerComment(before, NewComment(ToStr(user.id), text, now))), id);
      after.Some? && |after.value.comments| == |before.comments| + 1 &&
      after.value.comments[..|before.comments|] == before.comments &&
      after.value.comments[|before.comments|] == Comment(ToStr(user.id), text, now)
  {
    var before := Lookup(requests, id).value;
    var q := WithPrayerComment(before, NewComment(ToStr(user.id), text, now));
    LookupReplace(requests, id, q, id);
    assert q.comments[..|before.comments|] == before.comments;
  }

  /** `submit_testimony`: the new testimony records the caller. */
  method SubmitTestimony(db: PrayerDatabase, content: string, user: Doc<Member>, newId: ObjectId, now: int)
    returns (r: Doc<Testimony>)
    requires db.Valid() && !HasId(db.testimonies, newId)
    modifies db
    ensures db.Valid()
    ensures r == Doc(newId, NewTestimony(ToStr(user.id), content, now))
    ensures db.testimonies == old(db.testimonies) + [r] && db.requests == old(db.requests)
  {
    r := Doc(newId, NewTestimony(ToStr(user.id), content, now));
    db.testimonies := db.testimonies + [r];
  }

  function IsApprovedTestimony(d: Doc<Testimony>): bool {
    d.body.is_approved
  }

  /** `get_public_testimonies`. */
  function PublicTestimonies(testimonies: seq<Doc<Testimony>>): (r: seq<Doc<Testimony>>)
    ensures forall i :: 0 <= i < |r| ==> r[i] in testimonies && r[i].body.is_approved
    ensures Subsequence(r, testimonies)
  {
    FilterIsSubsequence(testimonies, IsApprovedTestimony);
    Filter(testimonies, IsApprovedTestimony)
  }

  /** A stored testimony is listed exactly when it is approved. */
  lemma PublicTestimoniesExact(testimonies: seq<Doc<Testimony>>, d: Doc<Testimony>)
    requires d in testimonies
    ensures d in PublicTestimonies(testimonies) <==> d.body.is_approved
  {
    if d in PublicTestimonies(testimonies) {
      var k :| 0 <= k < |PublicTestimonies(testimonies)| && PublicTestimonies(testimonies)[k] == d;
    }
  }

  /** `add_testimony_comment`: as for prayer requests, with "Testimony not found". */
  method AddTestimonyComment(db: PrayerDatabase, testimonyId: string, text: string, user: Doc<Member>, now: int)
    returns (r: Outcome<string>)
    requires db.Valid()
    modifies db
    ensures db.Valid() && db.requests == old(db.requests)
    ensures Parse(testimonyId).None? ==> r == Err(Unprocessable, ValidationDetail) && db.testimonies == old(db.testimonies)
    ensures Parse(testimonyId).Some? && !HasId(old(db.testimonies), Parse(testimonyId).value) ==>
      r == Err(NotFound, TestimonyNotFound) && db.testimonies == old(db.testimonies)
    ensures Parse(testimonyId).Some? && HasId(old(db.testimonies), Parse(testimonyId).value) ==>
      var id := Parse(testimonyId).value;
      r == Ok(CommentAdded) &&
      db.testimonies == Replace(old(db.testimonies), id, WithTestimonyComment(Lookup(old(db.testimonies), id).value, NewComment(ToStr(user.id), text, now)))
  {
    var parsed := Parse(testimonyId);
    if parsed.None? {
      return Err(Unprocessable, ValidationDetail);
    }
    var found := Lookup(db.testimonies, parsed.value);
    if found.None? {
      return Err(NotFound, TestimonyNotFound);
    }
    var comment := NewComment(ToStr(user.id), text, now);
    db.testimonies := Replace(db.testimonies, parsed.value, WithTestimonyComment(found.value, comment));
    r := Ok(CommentAdded);
  }
}

/** The admin handlers, app/routes/admin/prayer_testimony_admin.py. */
module PrayerAdmin {
  import opened Outcomes
  import opened ObjectIds
  import opened Collections
  import opened PrayerModel
  import opened PrayerRoutes

  const Approved := "Prayer request approved"

  /** `get_all_prayer_requests`: every stored request, in natural order. The public listing
      is a part of it, and an unapproved request shows here but not there. */
  lemma AdminListingCoversPublic(requests: seq<Doc<PrayerRequest>>)
    ensures forall x :: x in PublicPrayerRequests(requests) ==> x in requests
    ensures forall x :: x in requests && !x.body.is_approved ==> x !in PublicPrayerRequests(requests)
  {
    forall x | x in requests ensures x in PublicPrayerRequests(requests) <==> x.body.is_public && x.body.is_approved {
      PublicPrayerRequestsExact(requests, x);
    }
  }

  /** `request.is_approved = True`. */
  function ApprovedRequest(p: PrayerRequest): (q: PrayerRequest)
    ensures q.is_approved && q == p.(is_approved := true)
  {
    p.(is_approved := true)
  }

  /** `approve_prayer_request`: answer and new store. */
  function Approve(requests: seq<Doc<PrayerRequest>>, requestId: string): (r: (Outcome<string>, seq<Doc<PrayerRequest>>))
    ensures r.0.Err? ==> r.1 == requests
    ensures Parse(requestId).None? ==> r.0 == Err(Unprocessable, ValidationDetail)
    ensures Parse(requestId).Some? && !HasId(requests, Parse(requestId).value) ==> r.0 == Err(NotFound, PrayerNotFound)
    ensures Parse(requestId).Some? && HasId(requests, Parse(requestId).value) ==>
      r.0 == Ok(Approved) &&
      r.1 == Replace(requests, Parse(requestId).value, ApprovedRequest(Lookup(requests, Parse(requestId).value).value))
  {
    match Parse(requestId)
    case None => (Err(Unprocessable, ValidationDetail), requests)
    case Some(id) =>
      match Lookup(requests, id)
      case None => (Err(NotFound, PrayerNotFound), requests)
      case Some(p) => (Ok(Approved), Replace(requests, id, ApprovedRequest(p)))
  }

  /** Approving twice gives the same store as approving once, and the second answer is
      again a success. */
  lemma ApproveIdempotent(requests: seq<Doc<PrayerRequest>>, requestId: string)
    requires UniqueIds(requests)
    ensures Approve(Approve(requests, requestId).1, requestId) == (Approve(requests, requestId).0, Approve(requests, requestId).1)
  {
    if Approve(requests, requestId).0.Ok? {
      var id := Parse(requestId).value;
      var once := Approve(requests, requestId).1;
      var q := ApprovedRequest(Lookup(requests, id).value);
      LookupReplace(requests, id, q, id);
      assert Replace(once, id, ApprovedRequest(q)) == once;
    }
  }

  /** Once approved, a public request appears in the public listing. */
  lemma ApprovedPublicIsListed(requests: seq<Doc<PrayerRequest>>, requestId: string)
    requires Approve(requests, requestId).0.Ok?
    requires Lookup(requests, Parse(requestId).value).value.is_public
    ensures var id := Parse(requestId).value;
      Doc(id, ApprovedRequest(Lookup(requests, id).value)) in PublicPrayerRequests(Approve(requests, requestId).1)
  {
    var id := Parse(requestId).value;
    var after := Approve(requests, requestId).1;
    var k := Find(requests, id).value;
    assert after[k] == Doc(id, ApprovedRequest(Lookup(requests, id).value));
    PublicPrayerRequestsExact(after, after[k]);
  }

  /** `approve_prayer_request` against the collection. */
  method ApprovePrayerRequest(db: PrayerDatabase, requestId: string) returns (r: Outcome<string>)
    requires db.Valid()
    modifies db
    ensures db.Valid() && db.testimonies == old(db.testimonies)
    ensures (r, db.requests) == Approve(old(db.requests), requestId)
  {
    var parsed := Parse(requestId);
    if parsed.None? {
      return Err(Unprocessable, ValidationDetail);
    }
    var found := Lookup(db.requests, parsed.value);
    if found.None? {
      return Err(NotFound, PrayerNotFound);
    }
    db.requests := Replace(db.requests, parsed.value, ApprovedRequest(found.value));
    r := Ok(Approved);
  }

  /** The fields `moderate_testimony` sets for an action; `content` counts only when it is
      present and non-empty. */
  function Moderated(t: Testimony, action: string, content: Option<string>): (r: Testimony)
    ensures action == "approve" ==> r == t.(is_approved := true)
    ensures action == "reject" ==> r == t.(is_approved := false)
    ensures action == "edit" && content.Some? && content.value != "" ==> r == t.(content := content.value)
    ensures action !in {"approve", "reject", "edit"} ==> r == t
    ensures action == "edit" && (content.None? || content.value == "") ==> r == t
  {
    if action == "approve" then t.(is_approved := true)
    else if action == "reject" then t.(is_approved := false)
    else if action == "edit" && content.Some? && content.value != "" then t.(content := content.value)
    else t
  }

  /** `f"Testimony {action} succesful"`, spelling included. */
  function ModerateMessage(action: string): string {
    "Testimony " + action + " succesful"
  }

  /** Rejecting undoes an approval, and approving undoes a rejection. */
  lemma ApproveRejectInverse(t: Testimony)
    ensures Moderated(Moderated(t, "approve", None), "reject", None) == Moderated(t, "reject", None)
    ensures Moderated(Moderated(t, "reject", None), "approve", None) == Moderated(t, "approve", None)
    ensures Moderated(t, "approve", None).is_approved && !Moderated(t, "reject", None).is_approved
  {
  }

  /** Editing changes the content only; approval is what it was. */
  lemma EditKeepsApproval(t: Testimony, content: string)
    requires content != ""
    ensures Moderated(t, "edit", Some(content)).is_approved == t.is_approved
    ensures Moderated(t, "edit", Some(content)).content == content
    ensures Moderated(t, "edit", Some(content)).comments == t.comments
  {
  }

  /** `moderate_testimony`: 422 for an id that does not parse, 404 for an absent testimony;
      otherwise the action is applied and the testimony saved, and the answer is a success
      even when the action changed nothing. */
  method ModerateTestimony(db: PrayerDatabase, testimonyId: string, action: string, content: Option<string>)
    returns (r: Outcome<string>)
    requires db.Valid()
    modifies db
    ensures db.Valid() && db.requests == old(db.requests)
    ensures Parse(testimonyId).None? ==> r == Err(Unprocessable, ValidationDetail) && db.testimonies == old(db.testimonies)
    ensures Parse(testimonyId).Some? && !HasId(old(db.testimonies), Parse(testimonyId).value) ==>
      r == Err(NotFound, TestimonyNotFound) && db.testimonies == old(db.testimonies)
    ensures Parse(testimonyId).Some? && HasId(old(db.testimonies), Parse(testimonyId).value) ==>
      var id := Parse(testimonyId).value;
      r == Ok(ModerateMessage(action)) &&
      db.testimonies == Replace(old(db.testimonies), id, Moderated(Lookup(old(db.testimonies), id).value, action, content))
  {
    var parsed := Parse(testimonyId);
    if parsed.None? {
      return Err(Unprocessable, ValidationDetail);
    }
    var found := Lookup(db.testimonies, parsed.value);
    if found.None? {
      return Err(NotFound, TestimonyNotFound);
    }
    db.testimonies := Replace(db.testimonies, parsed.value, Moderated(found.value, action, content));
    r := Ok(ModerateMessage(action));
  }

  /** An unknown action leaves the store as it was, yet answers with a success message. */
  lemma UnknownActionChangesNothing(testimonies: seq<Doc<Testimony>>, id: ObjectId, action: string, content: Option<string>)
    requires UniqueIds(testimonies) && HasId(testimonies, id)
    requires action !in {"approve", "reject", "edit"}
    ensures Replace(testimonies, id, Moderated(Lookup(testimonies, id).value, action, content)) == testimonies
  {
    var k := Find(testimonies, id).value;
    LookupUnique(testimonies, k);
  }
}
