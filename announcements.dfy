/** The announcement document, app/models/announcement_model.py. Times are whole
    numbers on one clock (`datetime.utcnow()`). */
module AnnouncementModel {
  import opened Outcomes
  import opened ObjectIds
  import opened Collections
  import opened Sorting

  datatype Priority = Low | Normal | High | Urgent
  datatype Target = All | Members | StaffOnly | Departments

  /** The string value of each `AnnouncementPriority` member. */
  function PriorityName(p: Priority): string {
    match p
    case Low => "low"
    case Normal => "normal"
    case High => "high"
    case Urgent => "urgent"
  }

  /** `AnnouncementPriority(s)`: accepts exactly the four values. */
  function ParsePriority(s: string): (r: Option<Priority>)
    ensures r.Some? ==> PriorityName(r.value) == s
  {
    if s == "low" then Some(Low)
    else if s == "normal" then Some(Normal)
    else if s == "high" then Some(High)
    else if s == "urgent" then Some(Urgent)
    else None
  }

  lemma PriorityRoundTrip(p: Priority)
    ensures ParsePriority(PriorityName(p)) == Some(p)
  {
  }

  /** The string value of each `AnnouncementTarget` member. */
  function TargetName(t: Target): string {
    match t
    case All => "all"
    case Members => "members"
    case StaffOnly => "staff"
    case Departments => "departments"
  }

  /** `AnnouncementTarget(s)`: accepts exactly the four values. */
  function ParseTarget(s: string): (r: Option<Target>)
    ensures r.Some? ==> TargetName(r.value) == s
  {
    if s == "all" then Some(All)
    else if s == "members" then Some(Members)
    else if s == "staff" then Some(StaffOnly)
    else if s == "departments" then Some(Departments)
    else None
  }

  lemma TargetRoundTrip(t: Target)
    ensures ParseTarget(TargetName(t)) == Some(t)
  {
  }

  datatype Announcement = Announcement(
    title: string,
    content: string,
    author: string,
    priority: Priority,
    target: Target,
    target_departments: seq<string>,
    is_published: bool,
    created_at: int,
    updated_at: int,
    expires_at: Option<int>)

  /** The fields `AnnouncementCreate` carries; every other field takes its default. */
  datatype AnnouncementCreate = AnnouncementCreate(
    title: string,
    content: string,
    priority: Priority,
    target: Target,
    target_departments: seq<string>,
    expires_at: Option<int>)

  /** `AnnouncementCreate`'s own defaults: normal priority, everyone, no departments, no expiry. */
  function DefaultCreate(title: string, content: string): (c: AnnouncementCreate)
    ensures c.priority == Normal && c.target == All && c.target_departments == [] && c.expires_at.None?
    ensures c.title == title && c.content == content
  {
    AnnouncementCreate(title, content, Normal, All, [], None)
  }

  /** `Announcement(**data.dict(), author=...)` at time `now`: published, created and
      updated now. */
  function NewAnnouncement(c: AnnouncementCreate, author: string, now: int): (a: Announcement)
    ensures a.is_published && a.created_at == now && a.updated_at == now
    ensures a.author == author
    ensures a.title == c.title && a.content == c.content && a.priority == c.priority
    ensures a.target == c.target && a.target_departments == c.target_departments && a.expires_at == c.expires_at
  {
    Announcement(c.title, c.content, author, c.priority, c.target, c.target_departments, true, now, now, c.expires_at)
  }

  /** The `announcements` collection. */
  class AnnouncementCollection {
    var docs: seq<Doc<Announcement>>

    ghost predicate Valid()
      reads this
    {
      UniqueIds(docs)
    }
  }

  /** `.sort("-created_at")`: newest first, as an ascending sort on the negated time. */
  function NewestFirst(d: Doc<Announcement>): int {
    -d.body.created_at
  }

  /** `find(filter).sort("-created_at").skip(skip).limit(limit)`. */
  function Listing(store: seq<Doc<Announcement>>, p: Doc<Announcement> -> bool, skip: nat, limit: nat)
    : (r: seq<Doc<Announcement>>)
    ensures |r| <= limit
    ensures forall i :: 0 <= i < |r| ==> r[i] in store && p(r[i])
  {
    var f := Filter(store, p);
    SortByElements(f, NewestFirst);
    PageElements(SortBy(f, NewestFirst), skip, limit);
    Page(SortBy(f, NewestFirst), skip, limit)
  }

  /** A listing page holds at most `limit` stored documents that match the filter, newest first. */
  lemma ListingProperties(store: seq<Doc<Announcement>>, p: Doc<Announcement> -> bool, skip: nat, limit: nat)
    ensures |Listing(store, p, skip, limit)| <= limit
    ensures forall i :: 0 <= i < |Listing(store, p, skip, limit)| ==>
      Listing(store, p, skip, limit)[i] in store && p(Listing(store, p, skip, limit)[i])
    ensures forall i, j :: 0 <= i < j < |Listing(store, p, skip, limit)| ==>
      Listing(store, p, skip, limit)[i].body.created_at >= Listing(store, p, skip, limit)[j].body.created_at
  {
    var f := Filter(store, p);
    var s := SortBy(f, NewestFirst);
    var r := Listing(store, p, skip, limit);
    SortByElements(f, NewestFirst);
    SortBySortedPermutation(f, NewestFirst);
    if skip < |s| {
      var hi := skip + (if limit <= |s| - skip then limit else |s| - skip);
      SliceSorted(s, NewestFirst, skip, hi);
      forall i | 0 <= i < |r| ensures r[i] in store && p(r[i]) {
        assert r[i] == s[skip + i];
      }
    }
    forall i, j | 0 <= i < j < |r| ensures r[i].body.created_at >= r[j].body.created_at {
      assert NewestFirst(r[i]) <= NewestFirst(r[j]);
    }
  }

  /** Every matching document appears on some page: with `skip` 0 and a large enough
      `limit` the listing holds all of them. */
  lemma ListingComplete(store: seq<Doc<Announcement>>, p: Doc<Announcement> -> bool, i: nat)
    requires i < |store| && p(store[i])
    ensures store[i] in Listing(store, p, 0, |store|)
  {
    var f := Filter(store, p);
    var s := SortBy(f, NewestFirst);
    SortBySortedPermutation(f, NewestFirst);
    SortByElements(f, NewestFirst);
    assert store[i] in f;
    assert store[i] in multiset(s);
    assert Listing(store, p, 0, |store|) == s;
  }

  /** The query ranges `skip >= 0` and `1 <= limit <= 100`; FastAPI answers 422 otherwise. */
  predicate PageInRange(skip: int, limit: int) {
    0 <= skip && 1 <= limit <= 100
  }
}

/** The member-facing announcement handlers, backend/app/routes/announcements.py. */
module AnnouncementRoutes {
  import opened Outcomes
  import opened ObjectIds
  import opened Collections
  import opened MemberModel
  import opened AnnouncementModel

  const AnnouncementNotFound := "Announcement not found"
  const AnnouncementExpired := "Announcement has expired"
  const NotAuthorizedDetail := "Not authorized to view this announcement"

  /** `is_staff`: the same exact test as the admin gate. */
  predicate IsStaff(m: Member) {
    m.role in ["Admin", "Staff"]
  }

  /** The listing's base query: published, and `expires_at` either `null` or strictly
      after now (`$gt`). */
  predicate LiveForListing(a: Announcement, now: int) {
    a.is_published && (a.expires_at.None? || a.expires_at.value > now)
  }

  /** `query["priority"] = priority`, added only for a non-empty value. */
  predicate PriorityMatches(a: Announcement, priority: Option<string>) {
    priority.None? || priority.value == "" || PriorityName(a.priority) == priority.value
  }

  /** The listing's `target_query`: `$in` on the array field `target_departments` matches
      when some stored department is among the member's departments. */
  predicate TargetClause(a: Announcement, m: Member) {
    a.target == All || a.target == Members ||
    (a.target == StaffOnly && IsStaff(m)) ||
    (a.target == Departments &&
     exists i, j :: 0 <= i < |a.target_departments| && 0 <= j < |m.departments| &&
       a.target_departments[i] == m.departments[j])
  }

  /** The single fetch's `has_access`: some department of the member occurs among the
      announcement's departments. */
  predicate HasAccess(a: Announcement, m: Member) {
    a.target == All || a.target == Members ||
    (a.target == StaffOnly && IsStaff(m)) ||
    (a.target == Departments && exists j :: 0 <= j < |m.departments| && m.departments[j] in a.target_departments)
  }

  /** The listing's target branch and the fetch's access test admit the same announcements. */
  lemma TargetClauseIsAccess(a: Announcement, m: Member)
    ensures TargetClause(a, m) <==> HasAccess(a, m)
  {
    if a.target == Departments {
      if HasAccess(a, m) {
        var j :| 0 <= j < |m.departments| && m.departments[j] in a.target_departments;
        var i :| 0 <= i < |a.target_departments| && a.target_departments[i] == m.departments[j];
        assert TargetClause(a, m);
      }
      if TargetClause(a, m) {
        var i, j :| 0 <= i < |a.target_departments| && 0 <= j < |m.departments| &&
          a.target_departments[i] == m.departments[j];
        assert m.departments[j] in a.target_departments;
      }
    }
  }

  /** The target branch admits "all" and "members" for everyone, "staff" iff the role is
      exactly "Admin" or "Staff", and "departments" iff the department lists intersect. */
  lemma TargetCases(a: Announcement, m: Member)
    ensures a.target in {All, Members} ==> HasAccess(a, m)
    ensures a.target == StaffOnly ==> (HasAccess(a, m) <==> m.role == "Admin" || m.role == "Staff")
    ensures a.target == Departments && m.departments == [] ==> !HasAccess(a, m)
    ensures a.target == Departments && a.target_departments == [] ==> !HasAccess(a, m)
  {
  }

  function ListedFilter(m: Member, now: int, priority: Option<string>): Doc<Announcement> -> bool {
    (d: Doc<Announcement>) => LiveForListing(d.body, now) && PriorityMatches(d.body, priority) && TargetClause(d.body, m)
  }

  /** `get_announcements`: 422 outside the page ranges, otherwise the page of live,
      matching, admitted announcements, newest first. */
  function GetAnnouncements(store: seq<Doc<Announcement>>, m: Member, now: int, skip: int, limit: int,
                            priority: Option<string>): (r: Outcome<seq<Doc<Announcement>>>)
    ensures r.Err? <==> !PageInRange(skip, limit)
    ensures r.Err? ==> r == Err(Unprocessable, ValidationDetail)
    ensures r.Ok? ==> r.value == Listing(store, ListedFilter(m, now, priority), skip, limit)
  {
    if !PageInRange(skip, limit) then Err(Unprocessable, ValidationDetail)
    else Ok(Listing(store, ListedFilter(m, now, priority), skip, limit))
  }

  /** What the listing promises about every page it returns. */
  lemma GetAnnouncementsListed(store: seq<Doc<Announcement>>, m: Member, now: int, skip: int, limit: int,
                               priority: Option<string>)
    requires PageInRange(skip, limit)
    ensures var r := GetAnnouncements(store, m, now, skip, limit, priority).value;
      |r| <= limit <= 100 &&
      (forall i :: 0 <= i < |r| ==>
        r[i] in store && r[i].body.is_published &&
        (r[i].body.expires_at.None? || r[i].body.expires_at.value > now) &&
        HasAccess(r[i].body, m) &&
        (priority.Some? && priority.value != "" ==> PriorityName(r[i].body.priority) == priority.value)) &&
      (forall i, j :: 0 <= i < j < |r| ==> r[i].body.created_at >= r[j].body.created_at)
  {
    var p := ListedFilter(m, now, priority);
    ListingProperties(store, p, skip as nat, limit as nat);
    var r := Listing(store, p, skip as nat, limit as nat);
    forall i | 0 <= i < |r| ensures HasAccess(r[i].body, m) {
      TargetClauseIsAccess(r[i].body, m);
    }
  }

  /** `get_announcement`. `Announcement.get` raising on an id that does not parse is caught
      and reported as 404, like an absent or unpublished document. The expiry test is
      `expires_at < now`. */
  function GetAnnouncement(store: seq<Doc<Announcement>>, id: string, m: Member, now: int)
    : (r: Outcome<Doc<Announcement>>)
    ensures r.Ok? <==>
      Parse(id).Some? && Lookup(store, Parse(id).value).Some? &&
      Lookup(store, Parse(id).value).value.is_published &&
      !(Lookup(store, Parse(id).value).value.expires_at.Some? && Lookup(store, Parse(id).value).value.expires_at.value < now) &&
      HasAccess(Lookup(store, Parse(id).value).value, m)
    ensures r.Ok? ==> r.value == Doc(Parse(id).value, Lookup(store, Parse(id).value).value)
    ensures r.Err? ==> r.status in {NotFound, Forbidden}
    ensures r.Err? && r.status == Forbidden <==>
      Parse(id).Some? && Lookup(store, Parse(id).value).Some? &&
      Lookup(store, Parse(id).value).value.is_published &&
      !(Lookup(store, Parse(id).value).value.expires_at.Some? && Lookup(store, Parse(id).value).value.expires_at.value < now) &&
      !HasAccess(Lookup(store, Parse(id).value).value, m)
  {
    match Parse(id)
    case None => Err(NotFound, AnnouncementNotFound)
    case Some(oid) =>
      match Lookup(store, oid)
      case None => Err(NotFound, AnnouncementNotFound)
      case Some(a) =>
        if !a.is_published then Err(NotFound, AnnouncementNotFound)
        else if a.expires_at.Some? && a.expires_at.value < now then Err(NotFound, AnnouncementExpired)
        else if !HasAccess(a, m) then Err(Forbidden, NotAuthorizedDetail)
        else Ok(Doc(oid, a))
  }

  /** Every announcement on a listing page can also be fetched by its id. */
  lemma ListedCanBeFetched(store: seq<Doc<Announcement>>, m: Member, now: int, skip: int, limit: int,
                           priority: Option<string>, k: nat)
    requires UniqueIds(store) && forall i :: 0 <= i < |store| ==> WellFormed(store[i].id)
    requires PageInRange(skip, limit)
    requires k < |GetAnnouncements(store, m, now, skip, limit, priority).value|
    ensures var d := GetAnnouncements(store, m, now, skip, limit, priority).value[k];
      GetAnnouncement(store, ToStr(d.id), m, now) == Ok(d)
  {
    GetAnnouncementsListed(store, m, now, skip, limit, priority);
    var d := GetAnnouncements(store, m, now, skip, limit, priority).value[k];
    var i :| 0 <= i < |store| && store[i] == d;
    ParseToStr(d.id);
    LookupUnique(store, i);
  }

  /** At the boundary `expires_at == now` the two handlers disagree: the fetch still
      returns the announcement, the listing leaves it out (`<` against `$gt`). */
  lemma ExpiryBoundary(store: seq<Doc<Announcement>>, m: Member, now: int, i: nat)
    requires UniqueIds(store) && i < |store| && WellFormed(store[i].id)
    requires store[i].body.is_published && store[i].body.expires_at == Some(now) && HasAccess(store[i].body, m)
    ensures GetAnnouncement(store, ToStr(store[i].id), m, now) == Ok(store[i])
    ensures store[i] !in GetAnnouncements(store, m, now, 0, 100, None).value
  {
    ParseToStr(store[i].id);
    LookupUnique(store, i);
    GetAnnouncementsListed(store, m, now, 0, 100, None);
  }
}

/** The admin announcement handlers, app/routes/admin/admin_announcements.py. Here
    `Announcement.get` is not guarded, so an id that does not parse ends as a server error. */
module AdminAnnouncements {
  import opened Outcomes
  import opened ObjectIds
  import opened Collections
  import opened Sorting
  import opened AnnouncementModel

  const AnnouncementNotFound := "Announcement not found"
  const AnnouncementDeleted := "Announcement deleted successfully"

  /** `create_announcement`: the stored document records the creating admin's id as text. */
  method CreateAnnouncement(db: AnnouncementCollection, c: AnnouncementCreate, admin: ObjectId,
                            newId: ObjectId, now: int)
    returns (r: Doc<Announcement>)
    requires db.Valid() && !HasId(db.docs, newId)
    modifies db
    ensures db.Valid()
    ensures r == Doc(newId, NewAnnouncement(c, ToStr(admin), now))
    ensures db.docs == old(db.docs) + [r]
  {
    r := Doc(newId, NewAnnouncement(c, ToStr(admin), now));
    db.docs := db.docs + [r];
  }

  function PublishedFilter(publishedOnly: bool): Doc<Announcement> -> bool {
    (d: Doc<Announcement>) => !publishedOnly || d.body.is_published
  }

  /** The admin `get_announcements`: every announcement, or only the published ones when
      `published_only` is set, newest first. */
  function AdminListAnnouncements(store: seq<Doc<Announcement>>, skip: int, limit: int, publishedOnly: bool)
    : (r: Outcome<seq<Doc<Announcement>>>)
    ensures r.Err? <==> !PageInRange(skip, limit)
    ensures r.Err? ==> r == Err(Unprocessable, ValidationDetail)
    ensures r.Ok? ==> r.value == Listing(store, PublishedFilter(publishedOnly), skip, limit)
  {
    if !PageInRange(skip, limit) then Err(Unprocessable, ValidationDetail)
    else Ok(Listing(store, PublishedFilter(publishedOnly), skip, limit))
  }

  /** Without `published_only` unpublished drafts are listed too; with it only published
      ones are. */
  lemma AdminListingScope(store: seq<Doc<Announcement>>, i: nat, publishedOnly: bool)
    requires i < |store|
    ensures !publishedOnly ==> store[i] in AdminListAnnouncements(store, 0, 100, false).value || |store| > 100
    ensures publishedOnly ==> forall k :: 0 <= k < |AdminListAnnouncements(store, 0, 100, true).value| ==>
      AdminListAnnouncements(store, 0, 100, true).value[k].body.is_published
  {
    if !publishedOnly && |store| <= 100 {
      ListingComplete(store, PublishedFilter(false), i);
      ListingProperties(store, PublishedFilter(false), 0, |store|);
      var f := Filter(store, PublishedFilter(false));
      FilterAll(store, PublishedFilter(false));
      SortByElements(f, NewestFirst);
      assert Listing(store, PublishedFilter(false), 0, 100) == Listing(store, PublishedFilter(false), 0, |store|);
    }
    ListingProperties(store, PublishedFilter(true), 0, 100);
  }

  /** The admin `get_announcement`. */
  function AdminGetAnnouncement(store: seq<Doc<Announcement>>, id: string): (r: Outcome<Doc<Announcement>>)
    ensures Parse(id).None? ==> r == Err(InternalError, ServerErrorDetail)
    ensures Parse(id).Some? ==>
      (r.Ok? <==> HasId(store, Parse(id).value)) &&
      (r.Ok? ==> r.value in store && r.value.id == Parse(id).value) &&
      (r.Err? ==> r == Err(NotFound, AnnouncementNotFound))
  {
    match Parse(id)
    case None => Err(InternalError, ServerErrorDetail)
    case Some(oid) =>
      match Lookup(store, oid)
      case None => Err(NotFound, AnnouncementNotFound)
      case Some(a) => Ok(Doc(oid, a))
  }

  /** `AnnouncementUpdate` after `dict(exclude_unset=True)`. */
  datatype AnnouncementUpdate = AnnouncementUpdate(
    title: Patch<string>,
    content: Patch<string>,
    priority: Patch<Priority>,
    target: Patch<Target>,
    target_departments: Patch<seq<string>>,
    is_published: Patch<bool>,
    expires_at: Patch<Option<int>>)

  /** `$set` of the supplied fields plus `updated_at`. */
  function ApplyAnnouncementUpdate(a: Announcement, u: AnnouncementUpdate, now: int): (r: Announcement)
    ensures r.title == Apply(u.title, a.title) && r.content == Apply(u.content, a.content)
    ensures r.priority == Apply(u.priority, a.priority) && r.target == Apply(u.target, a.target)
    ensures r.target_departments == Apply(u.target_departments, a.target_departments)
    ensures r.is_published == Apply(u.is_published, a.is_published)
    ensures r.expires_at == Apply(u.expires_at, a.expires_at)
    ensures r.updated_at == now
    ensures r.author == a.author && r.created_at == a.created_at
  {
    Announcement(Apply(u.title, a.title), Apply(u.content, a.content), a.author,
                 Apply(u.priority, a.priority), Apply(u.target, a.target),
                 Apply(u.target_departments, a.target_departments),
                 Apply(u.is_published, a.is_published), a.created_at, now,
                 Apply(u.expires_at, a.expires_at))
  }

  /** An update that supplies nothing still moves `updated_at`, and nothing else. */
  lemma EmptyUpdateTouchesOnlyTime(a: Announcement, now: int)
    ensures ApplyAnnouncementUpdate(a, AnnouncementUpdate(Keep, Keep, Keep, Keep, Keep, Keep, Keep), now)
         == a.(updated_at := now)
  {
  }

  /** The admin `update_announcement`: 500 for an id that does not parse, 404 for an absent
      document (nothing changes), otherwise the supplied fields and `updated_at` are written
      and the document is read back. */
  method AdminUpdateAnnouncement(db: AnnouncementCollection, id: string, u: AnnouncementUpdate, now: int)
    returns (r: Outcome<Doc<Announcement>>)
    requires db.Valid()
    modifies db
    ensures db.Valid()
    ensures Parse(id).None? ==> r == Err(InternalError, ServerErrorDetail) && db.docs == old(db.docs)
    ensures Parse(id).Some? && !HasId(old(db.docs), Parse(id).value) ==>
      r == Err(NotFound, AnnouncementNotFound) && db.docs == old(db.docs)
    ensures Parse(id).Some? && HasId(old(db.docs), Parse(id).value) ==>
      var oid := Parse(id).value;
      var updated := ApplyAnnouncementUpdate(Lookup(old(db.docs), oid).value, u, now);
      db.docs == Replace(old(db.docs), oid, updated) && r == Ok(Doc(oid, updated)) &&
      Lookup(db.docs, oid) == Some(updated)
  {
    var parsed := Parse(id);
    if parsed.None? {
      return Err(InternalError, ServerErrorDetail);
    }
    var oid := parsed.value;
    var found := Lookup(db.docs, oid);
    if found.None? {
      return Err(NotFound, AnnouncementNotFound);
    }
    var updated := ApplyAnnouncementUpdate(found.value, u, now);
    LookupReplace(db.docs, oid, updated, oid);
    db.docs := Replace(db.docs, oid, updated);
    var reread := Lookup(db.docs, oid);
    r := Ok(Doc(oid, reread.value));
  }

  /** The admin `delete_announcement`: 500 for an id that does not parse, 404 for an absent
      document, otherwise exactly that announcement is removed. */
  method AdminDeleteAnnouncement(db: AnnouncementCollection, id: string) returns (r: Outcome<string>)
    requires db.Valid()
    modifies db
    ensures db.Valid()
    ensures Parse(id).None? ==> r == Err(InternalError, ServerErrorDetail) && db.docs == old(db.docs)
    ensures Parse(id).Some? && !HasId(old(db.docs), Parse(id).value) ==>
      r == Err(NotFound, AnnouncementNotFound) && db.docs == old(db.docs)
    ensures Parse(id).Some? && HasId(old(db.docs), Parse(id).value) ==>
      r == Ok(AnnouncementDeleted) && db.docs == Remove(old(db.docs), Parse(id).value)
  {
    var parsed := Parse(id);
    if parsed.None? {
      return Err(InternalError, ServerErrorDetail);
    }
    var oid := parsed.value;
    if Lookup(db.docs, oid).None? {
      return Err(NotFound, AnnouncementNotFound);
    }
    RemoveKeepsUniqueIds(db.docs, oid);
    db.docs := Remove(db.docs, oid);
    r := Ok(AnnouncementDeleted);
  }

  /** After a delete the id is gone and every other announcement is still there. */
  lemma DeleteRemovesExactlyOne(store: seq<Doc<Announcement>>, oid: ObjectId, other: ObjectId)
    requires other != oid
    ensures Lookup(Remove(store, oid), oid).None?
    ensures HasId(store, other) <==> HasId(Remove(store, oid), other)
  {
    var r := Remove(store, oid);
    if HasId(store, other) {
      var i :| 0 <= i < |store| && store[i].id == other;
      assert store[i] in r;
    }
    if HasId(r, other) {
      var i :| 0 <= i < |r| && r[i].id == other;
      assert r[i] in store;
    }
  }
}
