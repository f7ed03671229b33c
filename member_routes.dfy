/** The member's own profile, backend/app/routes/members.py. */
module MemberRoutes {
  import opened Outcomes
  import opened ObjectIds
  import opened Collections
  import opened MemberModel

  /** `MemberSelfUpdate`: only the two names and the phone can be sent. */
  datatype SelfUpdate = SelfUpdate(first_name: Patch<string>, last_name: Patch<string>, phone: Patch<Option<string>>)

  /** `current_user.set(update_data.dict(exclude_unset=True))` on the stored member. */
  function ApplySelfUpdate(m: Member, u: SelfUpdate): (r: Member)
    ensures r.first_name == Apply(u.first_name, m.first_name)
    ensures r.last_name == Apply(u.last_name, m.last_name)
    ensures r.phone == Apply(u.phone, m.phone)
    ensures r.(first_name := m.first_name, last_name := m.last_name, phone := m.phone) == m
  {
    m.(first_name := Apply(u.first_name, m.first_name),
       last_name := Apply(u.last_name, m.last_name),
       phone := Apply(u.phone, m.phone))
  }

  /** Self-update never reaches the fields that decide access: role, e-mail, active flag,
      departments and password hash. An empty update changes nothing. */
  lemma SelfUpdateKeepsAccess(m: Member, u: SelfUpdate)
    ensures ApplySelfUpdate(m, u).role == m.role && ApplySelfUpdate(m, u).email == m.email
    ensures ApplySelfUpdate(m, u).is_active == m.is_active
    ensures ApplySelfUpdate(m, u).departments == m.departments
    ensures ApplySelfUpdate(m, u).password_hash == m.password_hash
    ensures ApplySelfUpdate(m, SelfUpdate(Keep, Keep, Keep)) == m
  {
  }

  /** `update_my_profile` for the member the resolver loaded: the stored member takes the
      supplied fields, and the answer is the member as read back afterwards. */
  method UpdateMyProfile(db: MemberCollection, current: Doc<Member>, u: SelfUpdate) returns (r: Member)
    requires db.Valid() && Lookup(db.docs, current.id) == Some(current.body)
    modifies db
    ensures db.Valid()
    ensures db.docs == Replace(old(db.docs), current.id, ApplySelfUpdate(current.body, u))
    ensures Lookup(db.docs, current.id) == Some(r) && r == ApplySelfUpdate(current.body, u)
  {
    var updated := ApplySelfUpdate(current.body, u);
    ReplaceKeepsEmails(db.docs, current.id, updated);
    LookupReplace(db.docs, current.id, updated, current.id);
    db.docs := Replace(db.docs, current.id, updated);
    var reread := Lookup(db.docs, current.id);
    r := reread.value;
  }
}

/** The admin member handlers, backend/app/routes/admin/members.py. The path parameter is
    a `PydanticObjectId`, so an id that does not parse is refused with 422 before the
    handler runs. */
module AdminMembers {
  import opened Outcomes
  import opened ObjectIds
  import opened Collections
  import opened MemberModel

  const MemberNotFound := "Member not found"
  /** The delete handler's detail, spelled as in the source. */
  const DeleteNotFound := "Memebr not found"
  const RoleRequired := "Role parameter required"
  const MemberDeleted := "Member deleted"

  /** `create_member`: `MemberCreate` declares only `password`, so reading
      `member_data.email` raises and every request ends as a server error. */
  function CreateMember(password: string, members: seq<Doc<Member>>): (r: Outcome<Member>)
    ensures r.Err? && r.status == InternalError
  {
    Err(InternalError, ServerErrorDetail)
  }

  /** `MemberUpdate` as declared. Three of its names (`fisrt_name`, `ia_active`,
      `department`) match no field of the member and have no effect on it. */
  datatype MemberUpdate = MemberUpdate(
    fisrt_name: Patch<Option<string>>,
    last_name: Patch<string>,
    phone: Patch<Option<string>>,
    role: Patch<string>,
    ia_active: Patch<Option<bool>>,
    department: Patch<Option<seq<string>>>)

  /** `member.set(update_data.dict(exclude_unset=True))`. The role is written without
      going through the validator. */
  function ApplyMemberUpdate(m: Member, u: MemberUpdate): (r: Member)
    ensures r.last_name == Apply(u.last_name, m.last_name)
    ensures r.phone == Apply(u.phone, m.phone)
    ensures r.role == Apply(u.role, m.role)
    ensures r.(last_name := m.last_name, phone := m.phone, role := m.role) == m
  {
    m.(last_name := Apply(u.last_name, m.last_name),
       phone := Apply(u.phone, m.phone),
       role := Apply(u.role, m.role))
  }

  /** The misspelt fields change nothing: first name, active flag and departments keep
      their values whatever the request carries. */
  lemma MisspeltFieldsIgnored(m: Member, u: MemberUpdate)
    ensures ApplyMemberUpdate(m, u).first_name == m.first_name
    ensures ApplyMemberUpdate(m, u).is_active == m.is_active
    ensures ApplyMemberUpdate(m, u).departments == m.departments
    ensures ApplyMemberUpdate(m, u).email == m.email
  {
  }

  /** A role the validator refuses can be stored through the admin update. */
  lemma UpdateStoresUnvalidatedRole(m: Member)
    ensures ApplyMemberUpdate(m, MemberUpdate(Keep, Keep, Keep, Put("Pastor"), Keep, Keep)).role == "Pastor"
    ensures ValidateRole("Pastor").Err?
  {
    assert "Pastor" !in ValidRoles by {
      forall i | 0 <= i < |ValidRoles| ensures ValidRoles[i] != "Pastor" {
        assert ValidRoles[i][0] != 'P';
      }
    }
  }

  /** `update_member`: 422 for an id that does not parse, 404 for an absent member, else
      the supplied fields are written and the updated member is returned. */
  method UpdateMember(db: MemberCollection, memberId: string, u: MemberUpdate) returns (r: Outcome<Member>)
    requires db.Valid()
    modifies db
    ensures db.Valid()
    ensures Parse(memberId).None? ==> r == Err(Unprocessable, ValidationDetail) && db.docs == old(db.docs)
    ensures Parse(memberId).Some? && !HasId(old(db.docs), Parse(memberId).value) ==>
      r == Err(NotFound, MemberNotFound) && db.docs == old(db.docs)
    ensures Parse(memberId).Some? && HasId(old(db.docs), Parse(memberId).value) ==>
      var id := Parse(memberId).value;
      r == Ok(ApplyMemberUpdate(Lookup(old(db.docs), id).value, u)) &&
      db.docs == Replace(old(db.docs), id, r.value) &&
      Lookup(db.docs, id) == Some(r.value)
  {
    var parsed := Parse(memberId);
    if parsed.None? {
      return Err(Unprocessable, ValidationDetail);
    }
    var id := parsed.value;
    var found := Lookup(db.docs, id);
    if found.None? {
      return Err(NotFound, MemberNotFound);
    }
    var updated := ApplyMemberUpdate(found.value, u);
    ReplaceKeepsEmails(db.docs, id, updated);
    LookupReplace(db.docs, id, updated, id);
    db.docs := Replace(db.docs, id, updated);
    r := Ok(updated);
  }

  /** `delete_member`: 422 for an id that does not parse, 404 for an absent member, else the
      member is removed and every other member stays. */
  method DeleteMember(db: MemberCollection, memberId: string) returns (r: Outcome<string>)
    requires db.Valid()
    modifies db
    ensures db.Valid()
    ensures Parse(memberId).None? ==> r == Err(Unprocessable, ValidationDetail) && db.docs == old(db.docs)
    ensures Parse(memberId).Some? && !HasId(old(db.docs), Parse(memberId).value) ==>
      r == Err(NotFound, DeleteNotFound) && db.docs == old(db.docs)
    ensures Parse(memberId).Some? && HasId(old(db.docs), Parse(memberId).value) ==>
      r == Ok(MemberDeleted) && db.docs == Remove(old(db.docs), Parse(memberId).value)
  {
    var parsed := Parse(memberId);
    if parsed.None? {
      return Err(Unprocessable, ValidationDetail);
    }
    var id := parsed.value;
    if Lookup(db.docs, id).None? {
      return Err(NotFound, DeleteNotFound);
    }
    RemoveKeepsValid(db.docs, id);
    db.docs := Remove(db.docs, id);
    r := Ok(MemberDeleted);
  }

  /** `search_members`: a missing or empty role gives 400, otherwise the members whose role
      equals the query exactly, in stored order. */
  function SearchMembers(members: seq<Doc<Member>>, role: Option<string>): (r: Outcome<seq<Doc<Member>>>)
    ensures r.Err? <==> role.None? || role.value == ""
    ensures r.Err? ==> r == Err(BadRequest, RoleRequired)
    ensures r.Ok? ==> forall i :: 0 <= i < |r.value| ==> r.value[i] in members && r.value[i].body.role == role.value
    ensures r.Ok? ==> forall i :: 0 <= i < |members| && members[i].body.role == role.value ==> members[i] in r.value
    ensures r.Ok? ==> Subsequence(r.value, members)
  {
    if role.None? || role.value == "" then Err(BadRequest, RoleRequired)
    else
      FilterIsSubsequence(members, (d: Doc<Member>) => d.body.role == role.value);
      Ok(Filter(members, (d: Doc<Member>) => d.body.role == role.value))
  }

  /** Searching by each role of a two-role split counts every member exactly once. */
  lemma SearchSplits(members: seq<Doc<Member>>, role: string)
    requires role != ""
    ensures |SearchMembers(members, Some(role)).value| +
            |Filter(members, (d: Doc<Member>) => d.body.role != role)| == |members|
  {
    FilterPartition(members, (d: Doc<Member>) => d.body.role == role, (d: Doc<Member>) => d.body.role != role);
  }
}

/** Role promotion, backend/app/routes/admin/users.py. */
module AdminUsers {
  import opened Outcomes
  import opened ObjectIds
  import opened Collections
  import opened MemberModel
  import opened Dependencies

  const InvalidRoleDetail := "Invalid role. Must be one of: Member, Usher, Choir, Deacon, Staff, Admin"
  const UserNotFound := "User not found"

  function PromotedMessage(role: string): string {
    "User promoted to " + role
  }

  /** `promote_user`: 422 for an id that does not parse, then 400 for a role outside the
      set (before any lookup), then 404 for an absent user; otherwise the role becomes
      exactly the requested one and nothing else changes. Demotion is allowed. */
  method PromoteUser(db: MemberCollection, userId: string, newRole: string) returns (r: Outcome<string>)
    requires db.Valid()
    modifies db
    ensures db.Valid()
    ensures Parse(userId).None? ==> r == Err(Unprocessable, ValidationDetail) && db.docs == old(db.docs)
    ensures Parse(userId).Some? && newRole !in ValidRoles ==>
      r == Err(BadRequest, InvalidRoleDetail) && db.docs == old(db.docs)
    ensures Parse(userId).Some? && newRole in ValidRoles && !HasId(old(db.docs), Parse(userId).value) ==>
      r == Err(NotFound, UserNotFound) && db.docs == old(db.docs)
    ensures Parse(userId).Some? && newRole in ValidRoles && HasId(old(db.docs), Parse(userId).value) ==>
      var id := Parse(userId).value;
      r == Ok(PromotedMessage(newRole)) &&
      db.docs == Replace(old(db.docs), id, Lookup(old(db.docs), id).value.(role := newRole))
  {
    var parsed := Parse(userId);
    if parsed.None? {
      return Err(Unprocessable, ValidationDetail);
    }
    if newRole !in ValidRoles {
      return Err(BadRequest, InvalidRoleDetail);
    }
    var id := parsed.value;
    var found := Lookup(db.docs, id);
    if found.None? {
      return Err(NotFound, UserNotFound);
    }
    var updated := found.value.(role := newRole);
    ReplaceKeepsEmails(db.docs, id, updated);
    db.docs := Replace(db.docs, id, updated);
    r := Ok(PromotedMessage(newRole));
  }

  /** After a promotion the stored member holds a valid role, and passes the admin gate
      exactly when that role is "Admin" or "Staff". */
  lemma PromotionThenGate(members: seq<Doc<Member>>, id: ObjectId, newRole: string)
    requires HasId(members, id) && newRole in ValidRoles
    ensures Lookup(Replace(members, id, Lookup(members, id).value.(role := newRole)), id).value.role == newRole
    ensures ValidateRole(Lookup(Replace(members, id, Lookup(members, id).value.(role := newRole)), id).value.role).Ok?
    ensures RequireAdmin(Lookup(Replace(members, id, Lookup(members, id).value.(role := newRole)), id).value).Ok?
        <==> newRole == "Admin" || newRole == "Staff"
  {
    LookupReplace(members, id, Lookup(members, id).value.(role := newRole), id);
  }
}
