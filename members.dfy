/** The member document: the fixed role set and its validator, the field defaults,
    and password handling through bcrypt, which the model takes as a pair of
    functions (`hash` with a salt, `verify`) whose one law is stated by `Sound`. */
module MemberModel {
  import opened Outcomes
  import opened ObjectIds
  import opened Collections

  const ValidRoles: seq<string> := ["Member", "Usher", "Choir", "Deacon", "Staff", "Admin"]

  /** The `role` validator: pydantic turns its `ValueError` into a validation failure. */
  function ValidateRole(v: string): (r: Outcome<string>)
    ensures r.Ok? <==> v in ValidRoles
    ensures r.Ok? ==> r.value == v
    ensures r.Err? ==> r.status == Unprocessable
  {
    if v in ValidRoles then Ok(v)
    else Err(Unprocessable, "Invalid role. Must be one of: Member, Usher, Choir, Deacon, Staff, Admin")
  }

  /** Matching is exact: a role spelt in lower case is refused. */
  lemma RoleMatchIsExact()
    ensures ValidateRole("Admin").Ok? && ValidateRole("Staff").Ok?
    ensures ValidateRole("admin").Err? && ValidateRole("staff").Err? && ValidateRole("member").Err?
  {
    forall i | 0 <= i < |ValidRoles|
      ensures ValidRoles[i] != "admin" && ValidRoles[i] != "staff" && ValidRoles[i] != "member"
    {
      assert 'A' <= ValidRoles[i][0] <= 'Z';
    }
  }

  datatype Member = Member(
    first_name: string,
    last_name: string,
    email: string,
    phone: Option<string>,
    role: string,
    join_date: int,
    is_active: bool,
    departments: seq<string>,
    password_hash: string,
    notification_preference: string,
    sms_opt_in: bool)

  /** bcrypt through passlib. `hash` takes the random salt as an argument. */
  datatype Hasher = Hasher(hash: (string, nat) -> string, verify: (string, string) -> bool)

  /** The one law the model relies on: a fresh hash of a password verifies that password. */
  ghost predicate Sound(h: Hasher) {
    forall p, salt :: h.verify(p, h.hash(p, salt))
  }

  /** `Member(first_name=..., last_name=..., email=..., phone=...)` before `set_password`:
      the other fields take their declared defaults. `password_hash` has no default in
      app/models/member_model.py:20; the model gives it the empty text that `set_password`
      overwrites at once, as `register` assumes. */
  function NewMember(first: string, last: string, email: string, phone: Option<string>, now: int)
    : (m: Member)
    ensures m.role == "Member" && ValidateRole(m.role).Ok?
    ensures m.is_active && m.departments == []
    ensures m.notification_preference == "both" && !m.sms_opt_in
    ensures m.first_name == first && m.last_name == last && m.email == email && m.phone == phone
    ensures m.join_date == now
  {
    Member(first, last, email, phone, "Member", now, true, [], "", "both", false)
  }

  /** `set_password`. */
  function SetPassword(m: Member, h: Hasher, password: string, salt: nat): Member {
    m.(password_hash := h.hash(password, salt))
  }

  /** `verify_password`. */
  function VerifyPassword(m: Member, h: Hasher, password: string): bool {
    h.verify(password, m.password_hash)
  }

  /** `set_password` touches only the hash, and with a sound hasher the new password
      verifies afterwards. */
  lemma SetPasswordThenVerify(m: Member, h: Hasher, password: string, salt: nat)
    requires Sound(h)
    ensures VerifyPassword(SetPassword(m, h, password, salt), h, password)
    ensures SetPassword(m, h, password, salt).(password_hash := m.password_hash) == m
  {
  }

  /** The `members` collection. Ids are unique and so are e-mail addresses: registration
      refuses a taken address and no other handler can change one. */
  class MemberCollection {
    var docs: seq<Doc<Member>>

    ghost predicate Valid()
      reads this
    {
      UniqueIds(docs) && UniqueEmails(docs)
    }
  }

  ghost predicate UniqueEmails(c: seq<Doc<Member>>) {
    forall i, j :: 0 <= i < j < |c| ==> c[i].body.email != c[j].body.email
  }

  /** `Member.find_one(Member.email == email)`: exact, case-sensitive comparison. */
  function FindByEmail(c: seq<Doc<Member>>, email: string): (r: Option<Doc<Member>>)
    ensures r.Some? ==> r.value in c && r.value.body.email == email
    ensures r.None? <==> forall i :: 0 <= i < |c| ==> c[i].body.email != email
  {
    FindFirst(c, (m: Member) => m.email == email)
  }

  /** Saving a member whose e-mail is unchanged keeps ids and e-mail addresses unique. */
  lemma ReplaceKeepsValid(c: seq<Doc<Member>>, id: ObjectId, body: Member)
    requires UniqueIds(c) && UniqueEmails(c)
    requires forall i :: 0 <= i < |c| && c[i].id == id ==> c[i].body.email == body.email
    ensures UniqueIds(Replace(c, id, body)) && UniqueEmails(Replace(c, id, body))
  {
    var r := Replace(c, id, body);
    forall i, j | 0 <= i < j < |r| ensures r[i].body.email != r[j].body.email {
      assert r[i].body.email == c[i].body.email && r[j].body.email == c[j].body.email;
    }
  }

  /** Saving a stored member under its own id with its e-mail unchanged keeps ids and
      e-mail addresses unique. */
  lemma ReplaceKeepsEmails(c: seq<Doc<Member>>, id: ObjectId, body: Member)
    requires UniqueIds(c) && UniqueEmails(c)
    requires Lookup(c, id).Some? && Lookup(c, id).value.email == body.email
    ensures UniqueIds(Replace(c, id, body)) && UniqueEmails(Replace(c, id, body))
  {
    var k := Find(c, id).value;
    forall i | 0 <= i < |c| && c[i].id == id ensures c[i].body.email == body.email {
      assert i == k;
    }
    ReplaceKeepsValid(c, id, body);
  }

  /** Deleting a member keeps ids and e-mail addresses unique. */
  lemma RemoveKeepsValid(c: seq<Doc<Member>>, id: ObjectId)
    requires UniqueIds(c) && UniqueEmails(c)
    ensures UniqueIds(Remove(c, id)) && UniqueEmails(Remove(c, id))
  {
    var keep := (d: Doc<Member>) => d.id != id;
    FilterKeepsUniqueIds(c, keep);
    FilterKeepsDistinct(c, keep, (d: Doc<Member>) => d.body.email);
  }
}

/** The admin gate, `require_admin`. The two copies in the repository
    (app/dependencies.py and backend/app/dependencies.py) have the same body and are
    modelled once. */
module Dependencies {
  import opened Outcomes
  import opened MemberModel

  const AdminDenied := "You do not have permission to perform this action"

  /** Passes the member through unchanged iff the role is exactly "Admin" or "Staff". */
  function RequireAdmin(m: Member): (r: Outcome<Member>)
    ensures r.Ok? <==> m.role == "Admin" || m.role == "Staff"
    ensures r.Ok? ==> r.value == m
    ensures r.Err? ==> r == Err(Forbidden, AdminDenied)
  {
    if m.role !in ["Admin", "Staff"] then Err(Forbidden, AdminDenied) else Ok(m)
  }
}
