/** Token issue and the current-user resolver of backend/app/utils/auth.py.
    The JWT library (HS256 with the server key) is a pair of functions, `encode` and
    `decode`, and `Faithful` states the one law the model relies on. Time is the
    whole number of seconds since the epoch. */
module AuthUtils {
  import opened Outcomes
  import opened ObjectIds
  import opened Collections
  import opened MemberModel

  const AccessTokenExpireMinutes := 30
  const AccessTokenLifetime := AccessTokenExpireMinutes * 60

  const CredentialsDetail := "Could not validate credentials"
  const AuthErrorDetail := "Internal authentication error"
  const InactiveDetail := "Inactive user"

  /** A claim value: a string or a whole number (`exp` is encoded as a timestamp). */
  datatype Claim = CStr(s: string) | CInt(n: int)

  type Claims = map<string, Claim>

  /** The number a string of decimal digits denotes. */
  function DecimalValue(s: string): nat
    requires forall i :: 0 <= i < |s| ==> '0' <= s[i] <= '9'
  {
    if s == [] then 0 else 10 * DecimalValue(s[..|s| - 1]) + (s[|s| - 1] - '0') as nat
  }

  /** Decimal digits of a natural number, as `str` writes them: no leading zero, and the
      digits read back as the number. */
  function NatToDecimal(n: nat): (r: string)
    ensures |r| >= 1
    ensures forall i :: 0 <= i < |r| ==> '0' <= r[i] <= '9'
    ensures DecimalValue(r) == n
    ensures |r| > 1 ==> r[0] != '0'
    decreases n
  {
    var d := ['0' + (n % 10) as char];
    if n < 10 then d
    else
      var r := NatToDecimal(n / 10) + d;
      assert r[..|r| - 1] == NatToDecimal(n / 10);
      r
  }

  /** `str(value)` of a claim value. */
  function ClaimText(c: Claim): string {
    match c
    case CStr(s) => s
    case CInt(n) => if n < 0 then "-" + NatToDecimal(-n) else NatToDecimal(n)
  }

  /** `create_access_token`: a copy of the input claims with `exp` set to issue time plus
      30 minutes and `sub`, when present, turned into its string form. */
  function CreateAccessToken(data: Claims, now: int): (r: Claims)
    ensures r.Keys == data.Keys + {"exp"}
    ensures r["exp"] == CInt(now + AccessTokenLifetime)
    ensures "sub" in data ==> r["sub"] == CStr(ClaimText(data["sub"]))
    ensures forall k :: k in data && k != "exp" && k != "sub" ==> r[k] == data[k]
  {
    var t := data["exp" := CInt(now + AccessTokenLifetime)];
    if "sub" in t then t["sub" := CStr(ClaimText(t["sub"]))] else t
  }

  /** A string claim keeps its value when `sub` is string-coerced. */
  lemma SubjectKept(id: string, now: int)
    ensures CreateAccessToken(map["sub" := CStr(id)], now)["sub"] == CStr(id)
    ensures CreateAccessToken(map["sub" := CStr(id)], now).Keys == {"sub", "exp"}
  {
  }

  datatype JwtCodec = JwtCodec(encode: Claims -> string, decode: (string, int) -> Option<Claims>)

  /** The library's checks on the claims it decodes: an `exp` must be a number not
      earlier than the current time, and a `sub` must be a string. */
  predicate ClaimsAccepted(claims: Claims, now: int) {
    ("exp" in claims ==> claims["exp"].CInt? && now <= claims["exp"].n) &&
    ("sub" in claims ==> claims["sub"].CStr?)
  }

  /** Decoding a token this server signed with only the claims `create_access_token`
      writes (`sub` and `exp`) gives back its claims exactly when the library accepts them,
      and fails otherwise. Tokens with other claims, forged or damaged tokens may decode to
      anything. */
  ghost predicate Faithful(codec: JwtCodec) {
    forall claims: Claims, now: int | claims.Keys <= {"sub", "exp"} :: codec.decode(codec.encode(claims), now) ==
      (if ClaimsAccepted(claims, now) then Some(claims) else None)
  }

  /** `get_current_user`. Only a decode failure reaches the client as 401: the 401 raised
      for a missing subject or an absent member is caught by the generic `except` and
      becomes 500, as does an id `ObjectId` refuses. */
  function GetCurrentUser(codec: JwtCodec, token: string, now: int, members: seq<Doc<Member>>)
    : (r: Outcome<Doc<Member>>)
    ensures r.Err? ==> r == Err(Unauthorized, CredentialsDetail) || r == Err(InternalError, AuthErrorDetail)
    ensures r == Err(Unauthorized, CredentialsDetail) <==> codec.decode(token, now).None?
    ensures r.Ok? <==>
      codec.decode(token, now).Some? && "sub" in codec.decode(token, now).value &&
      codec.decode(token, now).value["sub"].CStr? &&
      Parse(codec.decode(token, now).value["sub"].s).Some? &&
      HasId(members, Parse(codec.decode(token, now).value["sub"].s).value)
    ensures r.Ok? ==> r.value in members && Some(r.value.id) == Parse(codec.decode(token, now).value["sub"].s)
  {
    match codec.decode(token, now)
    case None => Err(Unauthorized, CredentialsDetail)
    case Some(payload) =>
      if "sub" !in payload || !payload["sub"].CStr? then Err(InternalError, AuthErrorDetail)
      else match Parse(payload["sub"].s)
        case None => Err(InternalError, AuthErrorDetail)
        case Some(oid) =>
          match Lookup(members, oid)
          case None => Err(InternalError, AuthErrorDetail)
          case Some(m) => Ok(Doc(oid, m))
  }

  /** `get_current_active_user`. */
  function GetCurrentActiveUser(user: Doc<Member>): (r: Outcome<Doc<Member>>)
    ensures r.Ok? <==> user.body.is_active
    ensures r.Ok? ==> r.value == user
    ensures r.Err? ==> r == Err(BadRequest, InactiveDetail)
  {
    if !user.body.is_active then Err(BadRequest, InactiveDetail) else Ok(user)
  }

  /** The token issued for a member's id. */
  function TokenFor(codec: JwtCodec, id: ObjectId, issuedAt: int): string {
    codec.encode(CreateAccessToken(map["sub" := CStr(ToStr(id))], issuedAt))
  }

  /** Within its lifetime, a token issued for a stored member resolves to that member. */
  lemma IssuedTokenResolves(codec: JwtCodec, members: seq<Doc<Member>>, i: nat, issuedAt: int, now: int)
    requires Faithful(codec) && UniqueIds(members) && i < |members| && WellFormed(members[i].id)
    requires now <= issuedAt + AccessTokenLifetime
    ensures GetCurrentUser(codec, TokenFor(codec, members[i].id, issuedAt), now, members) == Ok(members[i])
  {
    var claims := CreateAccessToken(map["sub" := CStr(ToStr(members[i].id))], issuedAt);
    assert ClaimsAccepted(claims, now);
    assert codec.decode(codec.encode(claims), now) == Some(claims);
    ParseToStr(members[i].id);
    LookupUnique(members, i);
  }

  /** After its lifetime, the same token is refused with 401. */
  lemma ExpiredTokenRejected(codec: JwtCodec, members: seq<Doc<Member>>, id: ObjectId, issuedAt: int, now: int)
    requires Faithful(codec)
    requires now > issuedAt + AccessTokenLifetime
    ensures GetCurrentUser(codec, TokenFor(codec, id, issuedAt), now, members) == Err(Unauthorized, CredentialsDetail)
  {
    var claims := CreateAccessToken(map["sub" := CStr(ToStr(id))], issuedAt);
    assert !ClaimsAccepted(claims, now);
    assert codec.decode(codec.encode(claims), now) == None;
  }

  /** A valid token whose member has been deleted ends as 500, not 401. */
  lemma AbsentMemberIsServerError(codec: JwtCodec, members: seq<Doc<Member>>, id: ObjectId, issuedAt: int, now: int)
    requires Faithful(codec) && WellFormed(id) && !HasId(members, id)
    requires now <= issuedAt + AccessTokenLifetime
    ensures GetCurrentUser(codec, TokenFor(codec, id, issuedAt), now, members) == Err(InternalError, AuthErrorDetail)
  {
    var claims := CreateAccessToken(map["sub" := CStr(ToStr(id))], issuedAt);
    assert ClaimsAccepted(claims, now);
    assert codec.decode(codec.encode(claims), now) == Some(claims);
    ParseToStr(id);
  }

  /** A signed token without a subject also ends as 500. */
  lemma MissingSubjectIsServerError(codec: JwtCodec, members: seq<Doc<Member>>, issuedAt: int, now: int)
    requires Faithful(codec)
    requires now <= issuedAt + AccessTokenLifetime
    ensures GetCurrentUser(codec, codec.encode(CreateAccessToken(map[], issuedAt)), now, members)
         == Err(InternalError, AuthErrorDetail)
  {
    var claims := CreateAccessToken(map[], issuedAt);
    assert ClaimsAccepted(claims, now);
    assert codec.decode(codec.encode(claims), now) == Some(claims);
  }
}

/** The address `UserRegister.email` carries into `register`. The field is typed `EmailStr`,
    so pydantic validates and normalises it before the handler runs: surrounding white space
    is stripped, there must be one '@' with text on both sides, and the domain is lowercased.
    The local part is kept as typed. */
module EmailAddress {
  import opened Outcomes
  import opened DatabaseConnection

  /** Python's `str.isspace`: the characters `str.strip()` removes. */
  predicate IsSpace(c: char) {
    '\t' <= c <= '\r' || '\U{001C}' <= c <= ' ' || c == '\U{0085}' || c == '\U{00A0}' || c == '\U{1680}' ||
    '\U{2000}' <= c <= '\U{200A}' || c == '\U{2028}' || c == '\U{2029}' || c == '\U{202F}' ||
    c == '\U{205F}' || c == '\U{3000}'
  }

  /** `str.strip()`: white space removed from both ends. */
  function Strip(s: string): (r: string)
    ensures |r| <= |s|
    ensures r != [] ==> !IsSpace(r[0]) && !IsSpace(r[|r| - 1])
    ensures s == [] || (!IsSpace(s[0]) && !IsSpace(s[|s| - 1])) ==> r == s
    decreases |s|
  {
    if s != [] && IsSpace(s[0]) then Strip(s[1..])
    else if s != [] && IsSpace(s[|s| - 1]) then Strip(s[..|s| - 1])
    else s
  }

  /** ASCII upper case to lower case; every other character is unchanged. */
  function LowerChar(c: char): char {
    if 'A' <= c <= 'Z' then (c as int + 32) as char else c
  }

  function Lower(s: string): string {
    seq(|s|, i requires 0 <= i < |s| => LowerChar(s[i]))
  }

  /** The address validation produces, or `None` where it refuses the input and FastAPI
      answers 422 before the handler runs. */
  function NormalizeEmail(raw: string): (r: Option<string>)
    ensures r.Some? ==> |r.value| == |Strip(raw)| && '@' in Strip(raw)
    ensures '@' !in Strip(raw) ==> r.None?
  {
    var parts := Split(Strip(raw), '@');
    SplitTwoRejoins(Strip(raw), '@');
    SplitCountsSeparator(Strip(raw), '@');
    if |parts| == 2 && parts[0] != [] && parts[1] != [] then Some(parts[0] + "@" + Lower(parts[1]))
    else None
  }

  lemma {:induction false} SplitCountsSeparator(s: string, c: char)
    ensures c in s ==> |Split(s, c)| >= 2
  {
    if s != [] {
      SplitCountsSeparator(s[1..], c);
      assert s == [s[0]] + s[1..];
    }
  }

  /** Two pieces join back, around the separator, into the string that was split. */
  lemma {:induction false} SplitTwoRejoins(s: string, c: char)
    ensures |Split(s, c)| == 2 ==> s == Split(s, c)[0] + [c] + Split(s, c)[1]
  {
    if s != [] {
      SplitTwoRejoins(s[1..], c);
      SplitCountsSeparator(s[1..], c);
      if s[0] == c {
        if c !in s[1..] {
          SplitNoSeparator(s[1..], c);
        }
        assert s == [] + [c] + s[1..];
      } else {
        assert s == [s[0]] + s[1..];
      }
    }
  }

  /** An address with one '@', text on both sides and no white space at its ends is kept,
      with only its domain lowercased. */
  lemma NormalizedForm(local: string, domain: string)
    requires local != [] && domain != [] && '@' !in local && '@' !in domain
    requires !IsSpace(local[0]) && !IsSpace(domain[|domain| - 1])
    ensures NormalizeEmail(local + "@" + domain) == Some(local + "@" + Lower(domain))
  {
    var e := local + "@" + domain;
    assert e[0] == local[0] && e[|e| - 1] == domain[|domain| - 1];
    assert Strip(e) == e;
    SplitJoin(local, domain, '@');
    SplitNoSeparator(local, '@');
    SplitNoSeparator(domain, '@');
  }

  /** Validating an address that validation produced gives it back unchanged. */
  lemma NormalizeEmailIdempotent(raw: string)
    ensures NormalizeEmail(raw).Some? ==> NormalizeEmail(NormalizeEmail(raw).value) == NormalizeEmail(raw)
  {
    var e := Strip(raw);
    var parts := Split(e, '@');
    if |parts| == 2 && parts[0] != [] && parts[1] != [] {
      var local, domain := parts[0], parts[1];
      SplitPieceChars(e, '@', 0);
      SplitPieceChars(e, '@', 1);
      SplitTwoRejoins(e, '@');
      assert e[0] == local[0] && e[|e| - 1] == domain[|domain| - 1];
      var lower := Lower(domain);
      assert '@' !in lower by {
        forall i | 0 <= i < |lower| ensures lower[i] != '@' {
          assert domain[i] in domain;
        }
      }
      NormalizedForm(local, lower);
      assert Lower(lower) == lower;
    }
  }

  /** A domain typed in mixed case is stored in lower case. */
  lemma MixedCaseDomainLowered()
    ensures NormalizeEmail("a@X.org") == Some("a@x.org")
  {
    assert "a@X.org" == "a" + "@" + "X.org";
    NormalizedForm("a", "X.org");
    assert Lower("X.org") == "x.org";
    assert "a" + "@" + "x.org" == "a@x.org";
  }
}

/** The handlers of backend/app/routes/auth.py. */
module AuthRoutes {
  import opened Outcomes
  import opened ObjectIds
  import opened Collections
  import opened MemberModel
  import opened AuthUtils
  import opened EmailAddress

  const EmailTakenDetail := "Email already registered"
  const InvalidCredentialsDetail := "Invalid credentials"
  const WrongPasswordDetail := "Current password is incorrect"
  const PasswordUpdatedMessage := "Password updated successfully"
  const LogoutMessage := "Logout successful"

  /** The member `register` stores: the defaults, with the password hashed. */
  function Registrant(h: Hasher, first: string, last: string, email: string, phone: Option<string>,
                      password: string, salt: nat, now: int): Member
  {
    SetPassword(NewMember(first, last, email, phone, now), h, password, salt)
  }

  /** `register`: an address `EmailStr` refuses gives 422 before the handler runs. The
      duplicate check and the stored member use the normalised address: a taken address gives
      400 and stores nothing; otherwise the new member is inserted under the fresh id and a
      token for that id is returned. */
  method Register(db: MemberCollection, h: Hasher, codec: JwtCodec, first: string, last: string,
                  email: string, phone: Option<string>, password: string, salt: nat,
                  newId: ObjectId, now: int)
    returns (r: Outcome<string>)
    requires db.Valid() && !HasId(db.docs, newId)
    modifies db
    ensures db.Valid()
    ensures NormalizeEmail(email).None? ==> r == Err(Unprocessable, ValidationDetail) && db.docs == old(db.docs)
    ensures NormalizeEmail(email).Some? && FindByEmail(old(db.docs), NormalizeEmail(email).value).Some? ==>
      r == Err(BadRequest, EmailTakenDetail) && db.docs == old(db.docs)
    ensures NormalizeEmail(email).Some? && FindByEmail(old(db.docs), NormalizeEmail(email).value).None? ==>
      r == Ok(TokenFor(codec, newId, now)) &&
      db.docs == old(db.docs) + [Doc(newId, Registrant(h, first, last, NormalizeEmail(email).value, phone, password, salt, now))]
  {
    var address := NormalizeEmail(email);
    if address.None? {
      return Err(Unprocessable, ValidationDetail);
    }
    if FindByEmail(db.docs, address.value).Some? {
      return Err(BadRequest, EmailTakenDetail);
    }
    var m := NewMember(first, last, address.value, phone, now);
    m := SetPassword(m, h, password, salt);
    db.docs := db.docs + [Doc(newId, m)];
    r := Ok(TokenFor(codec, newId, now));
  }

  /** `login`: an unknown address and a wrong password give the same 401; `is_active`
      is not consulted. */
  function Login(members: seq<Doc<Member>>, h: Hasher, codec: JwtCodec, username: string,
                 password: string, now: int): (r: Outcome<string>)
    ensures r.Err? ==> r == Err(Unauthorized, InvalidCredentialsDetail)
    ensures r.Ok? <==> exists i :: 0 <= i < |members| && members[i].body.email == username &&
                         FindByEmail(members, username) == Some(members[i]) &&
                         VerifyPassword(members[i].body, h, password)
    ensures r.Ok? ==> r == Ok(TokenFor(codec, FindByEmail(members, username).value.id, now))
  {
    match FindByEmail(members, username)
    case None => Err(Unauthorized, InvalidCredentialsDetail)
    case Some(d) =>
      if !VerifyPassword(d.body, h, password) then Err(Unauthorized, InvalidCredentialsDetail)
      else Ok(TokenFor(codec, d.id, now))
  }

  /** With unique addresses, login finds the one member with that address. */
  lemma FindByEmailUnique(members: seq<Doc<Member>>, i: nat)
    requires UniqueEmails(members) && i < |members|
    ensures FindByEmail(members, members[i].body.email) == Some(members[i])
  {
    var f := FindByEmail(members, members[i].body.email);
    assert f.Some?;
    var j :| 0 <= j < |members| && members[j] == f.value;
  }

  /** Login succeeds iff the address is stored and the password verifies against that
      member's hash; an inactive member is let in like any other. */
  lemma LoginSucceedsIff(members: seq<Doc<Member>>, h: Hasher, codec: JwtCodec, i: nat, password: string, now: int)
    requires UniqueEmails(members) && i < |members|
    ensures Login(members, h, codec, members[i].body.email, password, now).Ok?
        <==> VerifyPassword(members[i].body, h, password)
    ensures VerifyPassword(members[i].body, h, password) ==>
      Login(members, h, codec, members[i].body.email, password, now) == Ok(TokenFor(codec, members[i].id, now))
  {
    FindByEmailUnique(members, i);
  }

  /** After a successful registration the new member can log in with the normalised
      address and the same password, and the token names the new id. */
  lemma RegisterThenLogin(members: seq<Doc<Member>>, h: Hasher, codec: JwtCodec, first: string, last: string,
                          email: string, phone: Option<string>, password: string, salt: nat,
                          newId: ObjectId, now: int, later: int)
    requires Sound(h) && NormalizeEmail(email).Some? && FindByEmail(members, NormalizeEmail(email).value).None?
    ensures var address := NormalizeEmail(email).value;
      Login(members + [Doc(newId, Registrant(h, first, last, address, phone, password, salt, now))],
            h, codec, address, password, later) == Ok(TokenFor(codec, newId, later))
  {
    var address := NormalizeEmail(email).value;
    var d := Doc(newId, Registrant(h, first, last, address, phone, password, salt, now));
    FindFirstAppend(members, d, (m: Member) => m.email == address);
    SetPasswordThenVerify(NewMember(first, last, address, phone, now), h, password, salt);
  }

  /** Login compares the form's username as typed, so a member whose address validation
      changed cannot log in with the address they registered with. */
  lemma RawAddressLoginFails(members: seq<Doc<Member>>, h: Hasher, codec: JwtCodec, first: string, last: string,
                             email: string, phone: Option<string>, password: string, salt: nat,
                             newId: ObjectId, now: int, later: int)
    requires NormalizeEmail(email).Some? && NormalizeEmail(email).value != email
    requires FindByEmail(members, email).None?
    ensures var address := NormalizeEmail(email).value;
      Login(members + [Doc(newId, Registrant(h, first, last, address, phone, password, salt, now))],
            h, codec, email, password, later) == Err(Unauthorized, InvalidCredentialsDetail)
  {
    var address := NormalizeEmail(email).value;
    var c := members + [Doc(newId, Registrant(h, first, last, address, phone, password, salt, now))];
    forall i | 0 <= i < |c| ensures c[i].body.email != email {
      if i < |members| {
        assert c[i] == members[i];
      }
    }
  }

  /** Registering "a@X.org" stores "a@x.org"; logging in with "a@X.org" is then refused. */
  lemma MixedCaseDomainCannotLogIn(members: seq<Doc<Member>>, h: Hasher, codec: JwtCodec, first: string,
                                   last: string, phone: Option<string>, password: string, salt: nat,
                                   newId: ObjectId, now: int, later: int)
    requires FindByEmail(members, "a@X.org").None?
    ensures NormalizeEmail("a@X.org") == Some("a@x.org")
    ensures Login(members + [Doc(newId, Registrant(h, first, last, "a@x.org", phone, password, salt, now))],
                  h, codec, "a@X.org", password, later) == Err(Unauthorized, InvalidCredentialsDetail)
  {
    MixedCaseDomainLowered();
    RawAddressLoginFails(members, h, codec, first, last, "a@X.org", phone, password, salt, newId, now, later);
  }

  /** A registered token resolves, within its lifetime, to the member just stored. */
  lemma RegisterTokenResolves(members: seq<Doc<Member>>, h: Hasher, codec: JwtCodec, first: string, last: string,
                              email: string, phone: Option<string>, password: string, salt: nat,
                              newId: ObjectId, now: int, later: int)
    requires Faithful(codec) && UniqueIds(members) && !HasId(members, newId) && WellFormed(newId)
    requires later <= now + AccessTokenLifetime
    ensures GetCurrentUser(codec, TokenFor(codec, newId, now), later,
                           members + [Doc(newId, Registrant(h, first, last, email, phone, password, salt, now))])
         == Ok(Doc(newId, Registrant(h, first, last, email, phone, password, salt, now)))
  {
    var c := members + [Doc(newId, Registrant(h, first, last, email, phone, password, salt, now))];
    assert UniqueIds(c) by {
      forall i, j | 0 <= i < j < |c| ensures c[i].id != c[j].id {
        if j == |members| {
          assert c[i] == members[i];
        }
      }
    }
    IssuedTokenResolves(codec, c, |members|, now, later);
  }

  /** `update_password` on the member the resolver loaded: a wrong current password gives
      400 and changes nothing; otherwise only that member's hash is replaced. */
  method UpdatePassword(db: MemberCollection, h: Hasher, current: Doc<Member>, currentPassword: string,
                        newPassword: string, salt: nat)
    returns (r: Outcome<string>)
    requires db.Valid() && Lookup(db.docs, current.id) == Some(current.body)
    modifies db
    ensures db.Valid()
    ensures !VerifyPassword(current.body, h, currentPassword) ==>
      r == Err(BadRequest, WrongPasswordDetail) && db.docs == old(db.docs)
    ensures VerifyPassword(current.body, h, currentPassword) ==>
      r == Ok(PasswordUpdatedMessage) &&
      db.docs == Replace(old(db.docs), current.id, SetPassword(current.body, h, newPassword, salt))
  {
    if !VerifyPassword(current.body, h, currentPassword) {
      return Err(BadRequest, WrongPasswordDetail);
    }
    var updated := SetPassword(current.body, h, newPassword, salt);
    ReplaceKeepsEmails(db.docs, current.id, updated);
    db.docs := Replace(db.docs, current.id, updated);
    r := Ok(PasswordUpdatedMessage);
  }

  /** `logout`: the server keeps no session, so it answers with a message and changes no
      state; a token issued before stays valid until it expires (`IssuedTokenResolves`). */
  method Logout(db: MemberCollection) returns (r: string)
    ensures r == LogoutMessage
  {
    r := LogoutMessage;
  }

  /** After a password change the member logs in with the new password. */
  lemma UpdatePasswordThenLogin(members: seq<Doc<Member>>, h: Hasher, codec: JwtCodec, i: nat,
                                newPassword: string, salt: nat, now: int)
    requires Sound(h) && UniqueIds(members) && UniqueEmails(members) && i < |members|
    ensures Login(Replace(members, members[i].id, SetPassword(members[i].body, h, newPassword, salt)),
                  h, codec, members[i].body.email, newPassword, now) == Ok(TokenFor(codec, members[i].id, now))
  {
    var updated := SetPassword(members[i].body, h, newPassword, salt);
    var c := Replace(members, members[i].id, updated);
    LookupUnique(members, i);
    ReplaceKeepsEmails(members, members[i].id, updated);
    assert c[i] == Doc(members[i].id, updated);
    SetPasswordThenVerify(members[i].body, h, newPassword, salt);
    LoginSucceedsIff(c, h, codec, i, newPassword, now);
  }
}
