/** The route guard of frontend/src/routes/ProtectedRoute.jsx: which page a signed-in (or
    not signed-in) user is sent to. The user's `role` is compared in lower case. */
module RouteGuard {
  import opened Outcomes
  import opened MemberModel

  datatype Decision = Render | Redirect(to: string)

  const LoginPath := "/login"
  const DashboardPath := "/dashboard"
  const AdminDashboardPath := "/admin/dashboard"

  /** `pathname.startsWith('/admin')`: also true for "/administration". */
  predicate IsAdminPath(path: string) {
    |path| >= 6 && path[..6] == "/admin"
  }

  /** `ProtectedRoute`; `user` is the signed-in user's role, if any. */
  function Guard(user: Option<string>, path: string): (d: Decision)
    ensures user.None? ==> d == Redirect(LoginPath)
    ensures d == Render <==> user.Some? && ((IsAdminPath(path) && user.value == "admin") || (!IsAdminPath(path) && user.value == "member"))
    ensures user.Some? && IsAdminPath(path) && user.value != "admin" ==> d == Redirect(DashboardPath)
    ensures user.Some? && !IsAdminPath(path) && user.value != "member" ==> d == Redirect(AdminDashboardPath)
  {
    match user
    case None => Redirect(LoginPath)
    case Some(role) =>
      if IsAdminPath(path) && role != "admin" then Redirect(DashboardPath)
      else if !IsAdminPath(path) && role != "member" then Redirect(AdminDashboardPath)
      else Render
  }

  /** A role that is neither "admin" nor "member" is never shown a page: the two dashboards
      redirect to each other. */
  lemma OtherRolesBounce(role: string, path: string)
    requires role != "admin" && role != "member"
    ensures Guard(Some(role), path) != Render
    ensures Guard(Some(role), DashboardPath) == Redirect(AdminDashboardPath)
    ensures Guard(Some(role), AdminDashboardPath) == Redirect(DashboardPath)
  {
    assert IsAdminPath(AdminDashboardPath);
    assert DashboardPath[..6][1] != "/admin"[1];
  }

  /** The backend's role names are capitalised, so a role passed through unchanged from
      `VALID_ROLES` is never shown a page. */
  lemma BackendRolesNeverRender(i: nat, path: string)
    requires i < |ValidRoles|
    ensures Guard(Some(ValidRoles[i]), path) != Render
  {
    assert 'A' <= ValidRoles[i][0] <= 'Z';
    OtherRolesBounce(ValidRoles[i], path);
  }
}

/** How a value the events page writes into a request URL reaches the server. The page
    builds `?role=` followed by the role without encoding it. The browser cuts the URL at
    the first '#': the fragment is never sent. Starlette reads the query with
    `parse_qsl(query, keep_blank_values=True)`: pieces are separated by '&', each is split
    at its first '=', '+' reads as a space and '%XY' escapes are decoded. The last value
    given for a name wins. Characters the browser itself percent-encodes, such as spaces
    and non-ASCII letters, decode back to themselves and need no escape here. */
module QueryString {
  import opened Outcomes
  import opened ObjectIds
  import DatabaseConnection

  /** The text before the first `c`, or all of it. */
  function Before(s: string, c: char): (r: string)
    ensures c !in r && r <= s
    ensures c !in s ==> r == s
  {
    if s == [] || s[0] == c then [] else [s[0]] + Before(s[1..], c)
  }

  /** The text after the first `c`; empty when there is none. */
  function After(s: string, c: char): (r: string)
    ensures |r| <= |s|
  {
    if s == [] then [] else if s[0] == c then s[1..] else After(s[1..], c)
  }

  lemma {:induction false} BeforeAfterSeparator(p: string, c: char, rest: string)
    requires c !in p
    ensures Before(p + [c] + rest, c) == p
    ensures After(p + [c] + rest, c) == rest
  {
    if p == [] {
      assert p + [c] + rest == [c] + rest;
    } else {
      assert (p + [c] + rest)[1..] == p[1..] + [c] + rest;
      BeforeAfterSeparator(p[1..], c, rest);
    }
  }

  function HexValue(c: char): (v: nat)
    requires IsHexDigit(c)
    ensures v < 16
  {
    if '0' <= c <= '9' then c as int - '0' as int
    else if 'a' <= c <= 'f' then c as int - 'a' as int + 10
    else c as int - 'A' as int + 10
  }

  /** `unquote`: '%' and two hexadecimal digits stand for that byte; any other '%' stays.
      A byte of 0x80 or more is read as U+FFFD. */
  function Unquote(s: string): (r: string)
    ensures '%' !in s ==> r == s
    decreases |s|
  {
    if s == [] then []
    else if |s| >= 3 && s[0] == '%' && IsHexDigit(s[1]) && IsHexDigit(s[2]) then
      var v := 16 * HexValue(s[1]) + HexValue(s[2]);
      [if v < 128 then v as char else '\U{FFFD}'] + Unquote(s[3..])
    else [s[0]] + Unquote(s[1..])
  }

  /** `replace('+', ' ')`. */
  function PlusToSpace(s: string): (r: string)
    ensures |r| == |s|
    ensures forall i :: 0 <= i < |s| ==> r[i] == (if s[i] == '+' then ' ' else s[i])
  {
    seq(|s|, i requires 0 <= i < |s| => if s[i] == '+' then ' ' else s[i])
  }

  /** How `parse_qsl` reads a name or a value. */
  function Decode(s: string): (r: string)
    ensures '+' !in s && '%' !in s ==> r == s
  {
    var t := PlusToSpace(s);
    assert '+' !in s ==> t == s;
    Unquote(t)
  }

  /** One piece between '&'s: name and value, split at the first '='; a piece without '='
      is a name with an empty value. */
  function Pair(piece: string): (string, string) {
    if '=' in piece then (Decode(Before(piece, '=')), Decode(After(piece, '='))) else (Decode(piece), "")
  }

  lemma PairAtFirstEquals(name: string, v: string)
    requires '=' !in name
    ensures Pair(name + "=" + v) == (Decode(name), Decode(v))
  {
    var piece := name + "=" + v;
    assert piece == name + ['='] + v;
    assert piece[|name|] == '=';
    BeforeAfterSeparator(name, '=', v);
  }

  /** `parse_qsl(query, keep_blank_values=True)`: empty pieces are skipped. */
  function Pairs(pieces: seq<string>): (r: seq<(string, string)>)
    ensures |r| <= |pieces|
    ensures |pieces| > 0 && pieces[0] != "" ==> |r| > 0 && r[0] == Pair(pieces[0])
  {
    if pieces == [] then []
    else (if pieces[0] == "" then [] else [Pair(pieces[0])]) + Pairs(pieces[1..])
  }

  /** `request.query_params[name]`: the value of the last pair with that name. */
  function LastValue(pairs: seq<(string, string)>, name: string): (r: Option<string>)
    ensures r.None? <==> forall i :: 0 <= i < |pairs| ==> pairs[i].0 != name
    ensures r.Some? ==> (name, r.value) in pairs
  {
    if pairs == [] then None
    else if pairs[|pairs| - 1].0 == name then Some(pairs[|pairs| - 1].1)
    else
      var r := LastValue(pairs[..|pairs| - 1], name);
      assert forall i :: 0 <= i < |pairs| - 1 ==> pairs[..|pairs| - 1][i] == pairs[i];
      r
  }

  /** Later pairs with other names do not hide an earlier value. */
  lemma {:induction false} LastValueSkipsOthers(pairs: seq<(string, string)>, others: seq<(string, string)>, name: string)
    requires forall i :: 0 <= i < |others| ==> others[i].0 != name
    ensures LastValue(pairs + others, name) == LastValue(pairs, name)
  {
    if others != [] {
      var all := pairs + others;
      assert all[..|all| - 1] == pairs + others[..|others| - 1];
      LastValueSkipsOthers(pairs, others[..|others| - 1], name);
    } else {
      assert pairs + others == pairs;
    }
  }

  /** A C0 control character or a space, U+0000 to U+0020. */
  predicate IsC0OrSpace(c: char) {
    c <= ' '
  }

  predicate IsTabOrNewline(c: char) {
    c == '\t' || c == '\n' || c == '\r'
  }

  /** The trailing C0 controls and spaces removed. */
  function TrimEnd(s: string): (r: string)
    ensures r <= s
    ensures r != [] ==> !IsC0OrSpace(r[|r| - 1])
    ensures s == [] || !IsC0OrSpace(s[|s| - 1]) ==> r == s
    decreases |s|
  {
    if s != [] && IsC0OrSpace(s[|s| - 1]) then TrimEnd(s[..|s| - 1]) else s
  }

  /** Every tab, line feed and carriage return removed. */
  function DropTabsAndNewlines(s: string): (r: string)
    ensures forall c :: c in r ==> c in s && !IsTabOrNewline(c)
    ensures (forall c :: c in s ==> !IsTabOrNewline(c)) ==> r == s
  {
    if s == [] then []
    else
      var rest := DropTabsAndNewlines(s[1..]);
      assert forall c :: c in s[1..] ==> c in s;
      assert s == [s[0]] + s[1..];
      (if IsTabOrNewline(s[0]) then [] else [s[0]]) + rest
  }

  /** What of the role survives the browser's URL parser, which `fetch` runs on the URL
      the page builds: the parser first trims trailing C0 controls and spaces from the whole
      URL, whose last part is the role, then deletes every tab and line break. The leading
      trim touches only the start of the URL, which is not the role. */
  function BrowserCleaned(role: string): string {
    DropTabsAndNewlines(TrimEnd(role))
  }

  /** The `role` the server reads when the page appends `role` to `?role=`: the browser
      cleans the URL and leaves out the fragment after '#', then `parse_qsl` reads the
      query. */
  function ReceivedRole(role: string): (r: Option<string>)
    ensures r.Some?
  {
    var x := Before(BrowserCleaned(role), '#');
    var pieces := DatabaseConnection.Split("role=" + x, '&');
    var head := DatabaseConnection.Split(x, '&')[0];
    assert "role=" + x == "role" + "=" + x;
    SplitKeepsPrefix("role=", x, '&');
    assert pieces[0] == "role" + "=" + head;
    PairAtFirstEquals("role", head);
    RoleDecodes();
    assert Pairs(pieces)[0].0 == "role";
    LastValue(Pairs(pieces), "role")
  }

  /** A separator-free prefix stays at the head of the first piece. */
  lemma {:induction false} SplitKeepsPrefix(p: string, x: string, c: char)
    requires c !in p
    ensures DatabaseConnection.Split(p + x, c)[0] == p + DatabaseConnection.Split(x, c)[0]
  {
    if p != [] {
      var t := p + x;
      assert t[0] == p[0] && t[1..] == p[1..] + x;
      assert p[0] in p;
      SplitKeepsPrefix(p[1..], x, c);
      var rest := DatabaseConnection.Split(t[1..], c);
      assert DatabaseConnection.Split(t, c)[0] == [p[0]] + rest[0];
      assert [p[0]] + (p[1..] + DatabaseConnection.Split(x, c)[0]) == p + DatabaseConnection.Split(x, c)[0];
    } else {
      assert p + x == x;
    }
  }

  /** A role without '&', '#', '+' or '%' reaches the server as the browser cleaned it:
      without trailing spaces or control characters, and without tabs or line breaks. */
  lemma PlainRoleArrives(role: string)
    requires '&' !in role && '#' !in role && '+' !in role && '%' !in role
    ensures ReceivedRole(role) == Some(BrowserCleaned(role))
  {
    var sent := BrowserCleaned(role);
    assert '&' !in sent && '#' !in sent && '+' !in sent && '%' !in sent;
    var q := "role=" + sent;
    assert Before(sent, '#') == sent;
    assert q == "role" + "=" + sent;
    assert '&' !in q;
    DatabaseConnection.SplitNoSeparator(q, '&');
    PairAtFirstEquals("role", sent);
    RoleDecodes();
    var pairs := Pairs([q]);
    assert pairs == [Pair(q)] + Pairs([]);
    assert pairs == [("role", sent)];
  }

  /** A role free of tabs and line breaks, not ending in a space or control character, is
      not changed by the browser. */
  lemma CleanRoleUnchanged(role: string)
    requires forall c :: c in role ==> !IsTabOrNewline(c)
    requires role == [] || !IsC0OrSpace(role[|role| - 1])
    ensures BrowserCleaned(role) == role
  {
  }

  /** A trailing space is trimmed from a role that is otherwise left as it is. */
  lemma TrailingSpaceDropped(role: string)
    requires forall c :: c in role ==> !IsTabOrNewline(c)
    requires role != [] && !IsC0OrSpace(role[|role| - 1])
    ensures BrowserCleaned(role + " ") == role
  {
    var t := role + " ";
    assert t[..|t| - 1] == role;
    assert TrimEnd(t) == TrimEnd(role);
    CleanRoleUnchanged(role);
  }

  /** A role followed by a space reaches the server without the space. */
  lemma TrailingSpaceArrivesTrimmed(role: string)
    requires '&' !in role && '#' !in role && '+' !in role && '%' !in role
    requires forall c :: c in role ==> !IsTabOrNewline(c)
    requires role != [] && !IsC0OrSpace(role[|role| - 1])
    ensures ReceivedRole(role + " ") == Some(role)
  {
    TrailingSpaceDropped(role);
    PlainRoleArrives(role + " ");
  }

  /** The role "Choir " reaches the server as "Choir". */
  lemma TrailingSpaceTrimmed()
    ensures BrowserCleaned("Choir ") == "Choir"
  {
    assert "Choir " == "Choir" + " ";
    assert forall c :: c in "Choir" ==> !IsTabOrNewline(c);
    TrailingSpaceDropped("Choir");
  }

  /** The role "A\tB" reaches the server as "AB". */
  lemma TabDropped()
    ensures ReceivedRole("A\tB") == Some("AB")
  {
    assert TrimEnd("A\tB") == "A\tB";
    assert "A\tB"[1..] == "\tB" && "\tB"[1..] == "B";
    assert DropTabsAndNewlines("B") == "B";
    assert DropTabsAndNewlines("\tB") == "B";
    assert DropTabsAndNewlines("A\tB") == "AB";
    PlainRoleArrives("A\tB");
  }

  lemma RoleDecodes()
    ensures Decode("role") == "role"
  {
    assert '+' !in "role" && '%' !in "role";
  }

  /** The query pieces when an '&' sits inside the role. */
  lemma AmpersandPieces(a: string, b: string)
    requires '&' !in a && '&' !in b && b != ""
    ensures DatabaseConnection.Split("role=" + a + "&" + b, '&') == ["role=" + a, b]
  {
    var q := "role=" + a;
    assert "role=" + a + "&" + b == q + ['&'] + b;
    DatabaseConnection.SplitJoin(q, b, '&');
    assert '&' !in q;
    DatabaseConnection.SplitNoSeparator(q, '&');
    DatabaseConnection.SplitNoSeparator(b, '&');
  }

  lemma AmpersandRoleUnchanged(a: string, b: string)
    requires b != [] && !IsC0OrSpace(b[|b| - 1])
    requires forall c :: c in a + b ==> !IsTabOrNewline(c)
    ensures BrowserCleaned(a + "&" + b) == a + "&" + b
  {
    var role := a + "&" + b;
    assert role[|role| - 1] == b[|b| - 1];
    assert forall c :: c in role ==> c in a + b || c == '&';
    CleanRoleUnchanged(role);
  }

  /** An '&' ends the value: what follows becomes a parameter of its own, and the server
      reads only the text before it. */
  lemma AmpersandCutsRole(a: string, b: string)
    requires '&' !in a && '#' !in a && '+' !in a && '%' !in a
    requires '&' !in b && '#' !in b && '+' !in b && '%' !in b && '=' !in b
    requires b != "" && b != "role"
    requires forall c :: c in a + b ==> !IsTabOrNewline(c)
    requires !IsC0OrSpace(b[|b| - 1])
    ensures ReceivedRole(a + "&" + b) == Some(a)
  {
    var role := a + "&" + b;
    AmpersandRoleUnchanged(a, b);
    assert '#' !in role;
    ReceivedFromSent(role);
    AmpersandQueryValue(a, b);
  }

  /** Once the browser leaves the role as it is and it has no '#', the server parses the
      query `role=` followed by the role. */
  lemma ReceivedFromSent(role: string)
    requires BrowserCleaned(role) == role && '#' !in role
    ensures ReceivedRole(role) == LastValue(Pairs(DatabaseConnection.Split("role=" + role, '&')), "role")
  {
    assert Before(BrowserCleaned(role), '#') == role;
  }

  lemma AmpersandQueryValue(a: string, b: string)
    requires '&' !in a && '+' !in a && '%' !in a
    requires '&' !in b && '+' !in b && '%' !in b && '=' !in b
    requires b != "" && b != "role"
    ensures LastValue(Pairs(DatabaseConnection.Split("role=" + (a + "&" + b), '&')), "role") == Some(a)
  {
    assert "role=" + (a + "&" + b) == "role=" + a + "&" + b;
    AmpersandPieces(a, b);
    var q := "role=" + a;
    assert q == "role" + "=" + a;
    PairAtFirstEquals("role", a);
    RoleDecodes();
    assert Pair(b) == (b, "");
    assert Pairs([q, b]) == [("role", a)] + [(b, "")];
    LastValueSkipsOthers([("role", a)], [(b, "")], "role");
  }

  /** The role "Sound & Media" reaches the server as "Sound ". */
  lemma SoundAndMediaArrivesCut()
    ensures ReceivedRole("Sound & Media") == Some("Sound ")
  {
    assert "Sound & Media" == "Sound " + "&" + " Media";
    assert forall c :: c in "Sound " + " Media" ==> !IsTabOrNewline(c);
    AmpersandCutsRole("Sound ", " Media");
  }
}

/** The events page, frontend/src/pages/user/events.jsx: the tab filter and the guard in
    front of the volunteer request. */
module EventsPage {
  import opened Outcomes
  import opened ObjectIds
  import opened Collections
  import opened MemberModel
  import opened EventModel
  import opened EventRoutes
  import opened QueryString

  /** `filteredEvents`: "services" keeps the events of type "service", "special" the others,
      and "all" or any other tab keeps everything. */
  function TabKeeps(filter: string): Doc<Event> -> bool {
    (e: Doc<Event>) =>
      if filter == "all" then true
      else if filter == "services" then e.body.event_type == "service"
      else if filter == "special" then e.body.event_type != "service"
      else true
  }

  function FilteredEvents(events: seq<Doc<Event>>, filter: string): (r: seq<Doc<Event>>)
    ensures Subsequence(r, events)
    ensures filter == "services" ==> forall i :: 0 <= i < |r| ==> r[i].body.event_type == "service"
    ensures filter == "special" ==> forall i :: 0 <= i < |r| ==> r[i].body.event_type != "service"
  {
    FilterIsSubsequence(events, TabKeeps(filter));
    Filter(events, TabKeeps(filter))
  }

  /** "all" and an unknown tab show every event; "services" and "special" split the list
      between them, so each event shows on exactly one of the two. */
  lemma TabsPartition(events: seq<Doc<Event>>, other: string)
    requires other !in {"services", "special"}
    ensures FilteredEvents(events, other) == events
    ensures |FilteredEvents(events, "services")| + |FilteredEvents(events, "special")| == |events|
    ensures forall i :: 0 <= i < |FilteredEvents(events, "services")| ==> FilteredEvents(events, "services")[i].body.event_type == "service"
    ensures forall i :: 0 <= i < |FilteredEvents(events, "special")| ==> FilteredEvents(events, "special")[i].body.event_type != "service"
  {
    FilterAll(events, TabKeeps(other));
    FilterPartition(events, TabKeeps("services"), TabKeeps("special"));
  }

  /** `volunteerForEvent`: no request without a selected event and a chosen role;
      otherwise a request for that event's id and the role. */
  function VolunteerRequest(selected: Option<Doc<Event>>, role: string): (r: Option<(string, string)>)
    ensures r.None? <==> selected.None? || role == ""
    ensures r.Some? ==> r.value == (ToStr(selected.value.id), role)
  {
    if selected.None? || role == "" then None else Some((ToStr(selected.value.id), role))
  }

  /** A request the page sends from the card of a listed event that offers volunteer
      roles: the server reads the role as `ReceivedRole`. When that is one of the card's
      roles, the request is accepted or refused only as an existing sign-up; otherwise it
      is refused as an invalid role. */
  lemma PageRequestsValidRoles(events: seq<Doc<Event>>, signups: seq<Doc<VolunteerSignup>>, card: Doc<Event>,
                               role: string, user: Doc<Member>, newId: ObjectId, now: int)
    requires UniqueIds(events) && card in events && card.body.is_published && WellFormed(card.id)
    requires card.body.volunteers_needed && role in card.body.volunteer_roles
    requires VolunteerRequest(Some(card), role).Some?
    ensures ReceivedRole(role).Some?
    ensures var req := VolunteerRequest(Some(card), role).value;
      var answer := Volunteer(events, signups, req.0, ReceivedRole(req.1).value, user, newId, now).0;
      (ReceivedRole(role).value in card.body.volunteer_roles ==> answer.Ok? || answer == Err(BadRequest, AlreadySignedUp)) &&
      (ReceivedRole(role).value !in card.body.volunteer_roles ==> answer == Err(BadRequest, InvalidVolunteerRole))
  {
    ParseToStr(card.id);
    var k :| 0 <= k < |events| && events[k] == card;
    LookupUnique(events, k);
  }

  /** A role offered on the card that the browser leaves as it is (no '&', '#', '+', '%',
      tab or line break, and no trailing space or control character) is never refused as
      invalid. */
  lemma PlainRolesAccepted(events: seq<Doc<Event>>, signups: seq<Doc<VolunteerSignup>>, card: Doc<Event>,
                           role: string, user: Doc<Member>, newId: ObjectId, now: int)
    requires UniqueIds(events) && card in events && card.body.is_published && WellFormed(card.id)
    requires card.body.volunteers_needed && role in card.body.volunteer_roles && role != ""
    requires '&' !in role && '#' !in role && '+' !in role && '%' !in role
    requires forall c :: c in role ==> !IsTabOrNewline(c)
    requires !IsC0OrSpace(role[|role| - 1])
    ensures ReceivedRole(role) == Some(role)
    ensures var answer := Volunteer(events, signups, ToStr(card.id), role, user, newId, now).0;
      answer.Ok? || answer == Err(BadRequest, AlreadySignedUp)
  {
    PlainRoleArrives(role);
    CleanRoleUnchanged(role);
    PageRequestsValidRoles(events, signups, card, role, user, newId, now);
  }

  /** A role the browser alters (a trailing space, a tab inside) reaches the server in its
      cleaned form, which a card offering only that role does not list, so the page's
      request is refused as an invalid role ("Choir " is one: `TrailingSpaceTrimmed`). */
  lemma AlteredRoleRefused(events: seq<Doc<Event>>, signups: seq<Doc<VolunteerSignup>>, card: Doc<Event>,
                           role: string, user: Doc<Member>, newId: ObjectId, now: int)
    requires UniqueIds(events) && card in events && card.body.is_published && WellFormed(card.id)
    requires card.body.volunteers_needed && card.body.volunteer_roles == [role] && role != ""
    requires '&' !in role && '#' !in role && '+' !in role && '%' !in role
    requires BrowserCleaned(role) != role
    ensures ReceivedRole(role) == Some(BrowserCleaned(role))
    ensures Volunteer(events, signups, ToStr(card.id), BrowserCleaned(role), user, newId, now).0 ==
      Err(BadRequest, InvalidVolunteerRole)
  {
    PlainRoleArrives(role);
    PageRequestsValidRoles(events, signups, card, role, user, newId, now);
  }

  /** A role offered on the card as `a&b` reaches the server as `a`, which the card does
      not offer, so the page's request is refused as an invalid role ("Sound & Media" is
      one such role: `SoundAndMediaArrivesCut`). */
  lemma AmpersandRoleRefused(events: seq<Doc<Event>>, signups: seq<Doc<VolunteerSignup>>, card: Doc<Event>,
                             a: string, b: string, user: Doc<Member>, newId: ObjectId, now: int)
    requires UniqueIds(events) && card in events && card.body.is_published && WellFormed(card.id)
    requires card.body.volunteers_needed && card.body.volunteer_roles == [a + "&" + b]
    requires '&' !in a && '#' !in a && '+' !in a && '%' !in a
    requires '&' !in b && '#' !in b && '+' !in b && '%' !in b && '=' !in b
    requires b != "" && b != "role"
    requires forall c :: c in a + b ==> !IsTabOrNewline(c)
    requires !IsC0OrSpace(b[|b| - 1])
    ensures ReceivedRole(a + "&" + b) == Some(a)
    ensures Volunteer(events, signups, ToStr(card.id), a, user, newId, now).0 == Err(BadRequest, InvalidVolunteerRole)
  {
    var role := a + "&" + b;
    AmpersandCutsRole(a, b);
    assert a !in card.body.volunteer_roles by {
      assert |a| != |role|;
    }
    PageRequestsValidRoles(events, signups, card, role, user, newId, now);
  }
}

/** The profile page, frontend/src/pages/user/Profile.jsx. The page's state objects are
    JavaScript objects, modelled as maps from field names to values. */
module ProfilePage {
  import opened Outcomes

  datatype JsValue = JStr(s: string) | JBool(b: bool) | JList(items: seq<string>)

  type ProfileState = map<string, JsValue>

  /** The state before the profile is fetched. */
  function InitialProfile(): (p: ProfileState)
    ensures p.Keys == {"first_name", "last_name", "email", "phone", "role", "departments", "notification_preference", "sms_opt_in"}
    ensures p["departments"] == JList([]) && p["notification_preference"] == JStr("both") && p["sms_opt_in"] == JBool(false)
  {
    map["first_name" := JStr(""), "last_name" := JStr(""), "email" := JStr(""), "phone" := JStr(""),
        "role" := JStr(""), "departments" := JList([]), "notification_preference" := JStr("both"),
        "sms_opt_in" := JBool(false)]
  }

  /** The fields of `/auth/me`'s answer the page reads; a missing or `null` field is `None`. */
  datatype ProfileData = ProfileData(
    first_name: Option<string>,
    last_name: Option<string>,
    email: Option<string>,
    phone: Option<string>,
    role: Option<string>,
    departments: Option<seq<string>>,
    notification_preference: Option<string>,
    sms_opt_in: Option<bool>)

  /** `value || ''`: a missing or empty text becomes "". */
  function TextOr(v: Option<string>, fallback: string): (r: string)
    ensures v.Some? && v.value != "" ==> r == v.value
    ensures v.None? || v.value == "" ==> r == fallback
  {
    if v.Some? && v.value != "" then v.value else fallback
  }

  /** `fetchProfile`'s `setProfile`: every field falls back when the answer's value is
      falsy. An empty list is truthy in JavaScript and is kept. */
  function FetchedProfile(d: ProfileData): (p: ProfileState)
    ensures p.Keys == InitialProfile().Keys
    ensures p["first_name"] == JStr(TextOr(d.first_name, "")) && p["last_name"] == JStr(TextOr(d.last_name, ""))
    ensures p["email"] == JStr(TextOr(d.email, "")) && p["phone"] == JStr(TextOr(d.phone, ""))
    ensures p["role"] == JStr(TextOr(d.role, ""))
    ensures p["departments"] == JList(if d.departments.Some? then d.departments.value else [])
    ensures p["notification_preference"] == JStr(TextOr(d.notification_preference, "both"))
    ensures p["sms_opt_in"] == JBool(d.sms_opt_in.Some? && d.sms_opt_in.value)
  {
    map["first_name" := JStr(TextOr(d.first_name, "")), "last_name" := JStr(TextOr(d.last_name, "")),
        "email" := JStr(TextOr(d.email, "")), "phone" := JStr(TextOr(d.phone, "")),
        "role" := JStr(TextOr(d.role, "")),
        "departments" := JList(if d.departments.Some? then d.departments.value else []),
        "notification_preference" := JStr(TextOr(d.notification_preference, "both")),
        "sms_opt_in" := JBool(d.sms_opt_in.Some? && d.sms_opt_in.value)]
  }

  /** An answer with nothing in it gives the initial state back. */
  lemma EmptyAnswerIsInitial()
    ensures FetchedProfile(ProfileData(None, None, None, None, None, None, None, None)) == InitialProfile()
  {
  }

  /** `handleInputChange`: the named field gets the box's `checked` for a checkbox and the
      input's text otherwise; every other field is kept. */
  function InputChange(p: ProfileState, name: string, value: string, inputType: string, checked: bool): (q: ProfileState)
    ensures q.Keys == p.Keys + {name}
    ensures q[name] == (if inputType == "checkbox" then JBool(checked) else JStr(value))
    ensures forall k :: k in p && k != name ==> q[k] == p[k]
  {
    p[name := if inputType == "checkbox" then JBool(checked) else JStr(value)]
  }

  /** Retyping the same value leaves the state as typing it once. */
  lemma InputChangeIdempotent(p: ProfileState, name: string, value: string, inputType: string, checked: bool)
    ensures InputChange(InputChange(p, name, value, inputType, checked), name, value, inputType, checked)
         == InputChange(p, name, value, inputType, checked)
  {
  }

  /** `prev.departments.filter(d => d !== department)`. */
  function Without(ds: seq<string>, department: string): (r: seq<string>)
    ensures department !in r
    ensures forall i :: 0 <= i < |r| ==> r[i] in ds
    ensures forall i :: 0 <= i < |ds| && ds[i] != department ==> ds[i] in r
    ensures department !in ds ==> r == ds
  {
    if ds == [] then []
    else (if ds[0] == department then [] else [ds[0]]) + Without(ds[1..], department)
  }

  /** The list `handleDepartmentChange` stores: a present department is removed (every
      occurrence), an absent one is appended. */
  function ToggledDepartments(ds: seq<string>, department: string): (r: seq<string>)
    ensures department in r <==> department !in ds
    ensures forall x :: x != department ==> (x in r <==> x in ds)
  {
    if department in ds then Without(ds, department) else ds + [department]
  }

  /** Ticking an unticked department and unticking it again restores the list exactly. */
  lemma {:induction false} ToggleTwiceRestores(ds: seq<string>, department: string)
    requires department !in ds
    ensures ToggledDepartments(ToggledDepartments(ds, department), department) == ds
  {
    WithoutAppended(ds, department);
  }

  lemma {:induction false} WithoutAppended(ds: seq<string>, department: string)
    requires department !in ds
    ensures Without(ds + [department], department) == ds
  {
    if ds == [] {
      assert Without([department], department) == [] + Without([], department);
    } else {
      assert (ds + [department])[1..] == ds[1..] + [department];
      WithoutAppended(ds[1..], department);
      assert [ds[0]] + ds[1..] == ds;
    }
  }

  /** `handleDepartmentChange` on the page state. */
  function DepartmentChange(p: ProfileState, department: string): (q: ProfileState)
    requires "departments" in p && p["departments"].JList?
    ensures q.Keys == p.Keys
    ensures q["departments"] == JList(ToggledDepartments(p["departments"].items, department))
    ensures forall k :: k in p && k != "departments" ==> q[k] == p[k]
  {
    p["departments" := JList(ToggledDepartments(p["departments"].items, department))]
  }

  /** The password form's check before any request: the two new passwords must match, then
      be at least 6 characters; only then is a request with the current and new password
      sent. */
  datatype PasswordForm = PasswordForm(current_password: string, new_password: string, confirm_password: string)

  const PasswordsDiffer := "New passwords do not match"
  const PasswordTooShort := "New password must be at least 6 characters long"

  /** What `updatePassword` does before the network: send, or show a message. */
  datatype PasswordCheck = Send(current_password: string, new_password: string) | Refuse(message: string)

  /** JavaScript's `.length`: UTF-16 code units, two for a character beyond U+FFFF. */
  function Utf16Length(s: string): (n: nat)
    ensures |s| <= n <= 2 * |s|
    ensures (forall i :: 0 <= i < |s| ==> s[i] as int <= 0xFFFF) ==> n == |s|
  {
    if s == [] then 0 else (if s[0] as int > 0xFFFF then 2 else 1) + Utf16Length(s[1..])
  }

  function PasswordRequest(f: PasswordForm): (r: PasswordCheck)
    ensures r.Send? <==> f.new_password == f.confirm_password && Utf16Length(f.new_password) >= 6
    ensures f.new_password != f.confirm_password ==> r == Refuse(PasswordsDiffer)
    ensures f.new_password == f.confirm_password && Utf16Length(f.new_password) < 6 ==> r == Refuse(PasswordTooShort)
    ensures r.Send? ==> r == Send(f.current_password, f.new_password)
  {
    if f.new_password != f.confirm_password then Refuse(PasswordsDiffer)
    else if Utf16Length(f.new_password) < 6 then Refuse(PasswordTooShort)
    else Send(f.current_password, f.new_password)
  }

  /** Three characters beyond U+FFFF (three emoji, say) make a password of length 6 and
      are sent; five characters of the Basic Multilingual Plane are refused. */
  lemma PasswordLengthInCodeUnits(c: char, current: string, short: string)
    requires c as int > 0xFFFF
    requires |short| == 5 && forall i :: 0 <= i < |short| ==> short[i] as int <= 0xFFFF
    ensures PasswordRequest(PasswordForm(current, [c, c, c], [c, c, c])) == Send(current, [c, c, c])
    ensures PasswordRequest(PasswordForm(current, short, short)) == Refuse(PasswordTooShort)
  {
    assert [c, c, c][1..] == [c, c] && [c, c][1..] == [c] && [c][1..] == [];
    assert Utf16Length([c]) == 2;
    assert Utf16Length([c, c]) == 4;
    assert Utf16Length([c, c, c]) == 6;
  }

  /** `togglePasswordVisibility`: the field's flag flips; a field not yet present reads as
      unset and becomes shown. */
  function ToggleVisibility(shown: map<string, bool>, field: string): (r: map<string, bool>)
    ensures r.Keys == shown.Keys + {field}
    ensures r[field] == !(field in shown && shown[field])
    ensures forall k :: k in shown && k != field ==> r[k] == shown[k]
  {
    shown[field := !(field in shown && shown[field])]
  }

  /** Toggling a field twice restores it. */
  lemma ToggleVisibilityTwice(shown: map<string, bool>, field: string)
    requires field in shown
    ensures ToggleVisibility(ToggleVisibility(shown, field), field) == shown
  {
  }
}
