# Church website backend — a verified model

This project models the server core of the GPCC church website: a FastAPI service over MongoDB (through Beanie and Motor), plus the handful of pure helpers in its React front end that decide what a user may see or send. It covers:

- members, roles and the admin gate;
- registration, login and JWT-based identification;
- announcements, with their audience rules;
- events, with RSVP and volunteer sign-up;
- prayer requests and testimonies, with their moderation;
- the attendance-form setting and system-role seeding;
- the bounded in-memory TTL cache;
- choosing a database name from the connection string.

How the model is built:

- **Collections.** Each MongoDB collection is a sequence of `Doc(id, body)` values in natural (insertion) order. `find_one` takes the first match and `sort` is a stable sort on an integer key.
- **Time.** Time is an integer clock passed in as `now`.
- **Fresh ids.** A fresh document id is a parameter. The store guarantees it is unused.
- **Outcomes.** Every handler yields an `Outcome`: `Ok(value)`, or `Err(status, detail)` for an `HTTPException`. FastAPI's own validation failure (422) and server error (500) are outcomes too.
- **Store-changing handlers.** A handler that changes the store is a method with `modifies` on a class holding the collections. Its `ensures` ties the answer and the new collections to a pure function of the old ones. The promised properties are proved as lemmas about that function.
- **Cache.** The cache is a class over an ordered sequence of entries, and its methods update it in place.
- **External libraries.** bcrypt and JWT are values holding functions (`Hasher`, `JwtCodec`). The one law each must satisfy is a predicate (`Sound`, `Faithful`) that the lemmas needing it require.

Where the behaviour described for the project differs from the code, the model follows the code:

- **Resolver failures.** The current-user resolver answers 401 only when the token fails to decode. A token without a subject, a subject that is not an id, and a member that no longer exists all end as 500 "Internal authentication error". The 401 raised inside the `try` is caught by the generic `except` (backend/app/utils/auth.py:40-69).
- **Inactive members.** Login does not look at `is_active` (backend/app/routes/auth.py:37-45).
- **Malformed announcement ids.** The member-facing single announcement fetch answers 404 for a malformed id, because it wraps `Announcement.get` in a `try`. The admin handlers do not wrap it, so a malformed id there ends as 500.
- **Path parameters.** A malformed `PydanticObjectId` path parameter is refused with 422 before the handler runs.
- **Controller update.** The raw controller's update with no fields raises `HTTPException(..., details=...)`. `details` is an unknown keyword, so the result is a 500, not the 400 the code spells out.
- **Admin create member.** `MemberCreate` declares only `password`, so `create_member` fails with 500 on every input.
- **Admin update member.** `MemberUpdate` misspells three of its fields, so those fields never reach the stored member.
- **Public event listing.** `list_upcoming_events` builds each `EventOut` without the required `created_at` and `updated_at`, so it answers 500 whenever any event is published (see "## Findings").
- **Registration address.** `register` checks and stores the address as `EmailStr` normalises it, with its domain lowercased. `login` compares the username as typed, so a member who registered with a mixed-case domain must log in with the lowercased one.

## Model

| member | source | states |
|---|---|---|
| Outcomes.Apply | backend/app/routes/admin/members.py:30-31 | a partial update keeps a field the request leaves out and writes a field it carries |
| ObjectIds.Parse | backend/app/routes/admin/members.py:25-26 | `ObjectId(s)` succeeds exactly on 24 hexadecimal digits and yields a well-formed id |
| ObjectIds.ParseToStr | backend/app/routes/announcements.py:95-98 | the string form of a stored id parses back to the same id |
| MemoryCache.SetKeepsBound | app/utils/cache.py:26-34 | with `max_size >= 1` a set never fails, keeps keys distinct, never exceeds `max_size` and leaves an entry with the key, the new value and the given expiry, eviction or not; with `max_size < 1` it fails (`popitem` on an empty dict) |
| MemoryCache.SetThenGet | app/utils/cache.py:26-52 | a `get` no later than the new expiry returns the value just set, also when the `set` evicted the oldest entry |
| MemoryCache.SetOnFullCacheEvictsOldest | app/utils/cache.py:29-33 | on a full cache the oldest entry is dropped even when the key being set is already present, so overwriting can shrink the cache |
| MemoryCache.SetPlacement | app/utils/cache.py:33 | without eviction an existing key is overwritten in place and a fresh key goes to the end |
| MemoryCache.GetHitIff | app/utils/cache.py:36-52 | `get` returns the stored value iff the key is present and `now <= expire_at`, and the default otherwise |
| MemoryCache.GetHitMovesToEnd | app/utils/cache.py:49-52 | a hit moves the key to the end and keeps the relative order of every other entry |
| MemoryCache.GetKeepsInvariant | app/utils/cache.py:36-52 | `get` keeps keys distinct and never grows the cache |
| MemoryCache.DeleteSpec | app/utils/cache.py:54-61 | after `delete` the key is absent, keys stay distinct, and exactly that entry is removed |
| MemoryCache.SimpleMemoryCache.constructor | app/utils/cache.py:10-14 | a new cache is empty with the given size cap and default ttl |
| MemoryCache.SimpleMemoryCache.Set | app/utils/cache.py:26-34 | the entries become the set transition of the old entries, with expiry `now + (ttl or default_ttl)`; answers false exactly where the source raises |
| MemoryCache.SimpleMemoryCache.Get | app/utils/cache.py:36-52 | returns the hit-or-default value and leaves the entries with an expired key deleted and a hit moved to the end |
| MemoryCache.SimpleMemoryCache.Delete | app/utils/cache.py:54-61 | answers true iff the key was present, and removes it |
| MemoryCache.SimpleMemoryCache.Clear | app/utils/cache.py:63-67 | the cache is empty afterwards |
| MemoryCache.SimpleMemoryCache.Close | app/utils/cache.py:21-24 | the cache is empty afterwards |
| MemoryCache.Cached | app/utils/cache.py:74-92 | a non-`None` cached value is returned without calling the function; otherwise the computed result is returned and stored with the decorator's ttl, its expiry counted from the clock reading taken after the call |
| MemoryCache.CachedNoneIsMiss | app/utils/cache.py:82-84 | a stored `None` reads back as a miss, so a function returning `None` is called every time |
| AnnouncementModel.ParsePriority | app/models/announcement_model.py:7-11 | only the four priority strings parse, each to the member it names |
| AnnouncementModel.PriorityRoundTrip | app/models/announcement_model.py:7-11 | parsing a priority's string value gives the priority back |
| AnnouncementModel.ParseTarget | app/models/announcement_model.py:13-17 | only the four target strings parse, each to the member it names |
| AnnouncementModel.TargetRoundTrip | app/models/announcement_model.py:13-17 | parsing a target's string value gives the target back |
| AnnouncementModel.DefaultCreate | app/models/announcement_model.py:23-29 | priority defaults to normal, target to all, no departments, no expiry |
| AnnouncementModel.NewAnnouncement | app/models/announcement_model.py:19-29 | a new announcement is published, created and updated now, and carries the submitted fields and the given author |
| AnnouncementModel.Listing | backend/app/routes/announcements.py:50-52 | a page of `find(...).sort("-created_at").skip(...).limit(...)` holds at most `limit` documents, each stored and matching the filter |
| AnnouncementModel.ListingProperties | backend/app/routes/announcements.py:50-52 | a listing page has at most `limit` stored documents, all matching the filter, newest first |
| AnnouncementModel.ListingComplete | backend/app/routes/announcements.py:50-52 | every matching document appears on the page that starts at 0 and is as long as the store |
| AnnouncementRoutes.TargetClauseIsAccess | backend/app/routes/announcements.py:38-45 | the listing's target branch admits exactly what the single fetch's `has_access` admits |
| AnnouncementRoutes.TargetCases | backend/app/routes/announcements.py:82-89 | "all" and "members" admit everyone, "staff" exactly the roles "Admin" and "Staff", "departments" nobody without a shared department |
| AnnouncementRoutes.GetAnnouncements | backend/app/routes/announcements.py:13-61 | 422 exactly outside `skip >= 0`, `1 <= limit <= 100`; otherwise the page of live, matching, visible announcements |
| AnnouncementRoutes.GetAnnouncementsListed | backend/app/routes/announcements.py:22-52 | every listed announcement is published, unexpired (`expires_at` null or after now), of the requested priority and visible to the member; at most `limit`, newest first |
| AnnouncementRoutes.GetAnnouncement | backend/app/routes/announcements.py:63-99 | success iff the id parses, the document exists, is published, is not expired (`expires_at < now`) and the member has access; 404 for the first three failures and for expiry, 403 exactly when only access fails |
| AnnouncementRoutes.ListedCanBeFetched | backend/app/routes/announcements.py:22-92 | an announcement on a listing page can be fetched by its id |
| AnnouncementRoutes.ExpiryBoundary | backend/app/routes/announcements.py:25 | with `expires_at == now` the fetch returns the announcement while the listing leaves it out |
| AdminAnnouncements.CreateAnnouncement | app/routes/admin/admin_announcements.py:19-36 | appends the new announcement, authored by the admin's id as text, and returns it |
| AdminAnnouncements.AdminListAnnouncements | app/routes/admin/admin_announcements.py:38-61 | 422 exactly outside the page ranges; otherwise a page of every announcement, or only published ones with `published_only`, newest first |
| AdminAnnouncements.AdminListingScope | app/routes/admin/admin_announcements.py:44-48 | without `published_only` drafts are listed; with it every listed announcement is published |
| AdminAnnouncements.AdminGetAnnouncement | app/routes/admin/admin_announcements.py:63-78 | 500 for a malformed id, 404 for an absent one, else the stored document |
| AdminAnnouncements.ApplyAnnouncementUpdate | app/routes/admin/admin_announcements.py:89-92 | exactly the supplied fields change, `updated_at` becomes now, author and creation time are kept |
| AdminAnnouncements.EmptyUpdateTouchesOnlyTime | app/routes/admin/admin_announcements.py:89-92 | an update with no fields changes only `updated_at` |
| AdminAnnouncements.AdminUpdateAnnouncement | app/routes/admin/admin_announcements.py:80-104 | 500 for a malformed id and 404 for an absent one, both changing nothing; else the stored announcement is replaced by the updated one, which is returned |
| AdminAnnouncements.AdminDeleteAnnouncement | app/routes/admin/admin_announcements.py:108-119 | 500 for a malformed id and 404 for an absent one, changing nothing; else that announcement is removed |
| AdminAnnouncements.DeleteRemovesExactlyOne | app/routes/admin/admin_announcements.py:118-119 | after a delete the id is gone and every other announcement is still stored |
| AnnouncementController.DataFields | backend/app/controllers/announcement_controller.py:12 | `data.dict()` has exactly the four declared fields with the submitted values |
| AnnouncementController.CreateAnnouncement | backend/app/controllers/announcement_controller.py:11-14 | inserts the submitted fields and answers with them, the `_id` the driver added and the id as text |
| AnnouncementController.CreateAnswer | backend/app/controllers/announcement_controller.py:14 | the answer's id parses to the new id and every submitted field is repeated unchanged |
| AnnouncementController.GetAnnouncements | backend/app/controllers/announcement_controller.py:18-23 | one entry per stored document, in natural order, with `_id` as text |
| AnnouncementController.ListedFaithful | backend/app/controllers/announcement_controller.py:20-22 | a listed `_id` parses back to the stored id and every other field is as stored |
| AnnouncementController.UpdateData | backend/app/controllers/announcement_controller.py:29 | the update holds exactly the fields that are not `None`, with their values |
| AnnouncementController.Merge | backend/app/controllers/announcement_controller.py:32-34 | `$set` writes the given fields and keeps every other field |
| AnnouncementController.MergeIdempotent | backend/app/controllers/announcement_controller.py:32-34 | setting the same fields twice equals setting them once |
| AnnouncementController.SetResult | backend/app/controllers/announcement_controller.py:32-36 | `update_one` on an absent id modifies nothing; on a present one it reports a modification iff the document changes |
| AnnouncementController.UpdateResult | backend/app/controllers/announcement_controller.py:27-39 | an all-`None` update and a malformed id give 500; success iff there are fields, the id parses, the document exists and `$set` changes it; an absent document or one the write leaves equal gives 404; errors change nothing; success writes the fields plus `updated_at` |
| AnnouncementController.RepeatedUpdateIsNotFound | backend/app/controllers/announcement_controller.py:36-37 | repeating an update at the same clock reading modifies nothing and answers 404 |
| AnnouncementController.UpdateAnnouncement | backend/app/controllers/announcement_controller.py:27-39 | answer and new store are those of the update function |
| MemberModel.ValidateRole | app/models/member_model.py:26-30 | a role is accepted iff it is one of the six valid roles, unchanged |
| MemberModel.RoleMatchIsExact | app/models/member_model.py:9 | "Admin" and "Staff" are valid; "admin", "staff" and "member" are not |
| MemberModel.NewMember | app/models/member_model.py:11-23 | a new member is an active "Member" with no departments, notification preference "both" and no SMS consent (its `password_hash` is a placeholder; see Left out) |
| MemberModel.SetPasswordThenVerify | app/models/member_model.py:37-43 | `set_password` changes only the hash, and the new password verifies |
| MemberModel.FindByEmail | backend/app/routes/auth.py:16 | finds a stored member with exactly that address, and none iff no member has it |
| MemberModel.ReplaceKeepsValid | backend/app/routes/admin/users.py:23-24 | saving a member with an unchanged address keeps ids and addresses unique |
| MemberModel.RemoveKeepsValid | backend/app/routes/admin/members.py:41 | deleting a member keeps ids and addresses unique |
| Dependencies.RequireAdmin | app/dependencies.py:7-13 | passes the member through unchanged iff the role is exactly "Admin" or "Staff", else 403 with the fixed detail |
| AuthUtils.NatToDecimal | backend/app/utils/auth.py:28-29 | `str` of a whole-number subject is its decimal digits, without a leading zero, reading back as the number |
| AuthUtils.CreateAccessToken | backend/app/utils/auth.py:23-30 | the claims are the input's plus `exp` at now + 30 minutes, `sub` as text, every other claim kept |
| AuthUtils.SubjectKept | backend/app/utils/auth.py:28-29 | a text subject is kept and the token carries exactly `sub` and `exp` |
| AuthUtils.GetCurrentUser | backend/app/utils/auth.py:33-69 | 401 iff the token does not decode; success iff it decodes with a text subject naming a stored member, who is returned; every other failure is 500 |
| AuthUtils.GetCurrentActiveUser | backend/app/utils/auth.py:74-81 | 400 "Inactive user" iff the member is inactive, else the member unchanged |
| AuthUtils.IssuedTokenResolves | backend/app/utils/auth.py:23-56 | within its lifetime a token issued for a stored member resolves to that member |
| AuthUtils.ExpiredTokenRejected | backend/app/utils/auth.py:60-62 | after its lifetime the token is refused with 401 |
| AuthUtils.AbsentMemberIsServerError | backend/app/utils/auth.py:49-51 | a valid token for a deleted member ends as 500, not 401 |
| AuthUtils.MissingSubjectIsServerError | backend/app/utils/auth.py:42-44 | a valid token without a subject ends as 500 |
| EmailAddress.NormalizeEmail | backend/app/schemas/auth_schema.py:10 | a validated address has the length of the stripped input, which contains an '@'; an input without '@' is refused |
| EmailAddress.NormalizedForm | backend/app/schemas/auth_schema.py:10 | an address with one '@', text on both sides and no white space at its ends validates to itself with the domain lowercased and the local part as typed |
| EmailAddress.NormalizeEmailIdempotent | backend/app/schemas/auth_schema.py:10 | validating an address that validation produced gives it back unchanged |
| EmailAddress.MixedCaseDomainLowered | backend/app/schemas/auth_schema.py:10 | "a@X.org" validates to "a@x.org" |
| AuthRoutes.Register | backend/app/routes/auth.py:14-31 | an address `EmailStr` refuses gives 422 and stores nothing; the duplicate check and the stored member use the normalised address, so a taken address, in any domain case, gives 400 and stores nothing; otherwise the default member with the normalised address and the password hashed is appended and a token for its id returned |
| AuthRoutes.Login | backend/app/routes/auth.py:35-45 | the same 401 for an unknown address and a wrong password; success iff a member with that address verifies the password, answering a token for that member; `is_active` is not checked |
| AuthRoutes.FindByEmailUnique | backend/app/routes/auth.py:37 | with unique addresses, the lookup finds the one member with that address |
| AuthRoutes.LoginSucceedsIff | backend/app/routes/auth.py:37-45 | login with a stored address succeeds iff its password verifies, and then issues that member's token |
| AuthRoutes.RegisterThenLogin | backend/app/routes/auth.py:14-45 | a newly registered member can log in with the normalised address and the same password |
| AuthRoutes.RawAddressLoginFails | backend/app/routes/auth.py:14-45 | when validation changed the address, logging in with the address as typed at registration answers 401, because login compares the form's username unnormalised |
| AuthRoutes.MixedCaseDomainCannotLogIn | backend/app/routes/auth.py:14-45 | after registering "a@X.org" (stored as "a@x.org"), logging in with "a@X.org" answers 401 |
| AuthRoutes.RegisterTokenResolves | backend/app/routes/auth.py:30 | the registration token resolves to the member just stored while it is valid |
| AuthRoutes.UpdatePassword | backend/app/routes/auth.py:53-63 | a wrong current password gives 400 and changes nothing; otherwise only that member's hash is replaced |
| AuthRoutes.Logout | backend/app/routes/auth.py:65-67 | answers the fixed message and changes no state |
| AuthRoutes.UpdatePasswordThenLogin | backend/app/routes/auth.py:53-63 | after a password change the member logs in with the new password |
| MemberRoutes.ApplySelfUpdate | backend/app/routes/members.py:18-21 | only first name, last name and phone can change, each when supplied |
| MemberRoutes.SelfUpdateKeepsAccess | backend/app/routes/members.py:18-21 | role, address, active flag, departments and hash never change; an empty update changes nothing |
| MemberRoutes.UpdateMyProfile | backend/app/routes/members.py:12-24 | the stored member becomes the updated one, and the answer is that member read back |
| AdminMembers.CreateMember | backend/app/routes/admin/members.py:14-21 | always 500, because the request schema has no `email` |
| AdminMembers.ApplyMemberUpdate | backend/app/routes/admin/members.py:30-31 | only last name, phone and role change, each when supplied |
| AdminMembers.MisspeltFieldsIgnored | backend/app/routes/admin/members.py:30-31 | first name, active flag, departments and address keep their values |
| AdminMembers.UpdateStoresUnvalidatedRole | backend/app/routes/admin/members.py:30-31 | the update stores a role that the validator refuses |
| AdminMembers.UpdateMember | backend/app/routes/admin/members.py:24-32 | 422 for a malformed id and 404 for an absent one, changing nothing; else the member is updated and returned |
| AdminMembers.DeleteMember | backend/app/routes/admin/members.py:35-42 | 422 for a malformed id and 404 "Memebr not found" for an absent one, changing nothing; else exactly that member is removed |
| AdminMembers.SearchMembers | backend/app/routes/admin/members.py:45-50 | 400 iff the role is missing or empty; else exactly the stored members with that role, in stored order |
| AdminMembers.SearchSplits | backend/app/routes/admin/members.py:49 | searching a role and counting the rest accounts for every member once |
| AdminUsers.PromoteUser | backend/app/routes/admin/users.py:11-25 | 422 for a malformed id, then 400 for an invalid role, then 404 for an absent user, all changing nothing; else only the role is replaced |
| AdminUsers.PromotionThenGate | backend/app/routes/admin/users.py:23-24 | after promotion the stored role is the new one, valid, and it passes the admin gate iff it is "Admin" or "Staff" |
| EventModel.DefaultEvent | backend/app/models/event_model.py:6-19 | a new event is an unpublished "service" with no registration, no volunteers, no capacity and no roles |
| EventModel.NewRegistration | backend/app/models/event_model.py:27-33 | a registration starts "pending" at the current time |
| EventModel.NewSignup | backend/app/models/event_model.py:39-45 | a sign-up starts "pending"; a missing name is "unknown" |
| EventRoutes.ListUpcomingEvents | backend/app/routes/events.py:15-41 | the intended listing is sorted by start time and is a permutation of the published events |
| EventRoutes.ListUpcomingEventsAsWritten | backend/app/routes/events.py:15-41 | the listing as written succeeds only with the empty list, and otherwise answers 500 "Failed to retrieve events" |
| EventRoutes.ListingIsPublishedByStart | backend/app/routes/events.py:15-41 | the intended listing is a permutation of the published events, sorted by start time, past events included |
| EventRoutes.ListingAsWrittenFailsIffPublished | backend/app/routes/events.py:15-41 | as written, the listing answers an empty list iff no stored event is published, and 500 "Failed to retrieve events" otherwise, because each `EventOut` lacks the required `created_at` and `updated_at` |
| EventRoutes.OnePublishedEventFails | backend/app/routes/events.py:19-41 | a store with one published event makes the listing as written answer 500 |
| EventRoutes.VisibleEvent | backend/app/routes/events.py:44-48 | 422 for a malformed id, 404 "Event not found" when the event is absent or unpublished, else the stored event |
| EventRoutes.GetEventDetails | backend/app/routes/events.py:44-52 | only a stored, published event is returned; failures are 422 or 404 |
| EventRoutes.Rsvp | backend/app/routes/events.py:56-90 | 404, then 400 "Registration not required", then 400 "Already registered" keyed on event, member and role, then 400 "Event is full"; success appends exactly one registration |
| EventRoutes.RsvpRespectsCapacity | backend/app/routes/events.py:75-80 | with a positive capacity, a successful RSVP never takes the count above it |
| EventRoutes.RsvpAddsOne | backend/app/routes/events.py:83-90 | a successful RSVP raises the event's count by exactly one |
| EventRoutes.RoleChangeAllowsReregistration | backend/app/routes/events.py:66-72 | a member whose role changed can register again for the same event |
| EventRoutes.NegativeCapacityAlwaysFull | backend/app/routes/events.py:75-80 | a negative `max_attendees` makes the event permanently full |
| EventRoutes.RsvpToEvent | backend/app/routes/events.py:56-90 | answer and new registrations are those of the RSVP function; events and sign-ups are unchanged |
| EventRoutes.Volunteer | backend/app/routes/events.py:94-124 | 404, then 400 when volunteers are not needed, then 400 for a role not offered, then 400 for a duplicate on event, member, name and role; success appends exactly one sign-up |
| EventRoutes.VolunteerTwiceRefused | backend/app/routes/events.py:107-114 | signing up twice for the same role is refused the second time |
| EventRoutes.SignupToVolunteer | backend/app/routes/events.py:94-124 | answer and new sign-ups are those of the sign-up function; events and registrations are unchanged |
| AdminEvents.CreatedEvent | backend/app/routes/admin/events.py:13-17 | a created event is unpublished and carries the submitted fields |
| AdminEvents.CreateEvent | backend/app/routes/admin/events.py:13-17 | appends the created event and returns it |
| AdminEvents.ApplyEventUpdate | backend/app/routes/admin/events.py:26-27 | exactly the supplied fields change; timestamps are untouched |
| AdminEvents.PublishOnlyThroughUpdate | backend/app/routes/admin/events.py:13-28 | a created event is not in the intended public listing; after an update publishing it, it is, and the listing as written then answers 500 |
| AdminEvents.UpdateEvent | backend/app/routes/admin/events.py:21-28 | 422 for a malformed id and 404 for an absent event, changing nothing; else the event is updated and returned |
| AdminEvents.DeleteEvent | backend/app/routes/admin/events.py:32-38 | 422 for a malformed id and 404 for an absent event, changing nothing; else exactly that event is removed and the answer is a two-element set |
| AdminEvents.ViewRegistrations | backend/app/routes/admin/events.py:41-47 | every registration, or for a non-empty `event_id` exactly those of that event, in stored order |
| AdminEvents.ViewVolunteers | backend/app/routes/admin/events.py:50-56 | every sign-up, or for a non-empty `event_id` exactly those of that event, in stored order |
| AdminEvents.AdminViewAfterRsvp | backend/app/routes/admin/events.py:41-47 | after a successful RSVP the admin view of that event lists the new registration, one entry more than before, and never more than a positive `max_attendees` |
| PrayerModel.NewComment | backend/app/models/prayer_testimony_model.py:8-11 | a comment carries its author, text and creation time |
| PrayerModel.NewPrayerRequest | backend/app/models/prayer_testimony_model.py:14-22 | a new request is unapproved, never prayed for and without comments |
| PrayerModel.NewTestimony | backend/app/models/prayer_testimony_model.py:28-34 | a new testimony is unapproved and without comments |
| PrayerSchema.CreateIsPublic | app/schemas/prayer_testimony_schema.py:24-26 | `is_public` defaults to true |
| PrayerSchema.Increment | app/schemas/prayer_testimony_schema.py:88-89 | the increment defaults to 1; a value below 1 is refused with 422 |
| PrayerSchema.ConvertId | app/schemas/prayer_testimony_schema.py:45-57 | an ObjectId becomes its text and anything else passes unchanged |
| PrayerSchema.ConvertIdRoundTrip | app/schemas/prayer_testimony_schema.py:45-50 | converting is idempotent, and a converted id parses back to the id |
| PrayerSchema.StrField | app/schemas/prayer_testimony_schema.py:35 | a `str` field accepts exactly text values |
| PrayerSchema.PrayerRequestOutIds | app/schemas/prayer_testimony_schema.py:33-57 | `id` and `member_id` both accept an ObjectId or text |
| PrayerSchema.TestimonyOutIds | app/schemas/prayer_testimony_schema.py:68-85 | `id` accepts an ObjectId or text, `member_id` only text |
| PrayerSchema.CommentOutMember | app/schemas/prayer_testimony_schema.py:16-21 | a comment's `member_id` accepts an ObjectId or text |
| PrayerSchema.OutSchemasDifferOnRawMemberId | app/schemas/prayer_testimony_schema.py:52-85 | a raw ObjectId `member_id` passes the prayer schema and fails the testimony schema; text passes both |
| PrayerRoutes.SubmitPrayerRequest | backend/app/routes/prayer_testimony.py:20-31 | appends a new request recording the caller's id and returns it |
| PrayerRoutes.PublicPrayerRequests | backend/app/routes/prayer_testimony.py:35-41 | only stored requests that are public and approved are listed, in stored order |
| PrayerRoutes.PublicPrayerRequestsExact | backend/app/routes/prayer_testimony.py:35-41 | a stored request is listed iff it is public and approved |
| PrayerRoutes.SubmittedNotListed | backend/app/routes/prayer_testimony.py:25-41 | a freshly submitted request does not change the public listing |
| PrayerRoutes.Pray | backend/app/routes/prayer_testimony.py:45-57 | 422 for a malformed id or increment, 404 for an absent request, both changing nothing; else only that request's count grows by the increment |
| PrayerRoutes.Counted | backend/app/routes/prayer_testimony.py:54 | the count grows by the increment and nothing else changes |
| PrayerRoutes.PrayIncreasesCount | backend/app/routes/prayer_testimony.py:51-55 | praying strictly raises the count whatever the approval, and leaves every other request alone |
| PrayerRoutes.CountsStayNonNegative | backend/app/routes/prayer_testimony.py:45-57 | when no stored count is negative, none is after an increment request, whatever its outcome |
| PrayerRoutes.IncrementPrayerCount | backend/app/routes/prayer_testimony.py:45-57 | answer and new requests are those of the pray function; non-negative counts stay non-negative; testimonies unchanged |
| PrayerRoutes.WithPrayerComment | backend/app/routes/prayer_testimony.py:75 | exactly one comment is appended and nothing else changes |
| PrayerRoutes.WithTestimonyComment | backend/app/routes/prayer_testimony.py:120 | exactly one comment is appended and nothing else changes |
| PrayerRoutes.AddPrayerComment | backend/app/routes/prayer_testimony.py:61-77 | 422 for a malformed id and 404 for an absent request, changing nothing; else the caller's comment is appended |
| PrayerRoutes.CommentAppendsOne | backend/app/routes/prayer_testimony.py:71-76 | the stored request has one more comment, at the end, earlier ones unchanged |
| PrayerRoutes.SubmitTestimony | backend/app/routes/prayer_testimony.py:81-91 | appends a new testimony recording the caller's id and returns it |
| PrayerRoutes.PublicTestimonies | backend/app/routes/prayer_testimony.py:96-101 | only stored approved testimonies are listed, in stored order |
| PrayerRoutes.PublicTestimoniesExact | backend/app/routes/prayer_testimony.py:96-101 | a stored testimony is listed iff it is approved |
| PrayerRoutes.AddTestimonyComment | backend/app/routes/prayer_testimony.py:104-122 | 422 for a malformed id and 404 "Testimony not found" for an absent one, changing nothing; else the caller's comment is appended |
| PrayerAdmin.AdminListingCoversPublic | app/routes/admin/prayer_testimony_admin.py:15-17 | the admin listing (every stored request) contains every publicly listed request, and an unapproved request is never publicly listed |
| PrayerAdmin.ApprovedRequest | app/routes/admin/prayer_testimony_admin.py:30 | only `is_approved` changes, to true |
| PrayerAdmin.Approve | app/routes/admin/prayer_testimony_admin.py:21-32 | 422 for a malformed id and 404 for an absent one, changing nothing; else that request becomes approved |
| PrayerAdmin.ApproveIdempotent | app/routes/admin/prayer_testimony_admin.py:26-32 | approving twice answers and stores as approving once |
| PrayerAdmin.ApprovedPublicIsListed | app/routes/admin/prayer_testimony_admin.py:30-31 | an approved public request appears in the public listing |
| PrayerAdmin.ApprovePrayerRequest | app/routes/admin/prayer_testimony_admin.py:21-32 | answer and new requests are those of the approve function; testimonies unchanged |
| PrayerAdmin.Moderated | app/routes/admin/prayer_testimony_admin.py:47-52 | "approve" sets approval, "reject" clears it, "edit" with non-empty content replaces only the content, anything else changes nothing |
| PrayerAdmin.ApproveRejectInverse | app/routes/admin/prayer_testimony_admin.py:47-50 | reject after approve equals reject, approve after reject equals approve |
| PrayerAdmin.EditKeepsApproval | app/routes/admin/prayer_testimony_admin.py:51-52 | an edit keeps approval and comments and sets the content |
| PrayerAdmin.ModerateTestimony | app/routes/admin/prayer_testimony_admin.py:36-55 | 422 for a malformed id and 404 for an absent one, changing nothing; else the moderated testimony is saved and the answer is "Testimony <action> succesful" |
| PrayerAdmin.UnknownActionChangesNothing | app/routes/admin/prayer_testimony_admin.py:47-55 | an unknown action leaves the store as it was |
| AttendanceSettings.SetFormUrl | backend/app/routes/admin/attendance_settings.py:15-27 | inserts a document when none exists, else overwrites the URL of the first one; answers the stored URL |
| AttendanceSettings.AdminFormUrl | backend/app/routes/admin/attendance_settings.py:31-37 | "" when there is no document, else its URL |
| AttendanceSettings.MemberFormUrl | backend/app/routes/attendance.py:12-20 | 404 iff there is no document or its URL is empty, else the URL |
| AttendanceSettings.ReadersAgree | backend/app/routes/attendance.py:14-20 | the member reader succeeds iff the admin reader returns a non-empty URL, and then with the same URL |
| AttendanceSettings.SetThenGet | backend/app/routes/admin/attendance_settings.py:15-37 | after setting a URL the admin reader returns it, the member reader returns it when non-empty, and at most one document exists when none did |
| AttendanceSettings.SetIdempotent | backend/app/routes/admin/attendance_settings.py:24-26 | setting the same URL twice stores what setting it once stores |
| AttendanceSettings.SetAttendanceFormUrl | backend/app/routes/admin/attendance_settings.py:15-27 | answer and new collection are those of the set function |
| RoleSeeding.SeedDoc | backend/app/routes/admin/roles.py:27-31 | the seeded document holds the valid roles in order |
| RoleSeeding.SeedOnce | backend/app/routes/admin/roles.py:16-33 | 400 "Roles already initialized" and no change when a document exists, else one insert and the success message |
| RoleSeeding.SeedOnceThenAgain | backend/app/routes/admin/roles.py:19-31 | after a seed the document reads back with the valid roles, and a second seed is refused without change |
| RoleSeeding.SeedRolesOnce | backend/app/routes/admin/roles.py:10-33 | answer and new collection are those of the seed-once function |
| RoleSeeding.NewRolesAsWritten | app/routes/admin/roles.py:27 | every valid role when the stored list is empty, none otherwise |
| RoleSeeding.MergeSeed | app/routes/admin/roles.py:9-39 | with no document: insert and 500; with a non-empty list: "No new roles" and no write; with an empty list: the list becomes the valid roles |
| RoleSeeding.MergeSeedFirstCallFails | app/routes/admin/roles.py:19-29 | on an empty collection the handler stores the seed yet answers 500; the next call answers "No new roles" |
| RoleSeeding.MergeSeedMissesRoles | app/routes/admin/roles.py:25-30 | a stored ["Admin"] gets none of the missing roles added |
| RoleSeeding.MissingRoles | app/routes/admin/roles.py:27 | the valid roles not yet stored, each once it is missing |
| RoleSeeding.MergeSeedIntended | app/routes/admin/roles.py:19-39 | the intended merge always answers normally |
| RoleSeeding.MergeSeedIntendedComplete | app/routes/admin/roles.py:19-39 | after the intended merge the document holds every valid role and every role it held before |
| RoleSeeding.MergeSeedRoles | app/routes/admin/roles.py:9-39 | answer and new collection are those of the merge function as written |
| DatabaseConnection.LastSegmentName | app/database/connection.py:22 | the text after the last "/", cut at "?", contains neither "/" nor "?" |
| DatabaseConnection.DbNameApp | app/database/connection.py:21-26 | the name is never empty and has no "/" or "?"; "gpcc_db" without "/" or for an empty segment, else the last segment's name |
| DatabaseConnection.DbNameBackend | backend/app/database/connection.py:13-16 | "gpcc_db" without "/", else the last segment's name, which may be empty |
| DatabaseConnection.VariantsAgreeOnNamedUri | app/database/connection.py:21-26 | both variants read `mongodb://host/name?options` as `name` |
| DatabaseConnection.AppDefaultUriNamesDatabase | app/database/connection.py:17 | the default URI selects "church_app" |
| DatabaseConnection.HostOnlyUri | backend/app/database/connection.py:13-14 | a URI without a path makes the backend variant name the database after the host |
| DatabaseConnection.BackendDefaultUriNamesHost | backend/app/database/connection.py:10-16 | the default URI selects a database called "localhost:27017" |
| DatabaseConnection.DbNameIntended | backend/app/database/connection.py:13-16 | the corrected extraction never yields an empty name |
| DatabaseConnection.DbNameIntendedNamedUri | backend/app/database/connection.py:13-16 | the corrected extraction reads a named URI as the app variant does |
| DatabaseConnection.GetDb | backend/app/database/connection.py:37-41 | the database once initialised, else a server error |
| RouteGuard.Guard | frontend/src/routes/ProtectedRoute.jsx:17-36 | no user goes to /login; renders iff an admin path with role "admin" or another path with role "member"; otherwise /dashboard or /admin/dashboard |
| RouteGuard.OtherRolesBounce | frontend/src/routes/ProtectedRoute.jsx:26-33 | any other role is never shown a page and the two dashboards redirect to each other |
| RouteGuard.BackendRolesNeverRender | frontend/src/routes/ProtectedRoute.jsx:26-33 | the backend's capitalised role names are never shown a page |
| EventsPage.FilteredEvents | frontend/src/pages/user/events.jsx:101-106 | the tab keeps events in their order; "services" keeps only type "service", "special" only the other types |
| EventsPage.TabsPartition | frontend/src/pages/user/events.jsx:101-106 | "all" and unknown tabs keep every event; "services" and "special" split the list by type, in order |
| EventsPage.VolunteerRequest | frontend/src/pages/user/events.jsx:57-62 | no request without a selected event and a role; else the event id and role |
| QueryString.LastValueSkipsOthers | frontend/src/pages/user/events.jsx:62 | later query parameters with other names do not change the value the server reads |
| QueryString.ReceivedRole | frontend/src/pages/user/events.jsx:62 | whatever the role text, the server reads some `role`, so the request is never refused for a missing parameter |
| QueryString.PlainRoleArrives | frontend/src/pages/user/events.jsx:62 | a role without '&', '#', '+' or '%' reaches the server as the browser's URL parser leaves it: trailing spaces and control characters trimmed, tabs and line breaks deleted |
| QueryString.TrailingSpaceArrivesTrimmed | frontend/src/pages/user/events.jsx:62 | a role followed by a space reaches the server without the space |
| QueryString.TrailingSpaceTrimmed | frontend/src/pages/user/events.jsx:62 | the browser sends the role "Choir " as "Choir" |
| QueryString.TabDropped | frontend/src/pages/user/events.jsx:62 | the role "A\tB" reaches the server as "AB" |
| QueryString.AmpersandCutsRole | frontend/src/pages/user/events.jsx:62 | the unencoded '&' ends the value: a role `a&b` without tabs or line breaks, not ending in a space or control character, reaches the server as `a` |
| QueryString.SoundAndMediaArrivesCut | frontend/src/pages/user/events.jsx:62 | the role "Sound & Media" reaches the server as "Sound " |
| EventsPage.PageRequestsValidRoles | frontend/src/pages/user/events.jsx:57-62 | for a role offered on a listed event's card, the request is accepted or refused only as a duplicate iff the role the server reads is one of the card's roles, and refused as invalid otherwise |
| EventsPage.PlainRolesAccepted | frontend/src/pages/user/events.jsx:57-62 | a role free of '&', '#', '+', '%', tabs and line breaks, and not ending in a space or control character, arrives as written and is accepted or refused only as a duplicate |
| EventsPage.AlteredRoleRefused | frontend/src/pages/user/events.jsx:57-62 | a card whose only role the browser alters ("Choir ", say) gets its page request refused with 400 "Invalid volunteer role" |
| EventsPage.AmpersandRoleRefused | frontend/src/pages/user/events.jsx:62 | a card whose only role is `a&b` gets its page request refused with 400 "Invalid volunteer role" |
| ProfilePage.InitialProfile | frontend/src/pages/user/Profile.jsx:7-16 | the eight fields with empty text, no departments, "both" and false |
| ProfilePage.TextOr | frontend/src/pages/user/Profile.jsx:64-70 | a missing or empty text falls back |
| ProfilePage.FetchedProfile | frontend/src/pages/user/Profile.jsx:63-72 | each fetched field falls back to '' / [] / 'both' / false when missing |
| ProfilePage.EmptyAnswerIsInitial | frontend/src/pages/user/Profile.jsx:63-72 | an empty answer gives the initial state |
| ProfilePage.InputChange | frontend/src/pages/user/Profile.jsx:81-87 | only the named field changes, to `checked` for a checkbox and `value` otherwise |
| ProfilePage.InputChangeIdempotent | frontend/src/pages/user/Profile.jsx:81-87 | the same change twice equals once |
| ProfilePage.Without | frontend/src/pages/user/Profile.jsx:93 | every occurrence of the department is removed and nothing else |
| ProfilePage.ToggledDepartments | frontend/src/pages/user/Profile.jsx:92-94 | the department is present afterwards iff it was absent; membership of the others is unchanged |
| ProfilePage.ToggleTwiceRestores | frontend/src/pages/user/Profile.jsx:92-94 | ticking an unticked department and unticking it restores the list |
| ProfilePage.DepartmentChange | frontend/src/pages/user/Profile.jsx:89-96 | only the departments field changes, to the toggled list |
| ProfilePage.Utf16Length | frontend/src/pages/user/Profile.jsx:146 | `.length` counts UTF-16 code units: at least one and at most two per character, exactly one each when all lie in the Basic Multilingual Plane |
| ProfilePage.PasswordRequest | frontend/src/pages/user/Profile.jsx:141-163 | sends iff the new passwords match and are at least 6 UTF-16 code units long; a mismatch is reported before the length |
| ProfilePage.PasswordLengthInCodeUnits | frontend/src/pages/user/Profile.jsx:146-149 | three characters beyond U+FFFF are long enough to be sent, five ordinary ones are not |
| ProfilePage.ToggleVisibility | frontend/src/pages/user/Profile.jsx:183-188 | only the chosen field's flag flips |
| ProfilePage.ToggleVisibilityTwice | frontend/src/pages/user/Profile.jsx:183-188 | toggling twice restores the state |

## Left out

- Input and output are not modelled: MongoDB query execution, connection set-up, TLS, pings, Beanie initialisation and logging. Collections are sequences and each query is given its filter meaning directly.
- bcrypt and JWT are not implemented. They are the function-holding values `Hasher` and `JwtCodec`, whose laws are the predicates `Sound` and `Faithful`. `Faithful` speaks only of tokens carrying the `sub` and `exp` claims the server writes; python-jose's checks on other claims (`aud`, `iat`, `nbf`) are not modelled. The default secret key is configuration.
- Concurrency is not modelled: the cache's `asyncio.Lock` and the count-then-insert race in RSVP. Every handler runs alone.
- Datetimes are integer clock readings. The event loop's float clock is an integer too.
- The `cached` decorator's key string, built from `repr` of the arguments, is an opaque key.
- MemoryCache.Cached: it covers one call through the wrapper with the function's result given as a parameter. The wrapped call itself is not modelled. The clock is read twice, at `now` for the lookup and at `later` for the store; the model does not require `now <= later`.
- EmailAddress.NormalizeEmail: only stripping, the single '@' with text on both sides and ASCII lowercasing of the domain are modelled. The "Name <address>" form, quoted local parts, internationalised domains and email-validator's remaining syntax rules (allowed characters, a dot in the domain, length limits) are not, so the model accepts some addresses the library refuses with 422.
- AuthRoutes.Register: `password_hash` has no default in app/models/member_model.py:20, so under that class the `Member(...)` call in `register` would fail validation and the request would end as 500. The backend's own member model is not part of this model. The model assumes a class that accepts the member without a hash, and `set_password` then sets it.
- QueryString.Unquote: a percent escape of a byte of 0x80 or more is read as U+FFFD. The UTF-8 sequence that several such escapes can form is not reassembled. Characters the browser escapes itself are taken to arrive unchanged. The browser's trim of leading spaces and control characters touches only the start of the URL, not the role, and is left out.
- Response models (`MemberOut`, `EventOut`, `AnnouncementResponse`) are not modelled except for the prayer and testimony id converters. This also leaves out whether `MemberOut` can serialise a stored member.
- A field sent as an explicit `null` in a partial update is not modelled. Each field is either left out (`Keep`) or carries a value (`Put`).
- The testimony comment route is declared without its leading slash. Its reachable URL depends on the router prefix, which is not part of this model. The handler body is modelled.
- Router assembly and prefixes are not modelled, including which routers sit behind `require_admin`. Handlers are modelled as their bodies, and the admin gate as `Dependencies.RequireAdmin`.
- `get_my_profile`, `/auth/me` and the admin `get_all_members` return what they are given, unchanged. They are covered by `AuthUtils.GetCurrentUser` and by the collection itself.
- The attendance check-in handler is commented out in the source, so it is not live behaviour.
- Front-end rendering, `fetch`, `localStorage`, date formatting and the authentication context are not modelled. Only the pure helpers are.
- EventRoutes.ListingIsPublishedByStart: events with equal start times stay in stored order. MongoDB does not promise an order for ties. The same holds for the announcement listings, which sort by creation time.
- The role list of backend/app/routes/admin/roles.py is taken to be the `VALID_ROLES` of app/models/member_model.py. backend/app/models/member_model.py is not part of this model.

## Findings

| source | as written | input that shows it | evidently intended | confidence | as-written member | corrected member |
|---|---|---|---|---|---|---|
| backend/app/routes/events.py:19-41 | each `EventOut(...)` is built without `created_at` and `updated_at`, which `EventOut` requires with no default, and the generic `except` turns the validation error into 500 | any store with a published event: the public listing answers 500 "Failed to retrieve events" | the published events, sorted by start time | high, not executed | EventRoutes.OnePublishedEventFails | EventRoutes.ListingIsPublishedByStart |
| backend/app/database/connection.py:10-16 | the database is the text after the last "/", so a URI without a path names the database after the host | the default `mongodb://localhost:27017` selects the database "localhost:27017" | a URI without a database path falls back to "gpcc_db" | medium, not executed | DatabaseConnection.BackendDefaultUriNamesHost | DatabaseConnection.DbNameIntendedNamedUri |
| app/routes/admin/roles.py:27 | `[role for role in VALID_ROLES if not existing_roles]` never compares individual roles | a stored roles list `["Admin"]` gets no "Member", "Staff" or other missing role | add each valid role not yet stored (`if role not in existing_roles`) | high, not executed | RoleSeeding.MergeSeedMissesRoles | RoleSeeding.MergeSeedIntendedComplete |
| app/routes/admin/roles.py:19-29 | after inserting the first document, `new_roles` is read without having been assigned | an empty `system_roles` collection: the insert happens and the request ends with 500 | answer normally after the first insert | high, not executed | RoleSeeding.MergeSeedFirstCallFails | RoleSeeding.MergeSeedIntended |
