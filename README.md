# GravitasBackend domain model

A Dafny model of the domain logic behind the GravitasBackend Express/Mongoose service. The
service has users who sign up and verify an email OTP, communities with an ordered member list,
and events that belong to a community. An event can carry announcements ("event updates").

The database is one `Database.Store` object with four collections: users, communities, events
and updates. Each collection is a map from an opaque `Id` to the stored record, and the store
invariants are `Store.Valid()`:

- unique `email`s;
- valid communities without duplicate members, and unique `uniqueId`s;
- valid events with unique `uniqueId`s;
- event/community back-references that agree both ways;
- every event created by its community's creator;
- every stored update valid.

Each request handler is a module-level method that takes the store as a parameter. It returns
the HTTP status it would answer with, states the new contents of every collection it may change,
and keeps the invariants.

- `AuthController`: `generateAccessAndRefereshTokens`, `signup`, `verifyOTP`, `resendOTP`,
  `login`, `loginWithOTP` and `verifyLoginOTP`, as transitions of a user's `isVerified`, `otp`
  and `refreshToken`.
- `EventController`: `createEvent`, including the slug `title.toLowerCase().replace(/\s+/g, "-")`
  (`Text.Slugify`), plus `getEventById`, `updateEvent` (a partial merge) and `deleteEvent` (a
  `$pull` from the community, then the delete).
- `CommunityController`: `createCommunity` (a uniqueness guard; the creator is seeded as the sole
  admin) and `getAllCommunities`.
- `CommunitySchema` and `CommunityMethods`: the community schema and validators, the
  `memberCount` virtual, `addMember`, `removeMember`, `updateMemberRole`, `findUserCommunities`
  and `findAdminCommunities`.
- `EventSchema` and `EventStatics`: the event schema validators and the `Event.createEvent`
  static.
- `EventUpdateSchema` and `EventUpdates`: the EventUpdate validators, the `isEdited` default and
  the pre-save hook. An in-memory document is a class that records which paths were modified.

Model conventions:

- The `trim`/`lowercase` schema setters are applied when a record is built. Validation runs on
  the result.
- A missing request field is modelled as `""`, or `0` for `capacity`. The handlers' `x || old`
  merges treat these the same as `undefined`. A missing string field and `""` both fail `required`;
  a missing capacity fails `required`, and `0` fails `min: 1`.
- A failing `save()` answers 500 from the `catch` of the event and community handlers, and 400
  from the `catch` of the auth handlers. A failing `save()` inside a document
  method gives `saved == false`. Either way nothing is stored.
- The collaborators the code cannot see are parameters: the clock, the OTP code `generateOTP`
  draws, the minted JWT pair, the bcrypt comparison and the Cloudinary upload result.

## Model

| member | source | states |
|---|---|---|
| AuthController.IssueTokens | src/controllers/authController.js:7-21 | a missing user fails and nothing changes; otherwise the minted pair is returned and its refresh token replaces any earlier one, nothing else changes |
| AuthController.Signup | src/controllers/authController.js:53-72 | 400 exactly when email or password is missing or the email is taken, and then nothing changes; 201 stores the user unverified with an OTP accepting the drawn code and the new refresh token, and returns the tokens; nobody verified becomes unverified |
| AuthController.VerifyOtp | src/controllers/authController.js:76-99 | unknown email or a code the OTP does not accept: 400, nothing changes; otherwise the user becomes verified, the OTP is cleared, the refresh token replaced, 200 with tokens |
| AuthController.ResendOtp | src/controllers/authController.js:103-119 | unknown email 404, already verified 400, both change nothing; otherwise 200 and only the user's OTP is replaced by a fresh one |
| AuthController.Login | src/controllers/authController.js:123-150 | missing email or password 400; unknown user or wrong password 401; nothing changes in those; unverified user with the right password: fresh OTP, requiresVerification, no tokens, refresh token kept; verified user: tokens issued |
| AuthController.LoginWithOtp | src/controllers/authController.js:154-168 | unknown email 404 with no change; any existing user, verified or not, gets a fresh OTP and nothing else changes |
| AuthController.VerifyLoginOtp | src/controllers/authController.js:172-195 | unknown email or rejected code: 400, no change; otherwise OTP cleared, user verified (stays verified), refresh token replaced, 200 with tokens |
| UserModel.WithFreshOtp | src/controllers/authController.js:58 | after `generateOTP` the drawn code is accepted for exactly the next ten minutes, no other code is accepted, and no other user field changes |
| UserModel.WithoutOtp | src/controllers/authController.js:86 | after `otp = undefined` no code is accepted at any time (an OTP is single-use), and no other field changes |
| UserModel.FindByEmail | src/controllers/authController.js:79 | `User.findOne({ email })` returns a stored user with that email, or none exactly when no stored user has it |
| EventController.EventFor | src/controllers/eventController.js:39-51 | the new event's uniqueId is the slug of the title, its community is the `communityId` named in the request body, its creator the caller, and it is active |
| EventController.EventForValidation | src/controllers/eventController.js:39-53 | the new event passes the schema validators exactly when title and location have a non-space character, the slug matches the uniqueId pattern, date and times are given and capacity is at least 1 |
| EventController.CreateEvent | src/controllers/eventController.js:6-66 | 404 missing community, 403 caller not its creator, 400 slug already used, 500 invalid document, all with no change; otherwise the event is stored and its id appended to the end of the community's events, earlier entries kept; invariants (unique uniqueIds, links, ownership) kept |
| Database.StoreEvent | src/controllers/eventController.js:53-57 | the event is stored and its id appended to its community's events, nothing else changes; the links are kept, and the ownership invariant survives exactly when the event's creator is the community's |
| EventController.GetEventById | src/controllers/eventController.js:88-103 | 200 with the stored event exactly when it exists, else 404 |
| EventController.UpdateEvent | src/controllers/eventController.js:106-136 | 404 unknown event, 403 non-creator, 500 when a supplied value fails validation, no change in all three; otherwise the event becomes the merge of the supplied fields |
| EventController.DeleteEvent | src/controllers/eventController.js:139-161 | 404 unknown, 403 non-creator, no change; otherwise the event is deleted, every occurrence of its id is pulled from its community, no community lists it afterwards, invariants kept |
| EventSchema.NewEventValidation | src/models/Event.js:5-43 | a new event is valid exactly when it names a creator, title and location are non-blank, the normalised uniqueId matches the pattern, date, startTime and endTime are given and capacity is at least 1 |
| EventSchema.Merged | src/controllers/eventController.js:121-127 | each of the seven fields takes the supplied value when truthy (trimmed where the schema trims) and keeps the old one otherwise; uniqueId, community, createdBy, bannerUrl and isActive never change |
| EventSchema.MergeNothing | src/controllers/eventController.js:121-127 | a body with every field falsy leaves the event unchanged |
| EventSchema.MergeValidity | src/controllers/eventController.js:121-129 | a valid event stays valid after the merge exactly when the supplied values are valid |
| Text.Trim | src/models/Event.js:5-9 | the trimmed string neither starts nor ends with whitespace, and is empty exactly when the input is all whitespace |
| Text.TrimSlice | src/models/Event.js:5-9 | the trimmed string is the slice of the input left after removing a leading and a trailing run of whitespace, and nothing else |
| Text.TrimIdempotent | src/models/Event.js:5-9 | trimming twice is trimming once |
| Text.Utf16Length | src/models/eventUpdate.js:15-16 | the length `minlength`/`maxlength` compare is between the number of characters and twice that |
| Text.Utf16LengthAstral | src/models/eventUpdate.js:16 | a string of characters outside the Basic Multilingual Plane counts two code units per character, so 60 emoji exceed the 100-unit title limit |
| Text.Utf16LengthBmp | src/models/eventUpdate.js:15-16 | a string of Basic Multilingual Plane characters counts one unit per character |
| Text.SlugShape | src/controllers/eventController.js:23 | the slug contains no whitespace and is lowercase |
| Text.SlugIdempotent | src/controllers/eventController.js:23 | applying the slug derivation twice equals applying it once |
| Text.SlugFixedPoint | src/controllers/eventController.js:23 | a string is its own slug exactly when it is lowercase and whitespace-free |
| Text.SlugIsNormalized | src/controllers/eventController.js:23 | the slug passes the uniqueId trim and lowercase setters unchanged |
| Text.SlugMatchesPattern | src/controllers/eventController.js:23 | a non-empty title of letters, digits, hyphens and whitespace yields a slug that matches the uniqueId pattern |
| Text.RunCollapses | src/controllers/eventController.js:23 | a leading maximal whitespace run becomes exactly one hyphen |
| Text.RunCollapsesAnywhere | src/controllers/eventController.js:23 | a maximal whitespace run anywhere in the string becomes exactly one hyphen, the text on either side collapsed on its own |
| Text.CollapseAppend | src/controllers/eventController.js:23 | behind a prefix that does not end in whitespace, the prefix and the rest are replaced independently |
| Text.CollapseChars | src/controllers/eventController.js:23 | every character of the replaced string is a hyphen or a non-space character of the input |
| Text.CollapseIdentity | src/controllers/eventController.js:23 | a string without whitespace is left alone by the replacement |
| EventStatics.CreateEventAsWritten | src/models/Event.js:72-91 | fails with nothing stored exactly when the community is missing, userId is not its creator, the document is invalid or its uniqueId is taken; a missing `createdBy` fails validation; otherwise stores the document built from eventData, with eventData's own createdBy and isActive (true by default), and appends its id to the end of that community's events, no other community changing |
| EventStatics.CreatorMismatch | src/models/Event.js:83-84 | the community's creator can store, through the static, an event whose createdBy is someone else, and the ownership invariant is then broken |
| EventStatics.CreateEventChecked | src/models/Event.js:72-91 | the same guards, but the event is stored with userId as its creator (eventData need not name one), eventData's isActive kept, and its id appended to the community's events, no other community changing, so every invariant is kept |
| CommunitySchema.RoleNamed | src/models/Commuinity.js:44-48 | the role enum accepts exactly "admin", "moderator" and "member" |
| CommunitySchema.NewCommunityValidation | src/controllers/communityController.js:30-38 | the new community is valid exactly when the name is non-blank and the normalised uniqueId matches `^[a-z0-9-]+$`; the creator is its only member (memberCount 1), with no duplicates |
| CommunitySchema.MemberAdded | src/models/Commuinity.js:84-89 | a user with an entry leaves the list unchanged; otherwise exactly `{user, role}` is appended at the end, earlier entries kept, and no duplicate is introduced |
| CommunitySchema.AddMemberIdempotent | src/models/Commuinity.js:85 | adding the same user twice is adding once |
| CommunitySchema.RemoveMemberSpec | src/models/Commuinity.js:91-94 | after removal no entry has the user; all other entries remain, in their original order; no duplicate is introduced |
| CommunitySchema.RemoveMemberCount | src/models/Commuinity.js:79-81 | in a list without duplicates, memberCount drops by one exactly when the user was a member |
| CommunitySchema.FirstIndexOf | src/models/Commuinity.js:97 | the position found holds the user and no earlier entry does |
| CommunitySchema.RoleUpdated | src/models/Commuinity.js:96-102 | with no entry for the user nothing changes; otherwise only the first matching entry gets the new role |
| CommunitySchema.RoleUpdateKeepsUsers | src/models/Commuinity.js:96-102 | a role change keeps the length, every entry's user, membership and the absence of duplicates |
| CommunitySchema.EventPulledSpec | src/controllers/eventController.js:152 | `$pull` leaves no occurrence of the id and keeps every other id in order; a list without the id is unchanged |
| CommunitySchema.EventPulledElements | src/controllers/eventController.js:152 | an id is in the pulled list exactly when it was in the list and is not the pulled id |
| CommunitySchema.UserCommunities | src/models/Commuinity.js:109-111 | exactly the communities with an entry for the user |
| CommunitySchema.AdminCommunities | src/models/Commuinity.js:113-122 | exactly the communities with an entry `{user, role: "admin"}`; a subset of the user's communities |
| Seqs.Filter | src/models/Commuinity.js:92 | the result is no longer than the input and every element passes the test |
| Seqs.FilterKeepsOrder | src/models/Commuinity.js:92 | the survivors are elements of the input in their original order, and every element that passes the test survives |
| Seqs.FilterAllKept | src/models/Commuinity.js:92 | a list whose elements all pass is returned unchanged |
| Database.EventAdded | src/controllers/eventController.js:53-57 | adding a valid event with a fresh uniqueId and appending its id to its community keeps the links; ownership survives exactly when the creators match |
| Database.EventRemoved | src/controllers/eventController.js:152-154 | pulling the id and deleting the event keeps every invariant, and no community lists the id afterwards |
| Database.MembersReplaced | src/models/Commuinity.js:84-102 | replacing a community's members by a list without duplicates keeps every invariant |
| Database.CommunityAdded | src/controllers/communityController.js:40 | adding a valid community with a fresh uniqueId and no events keeps every invariant |
| CommunityController.CreateCommunity | src/controllers/communityController.js:4-50 | 400 when the uniqueId is in use, 500 when invalid, no change; otherwise exactly one community is added, created by the caller with members exactly `[{caller, admin}]`, banner and logo only from uploads, existing communities untouched, and the caller's admin communities gain exactly the new id |
| CommunityController.StoreCommunity | src/controllers/communityController.js:40 | saving a validated community keeps every store invariant |
| CommunityController.AdminOfNew | src/controllers/communityController.js:30-38 | seeding the creator as admin adds exactly the new id to the creator's admin communities |
| CommunityController.GetAllCommunities | src/controllers/communityController.js:52-67 | 200 with every stored community and count equal to their number |
| CommunityMethods.AddMember | src/models/Commuinity.js:84-89 | an existing member changes nothing; an unknown role name fails the save and stores nothing; otherwise the entry is appended (role defaults to "member") and memberCount rises by one |
| CommunityMethods.RemoveMember | src/models/Commuinity.js:91-94 | the user's entries are filtered out, the user is no longer a member, memberCount drops by one exactly when the user was one |
| CommunityMethods.UpdateMemberRole | src/models/Commuinity.js:96-102 | no entry: nothing changes; unknown role: save fails, nothing stored; otherwise the first entry gets the role, memberCount unchanged |
| EventUpdates.EventUpdateDoc.constructor | src/models/eventUpdate.js:11-33 | title and content are trimmed, isEdited defaults to false, nothing counts as modified |
| EventUpdates.EventUpdateDoc.SetTitle | src/models/eventUpdate.js:11-17 | the title is stored trimmed and is marked modified only when the value changes |
| EventUpdates.EventUpdateDoc.SetContent | src/models/eventUpdate.js:18-23 | the content is stored trimmed and is marked modified only when the value changes |
| EventUpdates.EventUpdateDoc.Save | src/models/eventUpdate.js:39-44 | validation (event and createdBy present, trimmed title of 3 to 100 UTF-16 code units, trimmed content of at least 10) fails with nothing changed; otherwise isEdited becomes true when title or content was modified, is never cleared, and the record is stored |

## Left out

- Mail delivery (`sendOTPEmail`, the nodemailer transporter) is a no-op.
- JWT signing, bcrypt comparison, OTP randomness and the clock are parameters. The User model file
  is not part of this model: its OTP rule is taken as "the exact code, until ten minutes after it
  was drawn".
- `signup` passes the whole request body to `User.create`. Body fields other than email and
  password, such as a client-supplied `isVerified`, are not modelled.
- AuthController.Signup: email and password are taken as the only required fields, and the exact
  email string as the only unique key. Other validators or setters of the User schema (format,
  length, lowercasing) are not modelled, because the User model file is not part of this model.
- The `protect` middleware (JWT verification), Cloudinary uploads with the temporary-file cleanup,
  and Express routing and error handling are left out. An upload is an optional URL.
- `populate`, text indexes, timestamps and `joinedAt` are storage concerns and are left out.
- Concurrent requests are not modelled: each request is one atomic step. This includes the
  check-then-insert uniqueness race and the non-atomic event save followed by the community save.
- The Mongoose rule that every path set on a new document counts as modified is not modelled. The
  constructor marks nothing modified, and only later assignments do.
- Whitespace and lowercasing are ASCII only. Unicode `\s` and `toLowerCase` are not modelled.
- `date`, `startTime` and `endTime` are uninterpreted strings; Date casting is not modelled.
- `undefined` and `""` are one value, as are `undefined` and `0` for capacity.
- A missing title makes `createEvent` throw at `toLowerCase`. The model reaches the same 500
  through validation instead.
- An event's `community` always names a stored community (a store invariant). Nothing ties a
  community's or an event's `createdBy`, or the `caller` of a handler, to a stored user: the
  `protect` middleware that would guarantee it is outside the model. `updates` has no controller of
  its own.
- `capacity` is an integer. JavaScript numbers with a fractional part are not modelled: the source
  rejects 0.5 through `min: 1` and accepts 2.5.
- EventStatics.CreateEventAsWritten: `eventData.community` is always an id. A missing one finds no
  community and is rejected in the same way, so it is not modelled separately.
- `getAllEvents` and `Community.findByUniqueId` are outside the modelled core.
- CommunityMethods.UpdateMemberRole: `newRole` is always a string. A call with `undefined` is not
  modelled.
- CommunitySchema.RemoveMemberCount: requires a list without duplicates, which the store
  invariant guarantees. With duplicates, every entry of the user is removed.

## Findings

| source | as written | input that shows it | evidently intended | confidence | as-written member | corrected member |
|---|---|---|---|---|---|---|
| src/models/Event.js:83-84 | the static checks that `userId` created the community, then stores `new this(eventData)` with `eventData.createdBy` as given | the community's creator calls `Event.createEvent` with valid data whose `createdBy` is another user's id | the stored event is created by `userId`, the checked creator, as `createEvent` in the controller does | low, not executed | EventStatics.CreatorMismatch | EventStatics.CreateEventChecked |
