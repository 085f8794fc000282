# Event backend: RSVP admission control and the user store

This project models the two controllers of a small event-management REST
backend and proves properties of them in Dafny.

- **Events** (`events.dfy`, from `RocEventB/controllers/eventController.js`):
  an ordered store of event documents. The operations are `createEvent`, the
  listing `getEvents` with its optional case-insensitive search, `getEventById`,
  `rsvpEvent` and `deleteEvent`. `rsvpEvent` is the core: an advisory duplicate
  check, then one atomic conditional update (`findOneAndUpdate`) that appends
  the caller only while the attendee count is below the capacity.
- **Auth** (`auth.dfy`, from `controllers/authController.js`): an ordered store
  of user documents, looked up by exact, case-sensitive email. The operations
  are `registerUser`, `loginUser` and `updateProfile`.
- **Common** (`common.dfy`): `Option`, the `Step` pair of new store contents
  and reply, and first-match lookup. First-match is how `findOne` and
  `findById` pick a document in natural (insertion) order.

Each handler that writes appears twice. A step function maps the store's
contents to the new contents and the reply; the lemmas are about these
functions. A method of the store class (`EventStore`, `UserStore`) performs
the handler's reads and writes in sequence, and is proved to agree with the
step function and to keep the class invariant `Valid()`. Read-only handlers
(`getEvents`, `getEventById`, `loginUser`) are plain functions over the
store's contents.

Document ids are counters kept by the store. They stand in for the
database's generated ObjectIds, which makes ids unique by construction.

The load-bearing invariant is `WithinCapacity`: an event either has no
attendees, or has at most `capacity` of them. It is stated that way because
the capacity comes from the request body unchecked, so an event with zero or
negative capacity can exist; such an event never admits anyone.

bcrypt is modelled by an abstract key-derivation function `Kdf` of a salt and
a password. A stored `PasswordHash` keeps its salt, and `Compare` recomputes
the derivation with it. So "a password matches its own hash" is a proved
lemma (`CompareOwnHash`), not an assumption. The salt that `bcrypt.genSalt`
draws at random is a parameter of registration. A JSON Web Token (RFC 7519)
is modelled by its claims: the subject id, the signing key and the one-hour
lifetime. The signing secret from the environment is a parameter
`Option<string>`; it counts as present only when it is set and non-empty.

Behaviours the model keeps as the code has them:

- The RSVP reply does not tell a missing event apart from a full one. Both
  give 400 "Event is full or does not exist" (lines 93-94).
- The atomic update tests only the capacity, never membership (line 87).
  Only the advisory pre-check keeps a user from joining twice.
  `ConditionalPushIgnoresMembership` shows that the update alone would append
  a duplicate.
- The list response still carries each event's `attendees` array next to
  `attendeesCount` (line 155). Here the code and its comments disagree: the
  comments of the earlier listing (lines 38 and 42: replace the array with a
  count, remove it from the response) say otherwise, and line 151 says the live
  listing formats its reply the same way.
- `registerUser` saves the user before it signs the token (lines 18-21). With
  the secret missing, the reply is a 500 but the user is already stored, so a
  retry gets "User already exists". `RegisterNew` states this.

## Model

| member | source | states |
|---|---|---|
| `Common.FirstWhere` | controllers/authController.js:33 | the index returned satisfies the query and nothing before it does; no index means no element satisfies it (findOne's first match) |
| `Events.GetEventById` | RocEventB/controllers/eventController.js:55-61 | finds an event exactly when one with that id is stored, and returns a stored event with that id; otherwise 404 |
| `Events.CreateThenGet` | RocEventB/controllers/eventController.js:6-11 | after creating an event, fetching its new id returns the given title, description, date, location, capacity and images, the requester as organizer, and no attendees |
| `Events.CreatePreservesInvariants` | RocEventB/controllers/eventController.js:7-11 | creating an event keeps ids unique and below the counter, every event within capacity, and every attendee list free of repeats |
| `Events.EventStore.CreateEvent` | RocEventB/controllers/eventController.js:4-12 | appends exactly the new event, owned by the requester, returns it, and keeps `Valid()` |
| `Events.GetEvents` | RocEventB/controllers/eventController.js:125-163 | every card comes from a stored event the query selects; every selected event's card is listed; never more cards than events |
| `Events.ListingInStoreOrder` | RocEventB/controllers/eventController.js:141-156 | with or without a search term, of any two listed cards the earlier one is made from an earlier stored event (natural order, mapped one card per event) |
| `Events.ListingHasNoRepeats` | RocEventB/controllers/eventController.js:141-156 | when ids are unique, no two listed cards carry the same event id |
| `Events.ListAllWithoutSearch` | RocEventB/controllers/eventController.js:130-138 | with no search term or an empty one, the list has one card per stored event, in store order |
| `Events.SearchSelects` | RocEventB/controllers/eventController.js:131-137 | with a non-empty term, an event is selected exactly when the lower-cased term occurs in its lower-cased title or location |
| `Events.SearchIgnoresCase` | RocEventB/controllers/eventController.js:134-135 | two terms that differ only in letter case select the same events |
| `Events.HasInfixIff` | RocEventB/controllers/eventController.js:134 | the substring scan succeeds exactly when the needle occurs at some offset of the text |
| `Events.ListedCardsAreThumbnails` | RocEventB/controllers/eventController.js:141-156 | every listed card has at most one image, which is its event's first image (exactly one if the event has any), and an `attendeesCount` equal to the length of its event's attendee list |
| `Events.RsvpAlreadyJoined` | RocEventB/controllers/eventController.js:77-81 | the reply is 400 "already joined" exactly when the event exists and lists the user, and the store is then unchanged |
| `Events.RsvpJoins` | RocEventB/controllers/eventController.js:84-97 | RSVP succeeds exactly when the event exists, does not list the user, and has fewer attendees than its capacity; then it replies "RSVP Successful" with the event's id, appends the user at the end of that event's attendees (count grows by one), and leaves all other fields and events unchanged |
| `Events.RsvpFullOrMissing` | RocEventB/controllers/eventController.js:93-94 | a missing event and a full event both give the same 400 "Event is full or does not exist" reply with the store unchanged |
| `Events.ConditionalPushIgnoresMembership` | RocEventB/controllers/eventController.js:84-91 | the atomic update, applied alone to an event with room that already lists the user, appends the user again |
| `Events.RsvpPreservesInvariants` | RocEventB/controllers/eventController.js:87 | RSVP keeps every event within capacity, ids unique, attendee lists free of repeats, and the number and ids of events unchanged |
| `Events.SerialAdmission` | RocEventB/controllers/eventController.js:84-91 | for any order of N distinct newcomers to an event with R seats left, the first R are admitted and every later one gets "full or does not exist" |
| `Events.SerialAdmissionFinal` | RocEventB/controllers/eventController.js:84-91 | after those N RSVPs the event has exactly min(N, R) new attendees, appended in the order served, and nothing else in the store has changed |
| `Events.EventStore.FindOneAndPush` | RocEventB/controllers/eventController.js:84-91 | the atomic conditional update as one step: the new store and the returned document are those of `ConditionalPush`; capacity and ids stay valid |
| `Events.EventStore.Rsvp` | RocEventB/controllers/eventController.js:71-102 | pre-check, then the atomic update; the new store and reply are those of `RsvpStep`, and `Valid()` holds |
| `Events.DeleteRefused` | RocEventB/controllers/eventController.js:107-115 | 404 exactly when the id is missing; 401 exactly when the requester is not the organizer; both leave the store unchanged, so the event is still present after a 401 |
| `Events.DeleteRemoves` | RocEventB/controllers/eventController.js:117-118 | the organizer's delete removes exactly that event: one fewer event, none with that id, and every other event still stored in its previous order |
| `Events.DeletePreservesInvariants` | RocEventB/controllers/eventController.js:117 | deletion keeps ids unique and below the counter, capacities respected and attendee lists free of repeats |
| `Events.EventStore.DeleteEvent` | RocEventB/controllers/eventController.js:105-123 | the new store and reply are those of `DeleteStep`, and `Valid()` holds |
| `Auth.CompareOwnHash` | controllers/authController.js:15-17 | comparing a password with a hash made from it succeeds |
| `Auth.RegisterExisting` | controllers/authController.js:10-11 | a stored email is refused with 400 "User already exists" and nothing is saved |
| `Auth.RegisterNew` | controllers/authController.js:14-22 | a new email adds exactly one user at the end, storing the hash of the password (which matches it) and no profile fields; the reply is a token for the new id plus id, name and email, or 500 with the user stored anyway when the secret is missing |
| `Auth.RegisterPreservesInvariants` | controllers/authController.js:17-18 | registration keeps user ids unique and below the counter |
| `Auth.UserStore.RegisterUser` | controllers/authController.js:6-26 | the new store and reply are those of `RegisterStep`, and the id counter moves only when a user is saved |
| `Auth.Login` | controllers/authController.js:29-51 | for a string email and password: "Invalid Credentials" exactly when the email is unknown or the password does not match the hash of the first user stored under it; 500 exactly when the credentials match but the secret is missing; on success, a token for that first user stored under the email and a view of that user without the password |
| `Auth.LoginFailuresIndistinguishable` | controllers/authController.js:33-38 | an unknown email and a wrong password give the identical reply, 400 "Invalid Credentials" |
| `Auth.RegisterThenLogin` | controllers/authController.js:15-38 | after registering, logging in with the same email and password passes the credential check and logs in (or gives 500 when the secret is missing) |
| `Auth.UpdateTouchesOnlyProfile` | controllers/authController.js:55-63 | only age, mobile, profileImage and email of the caller's record change, each exactly when given; id, name, password and all other users stay; the reply is the new record without the password, or nothing when no user has that id |
| `Auth.ProfileHidesPassword` | controllers/authController.js:63 | the profile reply is the same whatever password is stored |
| `Auth.UpdatePreservesInvariants` | controllers/authController.js:59-62 | a profile update keeps user ids unique and below the counter |
| `Auth.UserStore.UpdateProfile` | controllers/authController.js:53-69 | the new store and reply are those of `UpdateStep`, and `Valid()` holds |

## Left out

- Concurrency of RSVP. The conditional update is one sequential step. The race between the duplicate pre-check (line 77) and the write (line 84) cannot be expressed sequentially. Under that race a user could be appended twice; `ConditionalPushIgnoresMembership` shows the write would allow it.
- Events.SerialAdmission: together with `SerialAdmissionFinal`, covers concurrent newcomers through the order in which their atomic updates are applied, not through an interleaving semantics.
- The first, shadowed `getEvents` (eventController.js lines 20-50): line 125 replaces it.
- `populate` expansion of organizer and attendees, `lean`, and field-projection mechanics. Organizer and attendees are kept as user ids. `attendeesCount` is the stored list's length; populating attendees could drop references to missing users and shrink it.
- `$regex` syntax: the search term is matched as a literal substring. Case is folded for ASCII letters only.
- The `Event` and `User` schemas are not part of this model. So are their validators, defaults other than the empty attendee list, and unique indexes. In particular, updateProfile may give two users the same email; login then uses the first one stored.
- Auth.Login: email and password are strings. A known email sent with a missing or non-string password makes bcrypt's compare throw ("Illegal arguments"), so lines 37 and 47-49 answer 500, while an unknown email answers 400 (line 34); that difference reveals which emails are registered, and the model's claims that the failures are indistinguishable and that 500 means a missing secret hold for string bodies only. An email sent as a query object (for example `{"$ne": ""}`) makes findOne at line 33 match the first stored user rather than an exact email, and is not modelled either.
- Auth.RegisterExisting: the email is a string; a query-object email at line 10 could match an unrelated user and refuse the registration.
- Absent request-body fields in createEvent and registerUser, and explicit `null` values in updateProfile. An absent profile field is `None` and leaves the stored value as it is, as Mongoose drops undefined keys from an update.
- Every 500 caused by the database (connection failures, malformed ids), the console logging, and the `error` text in the RSVP 500 payload.
- bcrypt salting internals and its cost factor, the signature bytes and encoding of the JSON Web Token, and the one-hour expiry as clock time. These are foreign cryptographic calls and need a clock.
- Capacity and date are integers. JavaScript numbers may be fractional: with a capacity of 2.5 the `$lt` test at line 87 admits a third attendee (2 < 2.5), so admission stops at the capacity rounded up and `WithinCapacity` (at most `capacity` attendees) holds only for integer capacities.
- Token verification, the auth middleware and the routing table (`routes/eventRoutes.js`): the middleware is not part of this model. Handlers receive the caller's id as a parameter.
- Both `server.js` files: startup, environment loading, database connection, middleware registration and `listen`.
