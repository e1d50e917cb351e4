# Medicare backend controllers in Dafny

A model of the three request handlers of the Medicare clinic backend:
- the user registry (`registerUser`, `loginUser`);
- the appointment store (`getAppointments`, `createAppointment`, `updateAppointment`, `deleteAppointment`);
- the two-party chat store (`getChats`, `createOrGetChat`, `sendMessage`, `getMessages`).

Each handler is a pure function. It takes the current store, the caller's user id and the request fields. It returns a `Reply` (status and body, or status and error message) and, where it can write, the next store (`Handled`).

Layout, one module per file:

- `http.dfy` (`Http`): user ids, optional body fields with JavaScript truthiness (`Truthy`, `OrElse` for `x || fallback`), and replies.
- `text.dfy` (`Text`): `String.prototype.trim` over the ECMA-262 white-space set, `toLowerCase` on ASCII letters, and the store's binary string order `LexLe`.
- `sorting.dfy` (`Sorting`): insertion sort by a total order. This stands for the store's `.sort(...)`.
- `auth.dfy` (`Auth`): the registry and the two auth handlers. bcrypt is a `Hasher` parameter. Its one assumed property is the predicate `Sound`: `compare(p, hash(salt, p))` holds for every salt and password.
- `appointments.dfy` (`Appointments`): the appointment map, with fresh ids taken from a counter.
- `chats.dfy` (`Chats`): the chats in creation order, with append-only message logs.

Users and chats are never removed by these handlers. So each of those stores is a sequence, and an id is the position in it. A `findOne` is modelled as returning the first match in that order. Appointments can be deleted, so they live in a map. A counter that only grows supplies fresh ids.

Behaviour of the handlers worth knowing:
- A caller who is not entitled to a record gets 401 "Not authorized".
- Appointment `status` is free text.
- `createOrGetChat` matches any chat that contains both users (`$all`), not a chat whose participants are exactly those two. `Chats.SelfChatJoinsAnyChat` shows what this means when a user starts a chat with themselves.
- The presence check in `registerUser` runs on the raw fields, before trimming. So an email of white space only passes the check, and the handler passes the empty string to `User.create` as the email (`Auth.BlankEmailRegistersEmpty`).

## Model

| member | source | states |
|---|---|---|
| Text.Trim | Medicare_system/Backend/controllers/authController.js:17-18 | `trim` returns the infix left after removing ECMA-262 white space at both ends; the removed prefix and suffix are all white space, and the result neither starts nor ends with white space |
| Text.TrimUnique | Medicare_system/Backend/controllers/authController.js:17-18 | any split of a string into white space, a word with no white space at either end, and white space trims to exactly that word |
| Text.TrimIdempotent | Medicare_system/Backend/controllers/authController.js:69 | trimming an already trimmed password changes nothing |
| Text.Lower | Medicare_system/Backend/controllers/authController.js:17 | lower-cases each character; only the ASCII letters A-Z change, and the length is kept |
| Text.LowerTrimCommute | Medicare_system/Backend/controllers/authController.js:17 | lower-casing then trimming equals trimming then lower-casing |
| Text.LexLeTotal | Medicare_system/Backend/controllers/appointmentController.js:13 | any two time strings are comparable in the store's string order |
| Text.LexLeTransitive | Medicare_system/Backend/controllers/appointmentController.js:13 | the store's string order is transitive |
| Sorting.SortBy | Medicare_system/Backend/controllers/appointmentController.js:13 | the sorted result is ordered step by step and is a permutation of the input; an input without duplicates gives a result without duplicates |
| Sorting.SortedPairwise | Medicare_system/Backend/controllers/chatController.js:12 | under a transitive order, a sequence ordered step by step is ordered between every pair of positions |
| Auth.NormaliseEmail | Medicare_system/Backend/controllers/authController.js:17 | `email.toLowerCase().trim()` equals the lower-cased trimmed email |
| Auth.NormaliseEmailIdempotent | Medicare_system/Backend/controllers/authController.js:68 | normalising an already normalised email changes nothing |
| Auth.FindByEmail | Medicare_system/Backend/controllers/authController.js:72 | `findOne({ email })` returns the first user with that email, and returns none exactly when no user has it |
| Auth.Register | Medicare_system/Backend/controllers/authController.js:8-54 | If name, email or password is absent or empty, the reply is 400 "Please provide name, email, and password" and the registry is unchanged. If the normalised email is taken, the reply is 400 "User already exists" and the registry is unchanged. Otherwise exactly one user is appended: the given name, the normalised email, the hash of the trimmed password, and the role if truthy, else "patient". The 201 reply carries that user's id, name, email and role, and a token with the same fields |
| Auth.Login | Medicare_system/Backend/controllers/authController.js:59-100 | If email or password is absent or empty, the reply is 400 "Please provide email and password". Otherwise every failure is the same 400 "Invalid email or password". A 200 reply names a stored user whose email is the normalised email and whose hash the hasher accepts for the trimmed password; the body carries that user's id, name, email and role, in the reply and in the token. The registry is only read |
| Auth.LoginSucceedsIff | Medicare_system/Backend/controllers/authController.js:72-81 | with unique emails, a login with both fields present succeeds if and only if some user has the normalised email and the hasher accepts the trimmed password against that user's hash |
| Auth.RegisterKeepsEmailsUnique | Medicare_system/Backend/controllers/authController.js:21-35 | registration preserves the invariant that no two users share an email |
| Auth.DuplicateEmailRefused | Medicare_system/Backend/controllers/authController.js:17-24 | a second registration whose email differs only in case or surrounding white space is refused with 400 "User already exists", and the registry stays as it was |
| Auth.RegisterThenLogin | Medicare_system/Backend/controllers/authController.js:68-95 | after a successful registration, a login succeeds when its email normalises to the registered one and its trimmed password equals the registered trimmed password. It replies 200 with the same session body the registration returned |
| Auth.LoginFailuresIndistinguishable | Medicare_system/Backend/controllers/authController.js:72-81 | a login with an unknown email and a login with a known email but a wrong password get identical replies |
| Auth.BlankEmailRegistersEmpty | Medicare_system/Backend/controllers/authController.js:13-18 | presence is checked before trimming, so with a white-space-only email the handler passes the empty string to `User.create` as the email |
| Appointments.EarlierIsTotal | Medicare_system/Backend/controllers/appointmentController.js:13 | any two appointments are comparable by (date, time) |
| Appointments.EarlierIsTransitive | Medicare_system/Backend/controllers/appointmentController.js:13 | the (date, time) order is transitive |
| Appointments.Involving | Medicare_system/Backend/controllers/appointmentController.js:8-10 | the `$or` filter: the entries are exactly the stored records below the id bound whose patient or doctor is the caller, each with its stored value, in increasing id order |
| Appointments.List | Medicare_system/Backend/controllers/appointmentController.js:8-13 | the listing holds exactly the stored appointments whose patient or doctor is the caller, each with its stored record, no id twice, each entry no later by (date, time) than the next |
| Appointments.ListedIds | Medicare_system/Backend/controllers/appointmentController.js:8-10 | the ids in a caller's listing are exactly the stored ids whose record names the caller as patient or doctor |
| Appointments.ListOrderedByDateTime | Medicare_system/Backend/controllers/appointmentController.js:13 | no entry of a listing comes after a later one by (date, time) |
| Appointments.Create | Medicare_system/Backend/controllers/appointmentController.js:28-34 | 201 with a record under a new id: the caller is the patient; doctor, date, time and reason are the inputs; status "pending" and empty notes. The store gains exactly that id, and every other record is unchanged |
| Appointments.CreatedIsListed | Medicare_system/Backend/controllers/appointmentController.js:28-34 | a created appointment appears in both the patient's and the doctor's listing |
| Appointments.Merge | Medicare_system/Backend/controllers/appointmentController.js:67-68 | status becomes the supplied status if it is a non-empty string and otherwise keeps the old one; notes likewise; every other field is unchanged |
| Appointments.Update | Medicare_system/Backend/controllers/appointmentController.js:53-70 | An unknown id gets 404 "Appointment not found" and the store is unchanged. A caller who is neither patient nor doctor gets 401 "Not authorized" and the store is unchanged. Otherwise only that record is replaced, by the merge, and the reply carries it |
| Appointments.EmptyUpdateChangesNothing | Medicare_system/Backend/controllers/appointmentController.js:67-68 | an update whose status and notes are both absent or empty leaves the store unchanged |
| Appointments.UpdateKeepsVisibility | Medicare_system/Backend/controllers/appointmentController.js:67-70 | an update leaves every caller's listing with the same set of appointment ids |
| Appointments.Delete | Medicare_system/Backend/controllers/appointmentController.js:87-99 | An unknown id gets 404 and the store is unchanged. Anyone but the patient gets 401 "Not authorized" and the store is unchanged. Otherwise exactly that id is removed, every other record is kept, and the reply is 200 "Appointment removed" |
| Appointments.DeletedIsNotListed | Medicare_system/Backend/controllers/appointmentController.js:98 | after a successful delete, the id is in no caller's listing |
| Appointments.DoctorCannotDelete | Medicare_system/Backend/controllers/appointmentController.js:94-96 | the doctor of an appointment, when not also its patient, gets 401 and the store is unchanged |
| Chats.FindBetween | Medicare_system/Backend/controllers/chatController.js:28-30 | the lookup returns the first chat that has both users among its participants, and returns none exactly when no chat does |
| Chats.Involving | Medicare_system/Backend/controllers/chatController.js:8-10 | the participants filter: the entries are exactly the chats below the id bound that the caller takes part in, each with its stored value, in increasing id order |
| Chats.List | Medicare_system/Backend/controllers/chatController.js:8-12 | the listing holds exactly the chats the caller takes part in, each with its stored value, no id twice, each entry's last activity no older than the next one's |
| Chats.ListMostRecentFirst | Medicare_system/Backend/controllers/chatController.js:12 | no chat in a listing comes after a chat with older last activity |
| Chats.GetOrCreate | Medicare_system/Backend/controllers/chatController.js:28-46 | If a chat with both users exists, the reply is 200 with the first such chat and the store is unchanged. Otherwise exactly one chat is appended, with participants [caller, other], no messages and last activity `now`, and the reply is 201 with it |
| Chats.GetOrCreateIdempotent | Medicare_system/Backend/controllers/chatController.js:28-34 | a second call for the same two users, in either order, returns the chat the first call returned and creates nothing |
| Chats.FoundChatIsThePair | Medicare_system/Backend/controllers/chatController.js:28-30 | in a store whose chats have two participants each, the chat returned for two distinct users has exactly those two as members |
| Chats.GetOrCreateKeepsInvariants | Medicare_system/Backend/controllers/chatController.js:28-39 | get-or-create keeps every chat at two participants with senders among them, and never creates a second chat for the same pair of users |
| Chats.SelfChatJoinsAnyChat | Medicare_system/Backend/controllers/chatController.js:28-33 | asking for a chat with oneself returns, unchanged and with 200, the first chat the caller takes part in, whoever the other participant is |
| Chats.SendMessage | Medicare_system/Backend/controllers/chatController.js:59-85 | An unknown chat gets 404 "Chat not found" whoever the caller is. A non-participant gets 401 "Not authorized". In both cases the store is unchanged. Otherwise the chat's log becomes the old log followed by one message {caller, content, now}, its last activity becomes `now`, its participants and every other chat are unchanged, and the reply is 201 with the updated chat |
| Chats.SendMessageKeepsInvariants | Medicare_system/Backend/controllers/chatController.js:66-77 | sending keeps every sender among the chat's participants and keeps pairs unique |
| Chats.GetMessages | Medicare_system/Backend/controllers/chatController.js:96-110 | 404 for an unknown chat, then 401 for a non-participant; otherwise 200 with the chat's stored log in append order; the store is only read |
| Chats.GetOrCreateAppendOnly | Medicare_system/Backend/controllers/chatController.js:37-39 | get-or-create removes no chat, changes no participants and keeps every log as a prefix |
| Chats.SendMessageAppendOnly | Medicare_system/Backend/controllers/chatController.js:76-77 | sending removes no chat, changes no participants and keeps every old log as a prefix of the new one |
| Chats.SendThenGetMessages | Medicare_system/Backend/controllers/chatController.js:70-79 | right after a successful send, reading the messages returns the old log followed by exactly the sent message |

## Left out

- Medicare_system/Backend/server.js: middleware wiring, health and metrics endpoints, the error-to-status mapping and process start-up and shutdown. This is infrastructure, not controller logic.
- The frontend (App.jsx, Navigation.jsx, AuthContext.jsx): UI rendering, routing, `fetch`, `localStorage` and token decoding on the client.
- The middleware that turns a bearer token into `req.user` is not part of this model. Every handler takes the caller's id as a parameter.
- bcrypt and `generateToken` are opaque. The hasher is a parameter constrained only by `Sound`. A token is modelled as the claims it carries. Signing, expiry and verification are not modelled.
- Auth.Register: states that the stored password field is the hasher's output on the trimmed password. That this is never the plaintext is a property of bcrypt, which is a parameter here.
- The `catch` branches that reply 500 are not modelled, because storage failures are outside the model. These include failures from malformed ids, a non-string body field (`toLowerCase` on a number throws), and a required field missing from a create.
- The `populate` expansion of users into name, email and role is display-only. Replies carry raw user ids.
- `toLowerCase` is modelled for the ASCII letters only. Full Unicode case mapping is not modelled.
- Text is compared by exact character equality. The store's exact-match lookups do no collation.
- Appointment `date` is a natural number (the date's time value). `time` is a string ordered by code point, as the store orders strings.
- Some values are not set by the handlers; they come from the schema files, which are not part of this model. The model uses status "pending" and empty notes for a new appointment, and the creation time `now` as a new chat's last activity.
- Some orderings are unspecified. The store does not order appointments with equal (date, time) or chats with equal last activity, and the model fixes one order (`Sorting.SortBy`). The contracts promise only sortedness and permutation.
- `sendMessage` reads the clock twice: once for the message timestamp and once for `lastMessage`. The model uses one clock value `now` for both.
- `findOne` without a sort returns the first match in the store's natural order, which the store does not guarantee to be insertion order. The model fixes id (insertion) order. This shows in `Chats.SelfChatJoinsAnyChat` and, for registries whose emails are not unique, in `Auth.FindByEmail`.
- The User schema's validation of created users is not modelled. If the schema rejects an empty email, the `User.create` reached by `Auth.BlankEmailRegistersEmpty` throws and the handler replies 500 instead.
- Chats.GetOrCreate: `participantId` is read from the body without a presence check. The model always has a user id there. What an absent value does in the `$all` query and in `Chat.create` is not modelled.
- Chats.SendMessage: `content` is read from the body without a presence check. The model always has a string there. A message with absent content, and whatever the Chat schema does with it, is not modelled.
- Concurrent requests and their interleaving are not modelled. Each handler is one atomic step.
