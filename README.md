# erinias-backend chat core, modelled in Dafny

This project models the core of the erinias chat backend. That is a Bun/Elysia
server over a PostgreSQL schema, with these parts:

- **REST layer.** The `beforeHandle` bearer-token guard, login and register,
  profile read and partial profile update, room creation with reuse of an
  existing private chat, and the message create and list use cases.
- **Repositories.** The user, room and message repositories behind those
  use cases.
- **Realtime layer.** The connection registry (`connectionManager`), room
  join and send, the WebSocket controller's `message`, `close` and
  `beforeHandle` handlers, and the socket authentication step.

Each source module is one Dafny module:

| Dafny module | source |
|---|---|
| `Schema` | the tables of `src/shared/infrastructure/db/schema.ts` |
| `Tables` | the two query shapes the repositories use |
| `Strings` | text order |
| `UserRepository`, `RoomRepository`, `MessageRepository` | the repositories |
| `RegisterUseCase`, `LoginUseCase`, `ProfileUseCase`, `UpdateProfileUseCase`, `CreateRoomUseCase`, `MessageUseCase` | the use cases |
| `AuthMiddleware` | the REST guard |
| `Sockets` | the socket object |
| `Connections` | `connectionManager.ts` |
| `WsRooms` | `rooms.ts` |
| `WsAuth` | `auth.ts` |
| `WebSocketController` | `ws.controller.ts` |

How the model represents the system:

- **Tables.** The database is a `Database` class. It holds one `seq` field
  per table, and the repositories change those fields in place.
- **Table invariant.** `Database.Valid` states every constraint the schema
  declares:
  - the primary keys;
  - unique `username` and `email`;
  - the unique `(user_id, room_id)` index;
  - the foreign keys of `user_room` and `message`;
  - every row id was handed out by the id generator.
- **Invariant kept.** Every state-changing method keeps `Database.Valid`.
- **Ids.** The Snowflake id generator is a fresh-id oracle. It keeps a ghost
  set of the ids it has issued. Nothing assumes that ids are ordered by time.
- **Text order.** Ids are compared in lexicographic order of their characters
  (`Strings.Less`), a strict total order. This stands for SQL `<`/`>` on text
  and for JavaScript's default sort of two strings; see "## Left out" for when
  the two agree with it.
- **Sockets.** A socket is a `Sockets.Socket` object with these fields:
  - `cookies`;
  - the bound `user`;
  - the set of room `subscriptions`;
  - the frames `sent` to it, in order;
  - the `published` events, as (room, frame) pairs;
  - `closed`, which holds the close code and reason once the socket is
    closed.
- **Connection registry.** A class over `map<Id, set<Socket>>`. The
  module-level `roomSubscriptions` record of `ws.controller.ts` is a field
  of the `WsController` class.
- **Token service.** `Token.validate`, `Token.renewTokens` and
  `Token.generate` are function parameters returning outcome datatypes. So
  are `Bun.password.hash` and `Bun.password.verify`. A thrown `ws.subscribe`
  is a boolean parameter, and the clock is a `now: nat` parameter.

What the code does, and the model with it:

- **REST token transport.** The guard reads the access token from a bearer
  `authorization` header and renews the pair from an `x-refresh-token`
  header.
- **Socket authentication.** `authenticateUser` reads the `access_token`
  cookie. Its call in the `message` handler is commented out
  (`ws.controller.ts:35`), so `WsAuth.AuthenticateUser` is modelled on its
  own and the handler does not call it.
- **Room subscriptions.** Nothing in the code fills `roomSubscriptions`. The
  `close` handler is modelled over whatever the record holds.
- **Two defects, modelled as written.** `CreateRoomUseCase.CreateRoom` and
  `MessageRepository.GetMessages` do what the code does, defects included. The
  corrected behaviour of each is a separate definition with its properties
  proved (see "## Findings").

## Model

| member | source | states |
|---|---|---|
| `Tables.FirstIndex` | src/user/infrastructure/user.repository.ts:43-49 | the index found is the first row satisfying the filter; `None` exactly when no row does |
| `Tables.First` | src/user/infrastructure/user.repository.ts:59-65 | `rows[0]` of a filtered select: a matching row of the table, or `None` exactly when no row matches |
| `Tables.Where` | src/user/infrastructure/user.repository.ts:51-57 | a filtered select holds exactly the matching rows of the table, each at most as often as in the table |
| `Strings.LessIrreflexive` | src/room/infrastructure/room.repository.ts:41 | no id sorts before itself |
| `Strings.LessAsymmetric` | src/room/infrastructure/room.repository.ts:41 | two ids never sort before each other |
| `Strings.LessTransitive` | src/message/infrastructure/message.repository.ts:51-53 | the text order used by `gt`/`lt` on ids is transitive |
| `Strings.LessTotal` | src/message/infrastructure/message.repository.ts:51-53 | any two distinct ids are comparable |
| `Strings.Sort2` | src/room/infrastructure/room.repository.ts:41 | `[a, b].sort()` is a permutation of the pair, with the smaller id first |
| `Strings.Sort2Symmetric` | src/room/infrastructure/room.repository.ts:41 | sorting the pair makes it independent of the order the two ids were given in |
| `Schema.Snowflake.Generate` | src/user/infrastructure/user.repository.ts:34 | every id handed out is one never handed out before |
| `Schema.Database.SetUsers` | src/shared/infrastructure/db/schema.ts:17-18 | a table write keeps every declared constraint of the database |
| `UserRepository.Create` | src/user/infrastructure/user.repository.ts:22-41 | `create` fails with "Username or email is already in use", inserting nothing, exactly when some user has the same username or the same email; otherwise it appends one row with a fresh id, the given password string as `passwordHash` and the column defaults, and returns that id and username; other tables untouched |
| `UserRepository.GetByEmail` | src/user/infrastructure/user.repository.ts:43-49 | the user found has the requested email; `None` exactly when no user has it |
| `UserRepository.GetByUsername` | src/user/infrastructure/user.repository.ts:51-57 | the result is exactly the users with that username |
| `UserRepository.GetById` | src/user/infrastructure/user.repository.ts:59-65 | the user found has the requested id; `None` exactly when the id is not in the table |
| `UserRepository.GetByEmailUnique` | src/shared/infrastructure/db/schema.ts:18 | with unique emails, looking up a stored user's email finds that very user |
| `UserRepository.GetByIdUnique` | src/user/infrastructure/user.repository.ts:59-65 | with a primary key, looking up a stored user's id finds that very user |
| `UserRepository.ReplaceById` | src/user/infrastructure/user.repository.ts:67-69 | an update keeps the table's length and the id at every position, and the new row is stored exactly when its id is in the table |
| `UserRepository.ReplaceByIdRows` | src/user/infrastructure/user.repository.ts:67-69 | `update ... where id` replaces the row with that id and keeps every other row, position by position |
| `UserRepository.ReplaceByIdKeepsIds` | src/user/infrastructure/user.repository.ts:67-69 | an update neither adds nor removes an id |
| `UserRepository.ReplaceByIdValid` | src/user/infrastructure/user.repository.ts:67-69 | an update that clashes with no other user's username or email keeps the table's unique constraints |
| `UserRepository.Update` | src/user/infrastructure/user.repository.ts:67-69 | the update is refused, changing nothing, exactly when the user exists and another user already holds its new username or email; otherwise the row with that id is replaced |
| `UserRepository.ToProfile` | src/user/infrastructure/user.repository.ts:71-80 | username, id and avatar are copied; a null `createdAt` becomes now, a null `isActive` true and a null `role` "user" |
| `UserRepository.NewUserProfile` | src/user/infrastructure/user.repository.ts:31-40 | a freshly created user's profile is active, with role "user" and no avatar |
| `RegisterUseCase.Register` | src/auth/application/register.usecase.ts:19-34 | an existing email fails with "Account already exists", creating nothing and leaving the password alone; otherwise the request's password is overwritten by its hash before the insert, so the stored `passwordHash` is the hash, and the response is the created id and username |
| `RegisterUseCase.DuplicateUsernameRefused` | src/user/infrastructure/user.repository.ts:23-30 | a taken username makes the request `Taken` whatever its email; the refusal is `UserRepository.Create`'s ensures, which `Register` passes on |
| `LoginUseCase.RefreshCookie` | src/auth/application/login.usecase.ts:42-53 | the refresh cookie carries the token, path "/", httpOnly, sameSite "none", secure, and the refresh expiry as `maxAge` |
| `LoginUseCase.AccessCookie` | src/auth/application/login.usecase.ts:42-47 | the access cookie carries the token and the same shared options, and no `maxAge` |
| `LoginUseCase.CheckCredentials` | src/auth/application/login.usecase.ts:25-37 | success names a stored user with that email whose hash verifies the password; every failure is the same "Invalid credentials" |
| `LoginUseCase.CheckCredentialsFailsIff` | src/auth/application/login.usecase.ts:25-37 | with unique emails, login fails exactly when no user with that email has a hash accepting the password, so an unknown email and a wrong password cannot be told apart |
| `LoginUseCase.Login` | src/auth/application/login.usecase.ts:20-66 | it fails exactly when the credentials fail, and then sets no cookie; on success it generates tokens for that user, sets the refresh and access cookies, and returns exactly the user's id and username |
| `LoginUseCase.RegisteredUserCanLogIn` | src/auth/application/register.usecase.ts:27-28 | after registration stores `hash(password)`, logging in with that email and password finds the new user |
| `ProfileUseCase.GetProfile` | src/user/application/profile.usecase.ts:22-40 | fails with "User not found" exactly for an unknown id; otherwise the profile is that user's |
| `ProfileUseCase.GetProfileAgreesWithToProfile` | src/user/application/profile.usecase.ts:29-36 | the use case's projection agrees, field for field and default for default, with `toProfile` |
| `UpdateProfileUseCase.ApplyUpdates` | src/user/application/update.usecase.ts:35-43 | each of username, avatar and role is overwritten exactly when supplied; every other field, and the id, is kept |
| `UpdateProfileUseCase.StoredAfter` | src/user/application/update.usecase.ts:29-45 | the stored users after the use case: the same ids, unchanged for an unknown user, and no other user's row touched |
| `UpdateProfileUseCase.UpdateProfile` | src/user/application/update.usecase.ts:23-50 | an unknown id throws "User not found"; otherwise the stored user becomes the fetched one with the supplied fields overwritten, unless that clashes with another user, and the result is its profile; other tables untouched |
| `UpdateProfileUseCase.NoConflictAfterReplace` | src/user/application/update.usecase.ts:45 | once an update is stored, repeating it clashes with no one |
| `UpdateProfileUseCase.ReplaceByIdIdempotent` | src/user/infrastructure/user.repository.ts:67-69 | writing the same row twice is writing it once |
| `UpdateProfileUseCase.UpdateTwiceIsOnce` | src/user/application/update.usecase.ts:35-45 | sending the same update twice leaves the same stored users as sending it once |
| `RoomRepository.Create` | src/room/infrastructure/room.repository.ts:11-22 | appends one room with a fresh id, the given name or null, and both dates now; it returns the id and, under `username`, the name |
| `RoomRepository.InsertRoomKeepsTables` | src/room/infrastructure/room.repository.ts:15-19 | inserting a room with a fresh id keeps every table constraint |
| `RoomRepository.AppendRoomValid` | src/room/infrastructure/room.repository.ts:15-19 | a room with a new id keeps room ids unique |
| `RoomRepository.GetByName` | src/room/infrastructure/room.repository.ts:24-30 | the result is exactly the rooms with that name |
| `RoomRepository.GetById` | src/room/infrastructure/room.repository.ts:32-38 | the room found has the id; `None` exactly when no room has it |
| `RoomRepository.GetPrivateChat` | src/room/infrastructure/room.repository.ts:40-66 | a room found is a stored room with a membership row for both users; `None` exactly when no room has both |
| `RoomRepository.GetPrivateChatSymmetric` | src/room/infrastructure/room.repository.ts:41 | `getPrivateChat(a, b)` equals `getPrivateChat(b, a)` |
| `RoomRepository.AddUserToRoom` | src/room/infrastructure/room.repository.ts:68-77 | inserts one "member" row exactly when the pair is not a member yet and both the user and the room exist; a second membership is refused by the unique index, and a refusal changes nothing |
| `RoomRepository.InsertMembershipKeepsTables` | src/shared/infrastructure/db/schema.ts:92 | a new (user, room) membership between existing rows keeps every table constraint |
| `RoomRepository.AppendMembershipValid` | src/shared/infrastructure/db/schema.ts:92 | a new pair keeps `(user_id, room_id)` unique |
| `RoomRepository.SecondMembershipRefused` | src/shared/infrastructure/db/schema.ts:92 | after a membership is inserted, the same pair is a member; `AddUserToRoom`'s ensures refuses an insert for a member pair |
| `CreateRoomUseCase.FromNullable` | src/room/application/create.usecase.ts:46 | a nullable column reads as a value or `null`, never `undefined` |
| `CreateRoomUseCase.ViewOf` | src/room/application/create.usecase.ts:40-51 | the room response carries the row's id, name (or null) and both dates |
| `CreateRoomUseCase.NewRoomView` | src/room/application/create.usecase.ts:63-73 | the new room's response as written: it carries the new id, and differs from the response any stored row would give |
| `CreateRoomUseCase.NewRoomViewLosesName` | src/room/application/create.usecase.ts:63-73 | as written, whatever name the room was created with, its response has name and dates undefined, unlike the response built from the stored row |
| `CreateRoomUseCase.CreatedRoomViewCarriesRow` | src/room/application/create.usecase.ts:56-73 | corrected: built from the inserted row, the response carries the requested name (or null) and the creation date |
| `CreateRoomUseCase.PrivateNeedsTwoUsers` | src/room/application/create.usecase.ts:34 | `isPrivate` with a number of users other than two never meets `ReusesPrivateChat`; `CreateRoom`'s ensures then creates a new room |
| `CreateRoomUseCase.AddedInOrderSnoc` | src/room/application/create.usecase.ts:59-61 | one more insert extends the list-order correspondence by one user |
| `CreateRoomUseCase.AllAddableSnoc` | src/room/application/create.usecase.ts:59-61 | the loop's record of the users added so far extends by one |
| `CreateRoomUseCase.NewRoomMembers` | src/room/application/create.usecase.ts:59-61 | after the loop, the members of the new room are exactly the listed users |
| `CreateRoomUseCase.AddMembers` | src/room/application/create.usecase.ts:59-61 | adds every listed user to the room, one membership each, in list order; it fails exactly when some user is unknown or listed twice, stopping at the first such user with the earlier ones added |
| `CreateRoomUseCase.CreateRoom` | src/room/application/create.usecase.ts:31-80 | private with two users and a shared chat returns that chat and creates nothing; otherwise one room named as requested (or null) is created and the loop runs; success exactly when every listed user can be added, and the response is the as-written one of the new id, with name and dates undefined; every failure is an error response, not a throw |
| `MessageRepository.Create` | src/message/infrastructure/message.repository.ts:13-40 | an unknown room throws "Room with ID … does not exist." and takes no id; a missing or unknown author is refused by the database; otherwise one row is appended with a fresh id, the room, the content and author, both dates now and `edited` false, and that row is returned |
| `MessageRepository.InsertIntoRoom` | src/message/infrastructure/message.repository.ts:25-37 | once the room exists: a missing author violates NOT NULL, an unknown one the foreign key, and otherwise one row with a fresh id, the content and author, both dates now and `edited` false is appended and returned |
| `MessageRepository.InsertRow` | src/message/infrastructure/message.repository.ts:26-37 | the insert appends the row and keeps every table constraint |
| `MessageRepository.RoomExists` | src/message/infrastructure/message.repository.ts:15-19 | the room check succeeds exactly when the room id is in the table |
| `MessageRepository.AppendMessageValid` | src/message/infrastructure/message.repository.ts:26-37 | a message with a new id, an existing author and an existing room keeps the message constraints |
| `MessageRepository.BeforeAsymmetric` | src/message/infrastructure/message.repository.ts:65-67 | the order keys are strict |
| `MessageRepository.NotBeforeTransitive` | src/message/infrastructure/message.repository.ts:65-67 | the order keys are total preorders |
| `MessageRepository.Insert` | src/message/infrastructure/message.repository.ts:65-67 | inserting into a sorted list keeps it sorted, and adds exactly that message |
| `MessageRepository.PrependSorted` | src/message/infrastructure/message.repository.ts:65-67 | a message not after the head can be put in front |
| `MessageRepository.ConsSorted` | src/message/infrastructure/message.repository.ts:65-67 | the head stays in front of a sorted permutation of the rest plus the new message |
| `MessageRepository.Sort` | src/message/infrastructure/message.repository.ts:65-67 | `orderBy(desc(...))` gives a sorted permutation of the rows |
| `MessageRepository.Matching` | src/message/infrastructure/message.repository.ts:46-53 | the query selects exactly the stored messages that satisfy every condition |
| `MessageRepository.MatchingCons` | src/message/infrastructure/message.repository.ts:46-53 | a row is selected exactly when it satisfies every condition, whatever the rows around it |
| `MessageRepository.Query` | src/message/infrastructure/message.repository.ts:65-69 | the result is the sorted selection cut at the limit: only matching rows, in order, as many as the limit allows; without a limit, all of them |
| `MessageRepository.SortKeepsMembers` | src/message/infrastructure/message.repository.ts:65-67 | sorting adds no row |
| `MessageRepository.SortedPrefix` | src/message/infrastructure/message.repository.ts:63 | a `limit` keeps the order |
| `MessageRepository.GetMessagesRequest.constructor` | src/message/application/message.usecase.ts:58-61 | the request holds the given limit and cursor |
| `MessageRepository.Conditions` | src/message/infrastructure/message.repository.ts:46-53 | as written, a message satisfies the conditions exactly when it is in the room and, when a cursor is given, its id is greater than the cursor |
| `MessageRepository.OlderConditions` | src/message/infrastructure/message.repository.ts:46-53 | corrected: in the room and, when a cursor is given, an id smaller than the cursor |
| `MessageRepository.ClampedLimit` | src/message/infrastructure/message.repository.ts:55-62 | a given limit is clamped into [0, 100] (above 100 gives 100, negative gives 0, anything in range is kept); an absent or zero limit is left as it is |
| `MessageRepository.LimitBound` | src/message/infrastructure/message.repository.ts:55-63 | the query has a limit exactly when a nonzero limit was given, and it is the clamped value |
| `MessageRepository.NewestFirstPageContents` | src/message/infrastructure/message.repository.ts:42-70 | as written, each listed message is in the room and after the cursor, and the list is newest `createdAt` first |
| `MessageRepository.NewestFirstPage` | src/message/infrastructure/message.repository.ts:46-67 | the page as written: only messages of the room with an id greater than the cursor, newest `createdAt` first, at most 100 when a limit is given |
| `MessageRepository.OlderPage` | src/message/infrastructure/message.repository.ts:46-67 | the corrected page: only messages of the room with an id smaller than the cursor, largest id first, at most 100 when a limit is given |
| `MessageRepository.GetMessages` | src/message/infrastructure/message.repository.ts:42-70 | writes the clamped limit back into `params.limit` and returns the room's page as written: `id > cursor`, newest `createdAt` first, cut at the clamped limit |
| `MessageRepository.OlderPageContents` | src/message/infrastructure/message.repository.ts:46-67 | corrected: each listed message is in the room and before the cursor, and ids descend |
| `MessageRepository.PageBounded` | src/message/infrastructure/message.repository.ts:55-63 | a positive limit bounds the page, and no page with a limit is longer than 100 |
| `MessageRepository.NegativeLimitListsNothing` | src/message/infrastructure/message.repository.ts:60-62 | a negative limit becomes `limit 0`, an empty page |
| `MessageRepository.UnboundedPageIsComplete` | src/message/infrastructure/message.repository.ts:55 | with no limit, or a limit of 0, every matching message is listed |
| `MessageUseCase.CreateMessage` | src/message/application/message.usecase.ts:33-56 | success exactly when the room and the author exist, and it returns the inserted row; every failure becomes an error response and inserts nothing; it never throws |
| `MessageUseCase.NextCursor` | src/message/application/message.usecase.ts:96 | the cursor is the last message's id, and it is absent exactly for an empty list |
| `MessageUseCase.GetMessages` | src/message/application/message.usecase.ts:88-105 | the repository's list as written, unchanged, with the last message's id as cursor |
| `MessageUseCase.NewestFirstCursorRepeats` | src/message/infrastructure/message.repository.ts:51-53 | as written, with ids a < b < c created in that order and a limit of 2, page one is [c, b] with cursor "b", and the next page is [c] again, so a is never reached |
| `MessageUseCase.FirstPageOfThree` | src/message/infrastructure/message.repository.ts:65-67 | as written, the first page of three messages with a limit of 2 is the newest two |
| `MessageUseCase.MatchingAllThree` | src/message/infrastructure/message.repository.ts:46 | without a cursor, every message of the room is selected |
| `MessageUseCase.NextPageOfThree` | src/message/infrastructure/message.repository.ts:51-53 | as written, the page after cursor "b" is [c] again |
| `MessageUseCase.MatchingAfterB` | src/message/infrastructure/message.repository.ts:51-53 | as written, `id > "b"` selects only c |
| `MessageUseCase.OnlyCAfterB` | src/message/infrastructure/message.repository.ts:51-53 | only c's id is greater than "b" |
| `MessageUseCase.SortedThree` | src/message/infrastructure/message.repository.ts:65-67 | three messages created at 1, 2 and 3 sort newest first |
| `MessageUseCase.SameIdSameMessage` | src/shared/infrastructure/db/schema.ts:109 | two messages of the table with the same id are the same row |
| `MessageUseCase.CursorIsSmallestId` | src/message/application/message.usecase.ts:96 | corrected: no message of a page has an id below the cursor the page hands out |
| `MessageUseCase.LastIsSmallest` | src/message/application/message.usecase.ts:96 | in a list sorted by descending id, the last id is the smallest |
| `MessageUseCase.OlderPagesDisjoint` | src/message/application/message.usecase.ts:96 | corrected: the next page fetched with a page's cursor shares no message with that page |
| `MessageUseCase.OlderPagesSkipNothing` | src/message/application/message.usecase.ts:96 | corrected: a selected message that the limit cut off is selected by the next page's filter, so paging skips nothing |
| `AuthMiddleware.UpToSpace` | src/shared/infrastructure/middlewares/auth.middleware.ts:15 | `split(" ")[0]` is the longest space-free prefix |
| `AuthMiddleware.BearerToken` | src/shared/infrastructure/middlewares/auth.middleware.ts:13-16 | a token is found only in an `authorization` header starting with "Bearer ", and it is the nonempty text after it |
| `AuthMiddleware.BearerTokenOf` | src/shared/infrastructure/middlewares/auth.middleware.ts:13-16 | "Bearer " followed by a space-free token, then a space or nothing, yields exactly that token |
| `AuthMiddleware.UpToSpaceOf` | src/shared/infrastructure/middlewares/auth.middleware.ts:15 | a space-free field followed by a space or nothing is what `split(" ")` returns |
| `AuthMiddleware.Decide` | src/shared/infrastructure/middlewares/auth.middleware.ts:6-55 | every denial writes no header, and a renewal is only ever made with the request's nonempty `x-refresh-token` |
| `AuthMiddleware.BeforeHandle` | src/shared/infrastructure/middlewares/auth.middleware.ts:6-55 | applies the decision: a pass leaves the status alone; a denial sets 401 and returns the `{status: "error", message}` body; the headers change only by the decision's writes |
| `AuthMiddleware.AuthRoutesPass` | src/shared/infrastructure/middlewares/auth.middleware.ts:9-11 | login and register pass whatever the headers and the token service say |
| `AuthMiddleware.NoBearerIsMissingToken` | src/shared/infrastructure/middlewares/auth.middleware.ts:13-22 | without a Bearer `authorization` header, a guarded route gets "Missing access token" |
| `AuthMiddleware.ValidationOutcomes` | src/shared/infrastructure/middlewares/auth.middleware.ts:24-53 | a valid token proceeds with nothing written; a falsy result is "Invalid access token"; any error other than expiry is "Invalid token"; none of these renews |
| `AuthMiddleware.ExpiryOutcomes` | src/shared/infrastructure/middlewares/auth.middleware.ts:31-49 | an expired token without a refresh header is "Access token expired" with no renewal; with one, exactly one renewal is made with it: falsy gives "Invalid refresh token", a throw gives "Failed to refresh tokens", success rewrites both headers and proceeds |
| `AuthMiddleware.WritesOnlyOnRenewal` | src/shared/infrastructure/middlewares/auth.middleware.ts:44-45 | headers are rewritten if and only if a renewal succeeded |
| `AuthMiddleware.RenewalOnlyOnExpiry` | src/shared/infrastructure/middlewares/auth.middleware.ts:31-42 | a renewal is attempted if and only if a guarded route carried an expired bearer token and a refresh header |
| `AuthMiddleware.ResponseSet.constructor` | src/shared/infrastructure/middlewares/auth.middleware.ts:6 | a response starts with no status and no headers |
| `Connections.Added` | src/websocket/application/connectionManager.ts:6-11 | `add` creates the user's entry if absent, adds the socket to it, and leaves every other user's entry as it was |
| `Connections.Removed` | src/websocket/application/connectionManager.ts:13-21 | a falsy or unknown user changes nothing; otherwise only that socket leaves the user's set, and the entry is dropped exactly when the set becomes empty |
| `Connections.AddedKeepsInvariant` | src/websocket/application/connectionManager.ts:6-11 | after `add`, no user maps to an empty set |
| `Connections.RemovedKeepsInvariant` | src/websocket/application/connectionManager.ts:17-20 | after `remove`, no user maps to an empty set |
| `Connections.AddIdempotent` | src/websocket/application/connectionManager.ts:10 | adding a socket twice is adding it once |
| `Connections.RemovedSocketGone` | src/websocket/application/connectionManager.ts:17 | after `remove`, the socket is no longer among that user's sockets |
| `Connections.RemoveUndoesAdd` | src/websocket/application/connectionManager.ts:6-21 | removing a socket just added, which was not there before, restores the registry |
| `Connections.ConnectionManager.constructor` | src/websocket/application/connectionManager.ts:3 | the registry starts empty |
| `Connections.ConnectionManager.Add` | src/websocket/application/connectionManager.ts:6-11 | the registry becomes `Added` of the old one, keeping the no-empty-set invariant |
| `Connections.ConnectionManager.Remove` | src/websocket/application/connectionManager.ts:13-21 | the registry becomes `Removed` of the old one, keeping the no-empty-set invariant |
| `Connections.ConnectionManager.Get` | src/websocket/application/connectionManager.ts:23-25 | the stored set, which is never empty, or `None` exactly when the user has no entry |
| `Connections.ConnectionManager.BroadcastTo` | src/websocket/application/connectionManager.ts:27-34 | every socket of the user receives the one payload exactly once, a user with no entry gets nothing, and the registry is unchanged |
| `Sockets.Socket.constructor` | src/websocket/infrastructure/ws.controller.ts:28 | a new socket has no user, no subscription, nothing sent or published, and is open |
| `WsRooms.JoinRoom` | src/websocket/application/rooms.ts:8-19 | afterwards the socket is subscribed to the room, and a second join adds nothing; a thrown subscribe, which can only happen when it was not subscribed, changes nothing and escapes |
| `WsRooms.MessageEnvelope` | src/websocket/application/rooms.ts:43-49 | the published frame is `{type: "message", content, domain, authorId, room}` |
| `WsRooms.SendMessage` | src/websocket/application/rooms.ts:22-56 | an unsubscribed socket persists and publishes nothing; a subscribed one persists one message in the room with its own user as author and then publishes its envelope, exactly when that insert succeeds, and otherwise changes nothing; it never sends and never throws |
| `WsAuth.AccessTokenCookie` | src/websocket/application/auth.ts:5-7 | the cookie token is present exactly when `access_token` is set and nonempty |
| `WsAuth.AuthenticateUser` | src/websocket/application/auth.ts:4-11 | a missing token or a falsy validation closes with 1008 "Failed to authenticate" and binds no user; a valid token binds its user id and does not close; a user is bound only when the socket is not closed |
| `WebSocketController.WithoutSocket` | src/websocket/infrastructure/ws.controller.ts:60-62 | every room key stays, the socket is in no room's set, and every other socket stays where it was |
| `WebSocketController.WithoutSocketIdempotent` | src/websocket/infrastructure/ws.controller.ts:57-63 | closing the same socket twice is closing it once |
| `WebSocketController.ReportError` | src/websocket/infrastructure/ws.controller.ts:48-53 | exactly one `{status: "error", message: "Error al procesar el mensaje"}` frame is sent |
| `WebSocketController.Dispatch` | src/websocket/infrastructure/ws.controller.ts:39-45 | "join" changes nothing further, because the socket is already subscribed; "message" has exactly `sendMessage`'s effect; other types do nothing |
| `WebSocketController.Respond` | src/websocket/infrastructure/ws.controller.ts:37-54 | after a failed join exactly one error frame is sent and nothing else changes; otherwise the frame is dispatched and nothing is sent |
| `WebSocketController.WsController.constructor` | src/websocket/infrastructure/ws.controller.ts:7 | `roomSubscriptions` starts empty |
| `WebSocketController.WsController.BeforeHandle` | src/websocket/infrastructure/ws.controller.ts:17-27 | the upgrade is always accepted |
| `WebSocketController.WsController.Message` | src/websocket/infrastructure/ws.controller.ts:33-55 | every frame first joins its room; if that join throws, exactly one error frame is sent and nothing else changes; otherwise the socket ends subscribed, nothing is sent, and the frame is dispatched on its type; the socket is never closed |
| `WebSocketController.WsController.Close` | src/websocket/infrastructure/ws.controller.ts:57-63 | the socket is removed from every room's set, and all else stays |

## Left out

- Token service: signing, expiry, refresh records and rotation are not part of this model. `Token.validate`, `Token.renewTokens`, `Token.generate` and `Token.getExpiryInMs` are parameters.
- Password hashing and verification are parameters (`hash`, `verify`), with nothing assumed about them.
- Snowflake ids: the generator is an oracle handing out unused ids. Their values and their order in time are not modelled.
- Time: `new Date()` and the database's `defaultNow()` are a `now: nat` parameter.
- Library behaviour of Bun/Elysia:
  - `ws.subscribe` and `ws.isSubscribed` become a subscription set.
  - `ws.publish` is recorded as a (room, frame) event; who receives a publish is not modelled.
  - `ws.send` is recorded in `sent`.
  - JSON serialisation is opaque: a frame is sent as the value itself.
- WebSocketController.WsController.Message: `authenticateUser` is not called, matching `ws.controller.ts:35`, where its call is commented out.
- WebSocketController.WsController.Close: `roomSubscriptions` is modelled as a map of value sets. Sharing one `Set` object between keys, possible in JavaScript, is not modelled; the code never shares one.
- WebSocketController.Dispatch: the only exception modelled is `ws.subscribe` throwing. `sendMessage` catches everything of its own.
- Asynchronous interleavings: every handler runs to completion as one sequential method.
- Database errors: refusals by a constraint are `Violation` values naming the constraint; the driver's error text is not modelled. The catch blocks' fallback texts for a thrown non-`Error` ("Failed to create message", "Failed to get messages", "Failed to create room") are not modelled, because every failure modelled is an `Error`.
- MessageRepository.Query: the database may order messages with equal sort keys as it likes; the model fixes one such order (that of `Sort`). Every lemma about a page states only what holds for any order: sortedness, membership and length.
- RoomRepository.GetPrivateChat: `.limit(1)` without an `orderBy` lets PostgreSQL return any room holding both memberships, for example a group room the two users share rather than their private chat. The model takes the first such room in table order, a choice of one order the database may use; its contract promises only some such room, but `CreateRoomUseCase.CreateRoom` returns `ViewOf` of that one row, so which shared room is reused when there are several is not modelled.
- Schema.Room and Schema.Message: `createdAt` and `updatedAt` are nullable columns (schema.ts:72-73 and 117-118) but are modelled as `nat`, because every insert of the code sets both to the current time. Rows with null dates written by other means are therefore not modelled: `CreateRoomUseCase.ViewOf` never returns a null date for a reused chat, and `orderBy(desc(createdAt))` never meets PostgreSQL's NULLS FIRST placement of such rows.
- Strings.Less: lexicographic order of characters agrees with PostgreSQL's text comparison only under the "C" collation, and with JavaScript's `sort`, which compares UTF-16 code units, only for characters of the Basic Multilingual Plane. The model assumes both, which holds for ids made of decimal digits; other collations and characters outside that plane are not modelled.
- MessageRepository.ClampedLimit: the limit is an integer; fractional JavaScript numbers are not modelled.
- Cookies and header values are strings; an empty string stands for every falsy value.
- HTTP and app glue (the controllers, routing, status codes, Swagger, CORS), `logout.usecase.ts` (two cookie removals), and `all.usecase.ts` and `index.usecase.ts` (they rely on repository functions the room repository does not provide) are not part of this model.
- Console logging is left out.

## Findings

| source | as written | input that shows it | evidently intended | confidence | as-written member | corrected member |
|---|---|---|---|---|---|---|
| src/room/infrastructure/room.repository.ts:20 with src/room/application/create.usecase.ts:63-73 | `create` returns the room name under the key `username`, so `createRoom` reads `newRoom.name`, `createdAt` and `updatedAt` as undefined | `createRoom({name: "general", userIds: []})`: the response's room has no name and no dates | the response carries the stored name and dates of the new room | not executed | `CreateRoomUseCase.NewRoomViewLosesName` | `CreateRoomUseCase.CreatedRoomViewCarriesRow` |
| src/message/infrastructure/message.repository.ts:51-53, 65-67 with src/message/application/message.usecase.ts:96 | the cursor is the id of a page's last (oldest) message, yet the next query keeps ids greater than it, newest first | ids "a" < "b" < "c" created at 1, 2, 3 in one room, limit 2: page one is [c, b] with cursor "b"; page two is [c]; "a" is never listed | each page continues with the messages after the previous one: ids below the cursor, ordered by id, the key the cursor is taken from (ids are not assumed to follow `createdAt`) | not executed | `MessageUseCase.NewestFirstCursorRepeats` | `MessageUseCase.OlderPagesSkipNothing` |
