# OptiRoute dispatch core in Dafny

OptiRoute is a NestJS backend for ride dispatch: clients post transport
requests, a driver accepts one by moving it to `in_progress`, and from that
moment client and driver can talk in a live chat room. This project models the
parts of it that are rules rather than framework glue, as immutable state and
pure transition functions:

- the live-chat gateway (`ChatGateway`): the registry from user id to socket
  id, the user each socket authenticated as, the rooms `chat-<requestId>`, and
  the log of emitted `chatCreated` / `newMessage` events;
- the request endpoints (`RequestController`) over the request store
  (`RequestService`): the caller becomes the owner on create, acceptance names
  the caller as driver in the update body, and the chat opens after the write;
- the user accounts (`UsersService`): unique e-mail, owner-only update and
  delete, password hashing before every write and stripping on every answer,
  and catch blocks that let only some exception kinds through;
- the vehicle store (`VehiclesService`): plate uniqueness on create only;
- registration and login (`AuthService`);
- the two guards: the roles guard's substring test (`RolesGuard`) and the
  bearer-token extraction of the JWT guard (`JwtAuthGuard`).

Supporting modules: `Wrappers` (Option, Result and the error kinds the code
throws), `Strings` (decimal rendering for `${id}` templates, JavaScript
`includes` and `split`), `Identity` (roles, token payloads, and the hash /
compare / sign / verify primitives as function-valued parameters with the
`Sound` assumption about them), `Table` (an id-keyed table with a serial
primary key; a lookup on another column returns the matching row with the
least id) and `JsMap` (a JavaScript `Map` keyed by integers, with its
insertion order).

A database failure in the users service is the flag `dbUp`; a failure inside
chat creation is the parameter `chatFault`; the socket a handler runs on, the
current time and message timestamps are parameters. Whether some request still
names an account as its owner, which makes the database refuse to delete that
account, is the parameter `ownsRequests` of `UsersService.Remove`;
`RequestService.OwnedBy` computes it from the request store.

Reads of a request load no relation: `findOne({ where: { id } })`, `find()`
and the row `preload` returns carry neither the owner nor the vehicle, since
neither relation is eager. The store keeps both; the answers of
`RequestService.FindOne`, `RequestService.FindAll` and `RequestService.Update`
have them undefined (`RequestService.Unloaded`).

Where the test files and the code disagree, the model follows the code:
`test/usersTesting/users.service.spec.ts` expects a `ForbiddenException` when
a user updates or deletes another account, but the catch blocks of
`src/users/services/users.service.ts` turn it into a plain error
("Failed to update user" / "Failed to delete user"), and that is what
`UsersService.Update` and `UsersService.Remove` state. The request entity has
no `driverId` or `userId` column although the update DTO and the controller
use them. `preload` merges only the entity's columns, so both values are
dropped: `RequestService.Request` has no such fields, `RequestService.Merge`
ignores them, the driver an acceptance names is never stored, and the updated
request the controller reads `userId` from never has one. The owner set by
`create` lives in the `user` relation.

## Model

| member | source | states |
|---|---|---|
| `ChatGateway.Init` | src/chat-socket/chat-socket.gateway.ts:23 | the gateway starts with an empty registry, no sockets and no events, and satisfies the registry invariant |
| `ChatGateway.RoomNameInjective` | src/chat-socket/chat-socket.gateway.ts:57 | two requests never share a `chat-<id>` room |
| `ChatGateway.HandleConnection` | src/chat-socket/chat-socket.gateway.ts:27-45 | no token, an empty token or a token that fails verification leaves the whole state unchanged; a valid one attaches the payload to the socket and maps its user to this socket, replacing any earlier socket, other users untouched; the registry invariant is kept |
| `ChatGateway.HandleDisconnect` | src/chat-socket/chat-socket.gateway.ts:47-53 | the socket goes away; an authenticated socket's user loses its registry entry whichever socket it named, an unauthenticated one leaves the registry as it was; other users untouched |
| `ChatGateway.JoinAndNotify` | src/chat-socket/chat-socket.gateway.ts:64-75 | a registered and live socket joins the room and gets exactly one event; a missing or dead one changes nothing |
| `ChatGateway.CreateChatForRequest` | src/chat-socket/chat-socket.gateway.ts:56-91 | each online party joins `chat-<requestId>` and gets one `chatCreated` naming the other (client: driver id and role `driver`; driver: client id and role `client`); offline parties are skipped without error; nothing else changes |
| `ChatGateway.HandleSendMessage` | src/chat-socket/chat-socket.gateway.ts:94-116 | an unauthenticated sender gets `No autenticado` and nothing is emitted; otherwise one `newMessage` with the text unchanged and the sender's id and role from its token goes to the room's current members, without checking the sender's own membership, and the answer is `Mensaje enviado` |
| `ChatGateway.HandleGetOnlineUsers` | src/chat-socket/chat-socket.gateway.ts:119-122 | exactly the user ids in the registry, each once |
| `ChatGateway.ConnectionListOrder` | src/chat-socket/chat-socket.gateway.ts:35-39 | after a handshake the online list is the old list with a newly registered user appended, or unchanged for a user already registered |
| `ChatGateway.DisconnectListOrder` | src/chat-socket/chat-socket.gateway.ts:47-53 | after an authenticated socket disconnects the online list is the old list with that user cut out at its position, the others in their order |
| `ChatGateway.LastConnectionWins` | src/chat-socket/chat-socket.gateway.ts:35-39 | after a user's second handshake the registry names the second socket, while the first stays live and authenticated |
| `ChatGateway.StaleDisconnectUnregistersLiveUser` | src/chat-socket/chat-socket.gateway.ts:47-53 | when the older of two sockets of a user disconnects, the user leaves the registry although the newer socket is live, and a later chat does not join that socket |
| `ChatGateway.ChatThenMessageReachesBoth` | src/chat-socket/chat-socket.gateway.ts:56-116 | after a chat is created for two online parties, a message of the client reaches both sockets with its text and sender id |
| `ChatGateway.ChatsStayApart` | src/chat-socket/chat-socket.gateway.ts:57-88 | creating one request's chat changes the membership of no other request's room |
| `JsMap.Set` | src/chat-socket/chat-socket.gateway.ts:39 | `Map.set` stores the value, keeps an existing key's position and appends a new key |
| `JsMap.Delete` | src/chat-socket/chat-socket.gateway.ts:50 | `Map.delete` of an absent key changes nothing; of a present key it removes that key from the entries and cuts it out of the order at its position, the other keys keeping their relative order |
| `JsMap.WithoutConcat` | src/chat-socket/chat-socket.gateway.ts:50 | removing a key from a concatenation removes it from each part, the parts keeping their order |
| `JsMap.Keys` | src/chat-socket/chat-socket.gateway.ts:121 | `Array.from(map.keys())` lists exactly the stored keys, without repetition |
| `JsMap.SetThenKeys` | src/chat-socket/chat-socket.gateway.ts:39 | after `set` the key listing gains a new key at its end and is unchanged for a present key |
| `JsMap.DeleteThenKeys` | src/chat-socket/chat-socket.gateway.ts:50 | after `delete` the key listing loses exactly the deleted key's position, or is unchanged for an absent key |
| `RequestController.OnlyClientsPass` | src/request/controllers/request.controller.ts:39-40 | with the class-level roles `[client]`, a caller whose token carries an enum role passes iff that role is `client`: staff and admin are refused on every request endpoint |
| `RequestController.Create` | src/request/controllers/request.controller.ts:77-84 | the stored request carries the body's addresses, the caller's id as owner, and the body's status or `pending` when it has none, under a fresh id |
| `RequestController.Update` | src/request/controllers/request.controller.ts:194-216 | the store ends as the service leaves it for the body as sent, the driver assignment leaving no trace; an absent id fails with NotFound and no chat; without `in_progress` the chat state is untouched and the answer is the service's; with it, the answer is the merged row without relations and the chat is created after the write for the request id, an undefined client (the entity has no `userId`) and the caller, and a chat failure fails the call while the write stays |
| `RequestController.Remove` | src/request/controllers/request.controller.ts:256-262 | an absent id fails with the store's NotFound and nothing changes; a present one is deleted and nothing is returned; the chat state is untouched |
| `RequestController.UpdateNotifyingOwner` | src/request/controllers/request.controller.ts:194-216 | the corrected update: the same write and error behaviour, with the chat opened between the caller and the request's owner (`user`) read from the stored row, as a lookup loading that relation returns it |
| `RequestController.AcceptedFreshRequestReachesBoth` | src/request/controllers/request.controller.ts:77-84 | with the corrected update, accepting a controller-created request notifies client and driver, each naming the other, when both are online |
| `RequestController.RemoveIgnoresCaller` | src/request/controllers/request.controller.ts:256-262 | the caller passed to remove has no influence on the outcome |
| `RequestController.ChatFailureKeepsWrite` | src/request/controllers/request.controller.ts:204-213 | when chat creation throws, the call fails but a later read sees the request in `in_progress` |
| `RequestController.CreatorCannotDeleteAccount` | src/users/services/users.service.ts:183-200 | once a client has created a request, the request store names them as owner and their own account deletion fails with `Failed to delete user` |
| `RequestController.AcceptingDriverNotRecorded` | src/request/controllers/request.controller.ts:199-204 | two different drivers accepting with the same body leave the same store and get the same answer: who accepted is not recorded |
| `RequestController.AcceptedRequestSkipsClient` | src/request/controllers/request.controller.ts:204-212 | accepting any stored request notifies only the driver, with an undefined partner id, because chat creation reads a `userId` the entity does not have; the answer carries no owner either |
| `RequestService.Create` | src/request/services/request.service.ts:17-21 | the new row gets a fresh id, the given fields, status `pending` unless one was supplied, and the current time; nothing else changes |
| `RequestService.FindAll` | src/request/services/request.service.ts:23-26 | every stored request is listed, each once under its id and with its columns, without owner or vehicle, in ascending id order |
| `RequestService.FindOne` | src/request/services/request.service.ts:28-36 | a found request carries the asked id and the stored row's columns, with neither owner nor vehicle loaded; the lookup succeeds iff the id is stored, and fails with NotFound `Request with ID <id> not found` otherwise |
| `RequestService.Update` | src/request/services/request.service.ts:38-49 | an absent id fails with NotFound and nothing is saved; a present one is saved with exactly the patch's column fields (addresses, status) overridden and id, owner, vehicle and creation time kept in the store; the answer is the saved row without its relations |
| `RequestService.UpdateIgnoresDriverAndClient` | src/request/services/request.service.ts:38-49 | the patch's `driverId` and `userId` change neither what is written nor what is returned |
| `RequestService.Remove` | src/request/services/request.service.ts:51-60 | an absent id fails with NotFound and nothing changes; a present one is the only row deleted |
| `RequestService.CreateThenFind` | src/request/services/request.service.ts:17-36 | a lookup of a created request returns its columns without the owner, while the store holds the owner |
| `RequestService.ListedIffStored` | src/request/services/request.service.ts:23-26 | a request is listed by `findAll` iff it is a stored row under its own id with its relations unloaded |
| `RequestService.CreateThenFindAll` | src/request/services/request.service.ts:17-26 | a created request is listed by `findAll` (without its owner), and so is every request listed before |
| `RequestService.UpdateThenFind` | src/request/services/request.service.ts:38-49 | after an update the merged row is stored, and a lookup returns exactly what the update answered |
| `RequestService.RemoveThenFind` | src/request/services/request.service.ts:51-60 | after a removal a lookup fails with NotFound |
| `RequestService.AnyStatusTransitionAccepted` | src/request/services/request.service.ts:38-49 | any status can be written over any other |
| `UsersService.RowByEmail` | src/users/services/users.service.ts:25-27 | the lookup by e-mail finds a row with that e-mail, and finds none only when no row has it |
| `UsersService.Create` | src/users/services/users.service.ts:20-59 | a known e-mail fails with Conflict `Email already exists` and nothing is written; otherwise the row is stored with the hashed password under a fresh id and answered without password; any other failure becomes `Failed to create user`; e-mails stay unique |
| `UsersService.FindOne` | src/users/services/users.service.ts:79-104 | a found user carries the asked id; it is the stored row without password; an absent id gets NotFound `User not found`, a database failure `Failed to fetch user` |
| `UsersService.FindByEmail` | src/users/services/users.service.ts:106-127 | the full row with that e-mail, password included, or none; a database failure becomes `Failed to fetch user by email` |
| `UsersService.Update` | src/users/services/users.service.ts:129-171 | a caller updating another account, or a database failure, gets `Failed to update user`; an absent id gets NotFound; a new non-empty e-mail held by another row gets Conflict; an owner's update of an existing account succeeds unless the resulting e-mail belongs to another row; on success name, e-mail and role take the supplied values, a non-empty supplied password is stored hashed, the answer is the re-read row without password, and other rows are untouched; every failure writes nothing |
| `UsersService.Remove` | src/users/services/users.service.ts:173-201 | a caller deleting another account, or a database failure, gets `Failed to delete user`; an absent id gets NotFound; an account some request still names as owner is refused by the foreign key and also gets `Failed to delete user`, with nothing deleted; otherwise exactly that row is deleted |
| `UsersService.ValidatePassword` | src/users/services/users.service.ts:204-211 | the comparison primitive's verdict on the plain and the stored password; for a sound primitive, true iff the stored value is the hash of the plain password |
| `UsersService.CreateThenFind` | src/users/services/users.service.ts:35-50 | a created user is found again by id, and its stored password is the hash of the given one |
| `UsersService.DuplicateEmailRefused` | src/users/services/users.service.ts:25-32 | a second account with an e-mail already created is refused with Conflict and nothing is written |
| `UsersService.UpdateThenFind` | src/users/services/users.service.ts:157-162 | the answer of a successful update is what a later lookup returns |
| `UsersService.EmailTakenByOtherRefused` | src/users/services/users.service.ts:141-150 | moving to a non-empty e-mail another account holds fails with Conflict and changes nothing |
| `UsersService.EmptyEmailTakenFailsGenerically` | src/users/services/users.service.ts:141 | an empty e-mail skips the explicit check; if another row holds it, the write fails and the caller sees only `Failed to update user` |
| `UsersService.RemoveThenFind` | src/users/services/users.service.ts:183-190 | after a self-removal of an account no request refers to, a lookup fails with NotFound |
| `VehiclesService.FindByLicensePlate` | src/vehicles/services/vehicles.service.ts:17-25 | a vehicle with that plate, or NotFound `Vehicle with license plate <p> not found` exactly when none has it |
| `VehiclesService.Create` | src/vehicles/services/vehicles.service.ts:27-39 | a plate on file fails with `License plate already exists` and nothing is written; otherwise the vehicle is stored as given under a fresh id |
| `VehiclesService.FindOne` | src/vehicles/services/vehicles.service.ts:46-54 | the vehicle, or NotFound `Vehicle with ID <id> not found` exactly when the id is absent |
| `VehiclesService.Update` | src/vehicles/services/vehicles.service.ts:57-68 | an absent id fails with NotFound and nothing is saved; a present one is saved with exactly the supplied fields overridden, other rows untouched |
| `VehiclesService.Remove` | src/vehicles/services/vehicles.service.ts:70-79 | an absent id fails with NotFound and nothing changes; a present one is deleted |
| `VehiclesService.CreateThenFindByPlate` | src/vehicles/services/vehicles.service.ts:17-39 | a vehicle created with a fresh plate is what lookups by plate and by id return |
| `VehiclesService.UpdateThenFind` | src/vehicles/services/vehicles.service.ts:57-68 | after an update a lookup by id returns the merged row |
| `VehiclesService.RemoveThenFind` | src/vehicles/services/vehicles.service.ts:70-79 | after a removal a lookup by id fails with NotFound |
| `VehiclesService.CreatePreservesPlateUniqueness` | src/vehicles/services/vehicles.service.ts:31-37 | creation alone never puts two vehicles under one plate |
| `VehiclesService.UpdateCanDuplicatePlate` | src/vehicles/services/vehicles.service.ts:57-68 | an update can give a vehicle another vehicle's plate |
| `AuthService.RegisterWith` | src/auth/services/auth.services.ts:18-35 | a failed lookup propagates, a known e-mail fails with Unauthorized `El usuario ya existe` and nothing is written, otherwise the account is created with the given password value hashed once more |
| `AuthService.RegisterAsWritten` | src/auth/services/auth.services.ts:26-32 | a registered account stores `hash(hash(password))` |
| `AuthService.Register` | src/auth/services/auth.services.ts:18-35 | the corrected registration: a known e-mail is refused as above, and a registered account stores `hash(password)` |
| `AuthService.Login` | src/auth/services/auth.services.ts:37-56 | an unknown e-mail and a wrong password fail with the same Unauthorized `Credenciales inválidas`; success iff the comparison primitive accepts the password against the stored value (for a sound primitive: iff the stored value is its hash), answering the user without password and the token signed over `{userId, role}` |
| `AuthService.RegisterThenLogin` | src/auth/services/auth.services.ts:18-56 | with the corrected registration, logging in with the registered e-mail and password succeeds and answers the registered user |
| `AuthService.RegisterAsWrittenThenLoginFails` | src/auth/services/auth.services.ts:26-48 | with the code as written, that login fails whenever hashing a hash does not return it |
| `AuthService.DoubleHashLocksOutNewUser` | src/auth/services/auth.services.ts:26-48 | a concrete account registered through the code as written is refused at login with its own password |
| `AuthService.LoginTokenPassesGuard` | src/auth/services/auth.services.ts:50-55 | a login token sent as `Bearer <token>` passes the JWT guard and yields the user's id and role name |
| `RolesGuard.SomeIncluded` | src/auth/guard/roles.guard.ts:26 | true iff some required role name is a substring of the user's role string |
| `RolesGuard.CanActivate` | src/auth/guard/roles.guard.ts:10-27 | no roles metadata allows; otherwise a user with no role is refused, and the guard allows iff some required role name occurs inside the user's role string |
| `RolesGuard.RoleNamesNotNested` | src/users/entities/user.entity.ts:4-8 | none of `admin`, `client`, `staff` occurs inside another |
| `RolesGuard.CanActivateIsMembershipForEnumRoles` | src/auth/guard/roles.guard.ts:26 | for a role string that is an enum value, the substring test is plain membership |
| `RolesGuard.SubstringRoleIsAdmitted` | src/auth/guard/roles.guard.ts:26 | a token whose role is `superadmin` passes a guard requiring `admin` |
| `JwtAuthGuard.CanActivate` | src/auth/guard/jwt-auth.guard.ts:9-24 | no header, no second field or an empty one refuses; otherwise it allows iff the token verifies, and then the request's user is the verified payload |
| `JwtAuthGuard.TokenIsSecondField` | src/auth/guard/jwt-auth.guard.ts:11 | for `<scheme> <token>[ <rest>]` the token is the second field, whatever the scheme and whatever follows |
| `JwtAuthGuard.ExtractedTokenShape` | src/auth/guard/jwt-auth.guard.ts:11 | any token extracted is the second space-separated field of the header |
| `JwtAuthGuard.NoSpaceNoToken` | src/auth/guard/jwt-auth.guard.ts:11-15 | a header without a space yields no token and is refused |
| `JwtAuthGuard.EmptySecondFieldRefused` | src/auth/guard/jwt-auth.guard.ts:11-15 | `Bearer ` and `Bearer  x` are refused whatever the verifier says |
| `Strings.Split` | src/auth/guard/jwt-auth.guard.ts:11 | `split(" ")` yields at least one field, no field contains the separator, and joining the fields gives the string back |
| `Strings.SplitJoin` | src/auth/guard/jwt-auth.guard.ts:11 | splitting a join of separator-free fields gives the fields back |
| `Strings.IncludesIffOccurs` | src/auth/guard/roles.guard.ts:26 | `includes` holds iff the needle occurs at some position |
| `Strings.IntToStringInjective` | src/chat-socket/chat-socket.gateway.ts:57 | different ids render differently in `${id}` |
| `Table.FirstWhere` | src/vehicles/services/vehicles.service.ts:19 | a lookup on a non-key column returns a matching row with no matching row of smaller id, and returns none only when nothing matches |

## Left out

- TypeORM, PostgreSQL and socket.io are not modelled as such: tables are id-keyed maps with a serial counter, sockets and rooms are a map and sets, emits are an appended event log, and the `newMessage` broadcast records the room's members at that moment.
- bcrypt and JWT are function-valued parameters. `Sound` idealises the salted bcrypt hash as a deterministic function compared by equality; salting, cost factors, expiry and the verifier throwing on a malformed token (modelled as `None`) are not modelled.
- The request, vehicle and auth services have no modelled database failure; the users service has one flag, `dbUp`, that fails every repository call of one operation at once, not one call in the middle.
- RequestService.FindAll: the source's `find()` has no ORDER BY, so its order is unspecified; the model fixes ascending id order.
- Table.FirstWhere: a `findOne` on a non-key column (e-mail, licence plate) has no ORDER BY either; when several rows match (duplicate plates after an update) the database may return any of them, while the model returns the one with the least id.
- UsersService.Update: an update body with no fields at all is modelled as a successful no-op write; the ORM's handling of an empty `update` is foreign code that is not part of this model.
- UsersService.RemoveBody: the "0 rows affected" branch is unreachable in a sequential model (the row was read just before); concurrent deletion between the read and the delete is not modelled.
- `findAll` of users and vehicles, the users, vehicles, auth, driver and gps controllers, and the gps and driver services forward to the ORM and are not modelled; the driver and gps modules are not part of this model.
- The users controller passes the verified token payload (`{ userId, role }`) as `currentUser`, whose `id` is then undefined; `UsersService.Update` and `UsersService.Remove` take the caller's id as an integer and do not model that mismatch.
- The request controller passes a third argument to `update` and `remove` of the request service, which ignores it; the model uses the service signatures as written.
- Request coordinates, distance and time estimates (floating point) and logging are left out; the owner and vehicle relations are kept as ids, and the objects a loaded relation would hold are not modelled; `createdAt` and message timestamps are opaque integers supplied by the caller.
- Validation pipes and DTO decorators (e-mail format, password length, `ParseIntPipe`) are not modelled. `src/main.ts` registers the global `ValidationPipe` only after `app.listen` has returned, so whether it applies to any route is doubtful; the model takes the DTO's declared fields as given, unvalidated, and since the create body is not filtered either it may carry a `status` (`RequestController.CreateRequestDto`).
- RequestService.Update: body keys outside the update DTO are not modelled. Unfiltered, `preload({ id: id, ...updateRequestDto })` lets them override stored values: a body `id` replaces the path id (PATCH `/request/1` with `{"id": 2, ...}` saves request 2, or fails with NotFound when 2 is absent, while the chat still opens as `chat-1`), and a body `createdAt` or relation key is written as well. The model always updates the path id and keeps id and creation time.
- RequestController.Create: of the fields a create body could carry beyond the two addresses, only `status` is modelled; coordinates and estimates are left out with the rest of the entity's numeric columns.
- Caching, Redis and the cache assertions in the test files have no counterpart in the modelled services and are left out.
- `Identity.Sound` and its halves are assumptions, not something the model can establish about the real libraries. The operations state their results through the primitives themselves (`compare`, `verify`); `UsersService.ValidatePassword` and `AuthService.Login` add a clause conditional on `PasswordsSound`, and the round-trip lemmas of the auth service require it.

## Findings

| source | as written | input that shows it | evidently intended | confidence | as-written member | corrected member |
|---|---|---|---|---|---|---|
| src/auth/services/auth.services.ts:26-32 | `register` hashes the password and passes the hash to `UsersService.create`, which hashes it again (src/users/services/users.service.ts:35), so the account stores `hash(hash(p))` and `login` compares `p` with it | register `ana@example.com` with password `secret`, then log in with `secret`: refused with `Credenciales inválidas` | the account stores `hash(p)` so that the same password logs in | high, not executed | `AuthService.RegisterAsWritten` (shown by `AuthService.RegisterAsWrittenThenLoginFails` and `AuthService.DoubleHashLocksOutNewUser`) | `AuthService.Register` (proved by `AuthService.RegisterThenLogin`) |
| src/request/controllers/request.controller.ts:204-212 | after acceptance the chat is created for `updatedRequest.userId`, but the request entity has no `userId` column, so the preloaded and saved request never carries one, while `create` records the owner in `user` (src/request/controllers/request.controller.ts:80-84); the client is never joined or notified and the driver's partner id is undefined | a client creates a request, a driver patches it to `in_progress` while both are connected: only the driver gets `chatCreated`, with no partner id | the chat joins the request's owner and the driver, each told the other's id; since the row `preload` returns carries no relation, the fix must also load the owner, e.g. `findOne({ where: { id }, relations: ['user'] })` | medium, not executed | `RequestController.Update` (shown by `RequestController.AcceptedRequestSkipsClient`) | `RequestController.UpdateNotifyingOwner` (proved by `RequestController.AcceptedFreshRequestReachesBoth`) |
