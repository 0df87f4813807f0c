/** The request endpoints: create attaches the caller as owner; an update to
    `in_progress` names the caller as driver in the body and, once the write succeeded,
    opens the request's chat for that driver; remove forwards to the store. */
module RequestController {
  import opened Wrappers
  import opened Identity
  import RolesGuard
  import RequestService
  import UsersService
  import ChatGateway

  /** The mutable state the controller reaches: the request store and the chat gateway. */
  datatype App = App(store: RequestService.Store, chat: ChatGateway.Gateway)

  ghost predicate Valid(app: App) {
    RequestService.Valid(app.store) && ChatGateway.Valid(app.chat)
  }

  /** Create body: the two addresses and, since the body reaches the service unfiltered,
      optionally a status, which is a column of the entity. */
  datatype CreateRequestDto = CreateRequestDto(
    originAddress: string,
    destinationAddress: string,
    status: Option<RequestService.Status>)

  /** The class-level roles metadata; no handler overrides it. */
  const ControllerRoles: seq<Role> := [Client]

  /** Only callers whose role is `client` reach any request endpoint: staff and admin
      tokens are refused by the roles guard. */
  lemma OnlyClientsPass(caller: Payload, role: Role)
    requires caller.role == Some(RoleName(role))
    ensures RolesGuard.CanActivate(Some(ControllerRoles), caller) <==> role == Client
  {
    RolesGuard.CanActivateIsMembershipForEnumRoles(ControllerRoles, caller, role);
  }

  /** `create`: the body plus `user` set to the caller's id; the status is `pending`
      unless the body supplied one. */
  function Create(app: App, dto: CreateRequestDto, caller: Payload, now: int): (res: (App, RequestService.Request))
    requires Valid(app)
    ensures Valid(res.0) && res.0.chat == app.chat
    ensures var r := res.1;
      && res.0.store.rows == app.store.rows[r.id := r] && r.id !in app.store.rows
      && r.user == Some(caller.userId)
      && r.originAddress == dto.originAddress && r.destinationAddress == dto.destinationAddress
      && r.status == (if dto.status.Some? then dto.status.value else RequestService.Pending)
  {
    var input := RequestService.NewRequest(dto.originAddress, dto.destinationAddress, dto.status, Some(caller.userId));
    var (store, r) := RequestService.Create(app.store, input, now);
    (App(store, app.chat), r)
  }

  /** The patch after driver self-assignment: a move to `in_progress` overwrites any
      supplied `driverId` with the caller's id. */
  function AssignDriver(patch: RequestService.RequestPatch, caller: Payload): (p: RequestService.RequestPatch)
    ensures p.(driverId := patch.driverId) == patch
    ensures patch.status == Some(RequestService.InProgress) ==> p.driverId == Some(caller.userId)
    ensures patch.status != Some(RequestService.InProgress) ==> p == patch
  {
    if patch.status == Some(RequestService.InProgress) then patch.(driverId := Some(caller.userId)) else patch
  }

  /** `update`. The chat's client is read from the updated entity's `userId`, which the
      entity does not have, so chat creation always receives an undefined client.
      `chatFault` stands for an exception raised inside chat creation, which the
      controller awaits and does not catch. Such a failure is modelled as raised before
      either party joined, so the chat state stays as it was. Chat creation has no
      `await` between the two parties, so no other handler can observe it half done;
      a throw between the two joins, which would keep the first, is not modelled. */
  function Update(app: App, id: int, patch: RequestService.RequestPatch, caller: Payload,
                  chatFault: Option<Error>): (res: (App, Result<RequestService.Request>))
    requires Valid(app)
    ensures Valid(res.0)
    // the driver assignment leaves no trace: the store sees the body as sent
    ensures res.0.store == RequestService.Update(app.store, id, patch).0
    ensures id !in app.store.rows ==> res == (app, Err(RequestService.NotFoundError(id)))
    // no chat unless the patch moves the request to in_progress
    ensures patch.status != Some(RequestService.InProgress) ==>
      res.0.chat == app.chat && res.1 == RequestService.Update(app.store, id, patch).1
    ensures patch.status == Some(RequestService.InProgress) && id in app.store.rows ==>
      var updated := RequestService.Merge(app.store.rows[id], patch);
      && (chatFault.None? ==>
            && res.1 == Ok(RequestService.Unloaded(updated))
            && res.0.chat == ChatGateway.CreateChatForRequest(app.chat, id, None, caller.userId))
      && (chatFault.Some? ==> res.1 == Err(chatFault.value) && res.0.chat == app.chat)
  {
    RequestService.UpdateIgnoresDriverAndClient(app.store, id, patch, AssignDriver(patch, caller).driverId, patch.userId);
    Accept(app, id, patch, caller, chatFault, None)
  }

  /** The update flow, with `client` as the chat's client. */
  function Accept(app: App, id: int, patch: RequestService.RequestPatch, caller: Payload,
                  chatFault: Option<Error>, client: Option<int>)
    : (res: (App, Result<RequestService.Request>))
    requires Valid(app)
    ensures Valid(res.0)
    ensures res.0.store == RequestService.Update(app.store, id, AssignDriver(patch, caller)).0
  {
    var p := AssignDriver(patch, caller);
    var (store, r) := RequestService.Update(app.store, id, p);
    match r
    case Err(e) => (App(store, app.chat), Err(e))
    case Ok(updated) =>
      if p.status == Some(RequestService.InProgress) then
        match chatFault
        case Some(e) => (App(store, app.chat), Err(e))
        case None => (App(store, ChatGateway.CreateChatForRequest(app.chat, id, client, caller.userId)), Ok(updated))
      else (App(store, app.chat), Ok(updated))
  }

  /** `update` with the chat opened between the request's owner, the `user` that `create`
      records, and the caller. The owner is read from the stored row, as a lookup that
      loads the `user` relation returns it: the row `preload` returns carries no
      relation. */
  function UpdateNotifyingOwner(app: App, id: int, patch: RequestService.RequestPatch, caller: Payload,
                                chatFault: Option<Error>): (res: (App, Result<RequestService.Request>))
    requires Valid(app)
    ensures Valid(res.0)
    ensures res.0.store == RequestService.Update(app.store, id, patch).0
    ensures id !in app.store.rows ==> res == (app, Err(RequestService.NotFoundError(id)))
    ensures patch.status != Some(RequestService.InProgress) ==>
      res.0.chat == app.chat && res.1 == RequestService.Update(app.store, id, patch).1
    ensures patch.status == Some(RequestService.InProgress) && id in app.store.rows ==>
      var updated := RequestService.Merge(app.store.rows[id], patch);
      && (chatFault.None? ==>
            && res.1 == Ok(RequestService.Unloaded(updated))
            && res.0.chat == ChatGateway.CreateChatForRequest(app.chat, id, app.store.rows[id].user, caller.userId))
      && (chatFault.Some? ==> res.1 == Err(chatFault.value) && res.0.chat == app.chat)
  {
    RequestService.UpdateIgnoresDriverAndClient(app.store, id, patch, AssignDriver(patch, caller).driverId, patch.userId);
    var owner := if id in app.store.rows then app.store.rows[id].user else None;
    Accept(app, id, patch, caller, chatFault, owner)
  }

  /** `remove`: forwards to the store; the caller is passed along but never consulted. */
  function Remove(app: App, id: int, caller: Payload): (res: (App, Result<()>))
    requires Valid(app)
    ensures Valid(res.0) && res.0.chat == app.chat
    ensures id !in app.store.rows ==> res == (app, Err(RequestService.NotFoundError(id)))
    ensures id in app.store.rows ==> res.1 == Ok(()) && res.0.store.rows == app.store.rows - {id}
  {
    var (store, r) := RequestService.Remove(app.store, id);
    (App(store, app.chat), r)
  }

  /** Who asks for a removal makes no difference to it. */
  lemma RemoveIgnoresCaller(app: App, id: int, a: Payload, b: Payload)
    requires Valid(app)
    ensures Remove(app, id, a) == Remove(app, id, b)
  {
  }

  /** A failing chat creation still leaves the update written: a later read sees the new
      status. */
  lemma ChatFailureKeepsWrite(app: App, id: int, patch: RequestService.RequestPatch, caller: Payload, e: Error)
    requires Valid(app) && id in app.store.rows
    requires patch.status == Some(RequestService.InProgress)
    ensures var (app', r) := Update(app, id, patch, caller, Some(e));
      && r == Err(e)
      && RequestService.FindOne(app'.store, id).Ok?
      && RequestService.FindOne(app'.store, id).value.status == RequestService.InProgress
  {
  }

  /** A client who has created a request can no longer delete their own account: the
      request's owner column refers to it, and the users service reports only the generic
      failure. */
  lemma CreatorCannotDeleteAccount(app: App, dto: CreateRequestDto, caller: Payload, now: int,
                                   users: UsersService.Repo)
    requires Valid(app) && UsersService.Valid(users) && caller.userId in users.rows
    ensures var (app1, r) := Create(app, dto, caller, now);
      var owns := RequestService.OwnedBy(app1.store, caller.userId);
      && owns
      && UsersService.Remove(users, caller.userId, caller.userId, true, owns) == (users, Err(Failure("Failed to delete user")))
  {
    var (app1, r) := Create(app, dto, caller, now);
    assert app1.store.rows[r.id].user == Some(caller.userId);
  }

  /** Which driver accepts a request is not recorded: two different callers sending the
      same body leave the same store and get the same answer. */
  lemma AcceptingDriverNotRecorded(app: App, id: int, patch: RequestService.RequestPatch,
                                   a: Payload, b: Payload, chatFault: Option<Error>)
    requires Valid(app)
    ensures Update(app, id, patch, a, chatFault).0.store == Update(app, id, patch, b, chatFault).0.store
    ensures Update(app, id, patch, a, chatFault).1 == Update(app, id, patch, b, chatFault).1
  {
  }

  /** Accepting any stored request notifies only the driver, and with an undefined
      partner: the client is never reached, whether online or not. The answer carries no
      owner either. */
  lemma AcceptedRequestSkipsClient(app: App, id: int, patch: RequestService.RequestPatch, driver: Payload)
    requires Valid(app) && id in app.store.rows
    requires patch.status == Some(RequestService.InProgress)
    requires ChatGateway.Online(app.chat, ChatGateway.Lookup(app.chat, Some(driver.userId)))
    ensures var (app2, res) := Update(app, id, patch, driver, None);
      var ds := ChatGateway.Lookup(app.chat, Some(driver.userId)).value;
      && res.Ok?
      && res.value.user == None
      && app2.chat.emitted == app.chat.emitted + [ChatGateway.ChatCreated(ds, id, None, "client", "Chat creado con tu cliente")]
  {
  }

  /** With the owner read from `user`, accepting a request created through this
      controller notifies both parties when both are online, each naming the other. */
  lemma AcceptedFreshRequestReachesBoth(app: App, dto: CreateRequestDto, client: Payload, driver: Payload, now: int)
    requires Valid(app)
    requires ChatGateway.Online(app.chat, ChatGateway.Lookup(app.chat, Some(client.userId)))
    requires ChatGateway.Online(app.chat, ChatGateway.Lookup(app.chat, Some(driver.userId)))
    ensures var (app1, r) := Create(app, dto, client, now);
      var accept := RequestService.RequestPatch(None, None, Some(RequestService.InProgress), None, None);
      var (app2, res) := UpdateNotifyingOwner(app1, r.id, accept, driver, None);
      var cs := ChatGateway.Lookup(app.chat, Some(client.userId)).value;
      var ds := ChatGateway.Lookup(app.chat, Some(driver.userId)).value;
      && res.Ok?
      && app2.chat.emitted == app.chat.emitted
           + [ChatGateway.ChatCreated(cs, r.id, Some(driver.userId), "driver", "Chat creado con tu driver"),
              ChatGateway.ChatCreated(ds, r.id, Some(client.userId), "client", "Chat creado con tu cliente")]
  {
    var (app1, r) := Create(app, dto, client, now);
    assert app1.store.rows[r.id].user == Some(client.userId);
  }
}
