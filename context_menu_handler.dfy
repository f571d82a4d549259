/** User and message context-menu actions: the `ContextMenuHandler` registry,
 *  keyed by (name, type), which also queues each action's wire record on the
 *  shared list of commands to register, and its dispatch (throw-based error
 *  contract: `run` rejects with a `ContextMenuActionError`). */
module ContextMenu {
  import opened Common
  import opened Dispatch
  import Conditions

  const RunActionMisuse: string := "runAction() only accepts ContextMenuInteraction."

  datatype ContextMenuAction = ContextMenuAction(
    name: string,
    kind: nat,                          // the ApplicationCommandType: 2 user, 3 message
    access: Conditions.Access,
    defaultMemberPermissions: Option<int>,
    hasError: bool, hasRun: bool,
    client: Client?)

  /** An incoming context-menu interaction; `commandType` is absent on other
   *  kinds of interaction. */
  datatype ContextMenuInteraction = ContextMenuInteraction(
    commandName: string, commandType: Option<int>, guildId: Option<string>, userId: string)

  /** The wire record of an action; an absent permission bitfield is sent as
   *  an explicit `null`. */
  datatype WireAction = WireAction(
    kind: nat, name: string, guildId: Option<string>,
    dmPermission: Option<bool>, defaultMemberPermissions: Nullable<int>)

  /** The shared, process-wide list of records waiting to be sent to the
   *  remote command set. */
  class CommandsToRegister {
    var records: seq<WireAction>

    constructor ()
      ensures records == []
    {
      records := [];
    }
  }

  /** `i` is the first registered action with this name and type. */
  ghost predicate FirstKeyed(actions: seq<ContextMenuAction>, name: string, kind: int, i: int) {
    IsFirst(actions, (a: ContextMenuAction) => a.name == name && a.kind == kind, i)
  }

  function DuplicateMessage(name: string, kind: nat): string {
    "Cannot register context menu action with duplicate name and type: '" + name + "', type '" + NatToString(kind) + "'."
  }

  class ContextMenuHandler {
    var actions: seq<ContextMenuAction>
    var client: Client?
    const pending: CommandsToRegister

    /** The pair (name, type) is unique within the registry. */
    ghost predicate Valid()
      reads this
    {
      forall i, j :: 0 <= i < j < |actions| ==>
        !(actions[i].name == actions[j].name && actions[i].kind == actions[j].kind)
    }

    constructor (pending: CommandsToRegister)
      ensures Valid() && actions == [] && client == null && this.pending == pending
    {
      actions := [];
      client := null;
      this.pending := pending;
    }

    method SetClient(c: Client)
      modifies this
      ensures client == c && actions == old(actions)
    {
      client := c;
    }

    function ActionExists(name: string, kind: int): (b: bool)
      reads this
      ensures b <==> exists i :: 0 <= i < |actions| && actions[i].name == name && actions[i].kind == kind
    {
      FindIndex(actions, (a: ContextMenuAction) => a.name == name && a.kind == kind).Some?
    }

    /** Registers `action` unless its (name, type) pair is taken, appending
     *  both the action and its wire record; a duplicate changes neither list. */
    method Register(action: ContextMenuAction) returns (r: Result<ContextMenuHandler, Thrown>)
      requires Valid()
      modifies this, pending
      ensures Valid() && client == old(client)
      ensures old(ActionExists(action.name, action.kind)) ==>
        r == Failure(Error(DuplicateMessage(action.name, action.kind))) &&
        actions == old(actions) && pending.records == old(pending.records)
      ensures !old(ActionExists(action.name, action.kind)) ==>
        r == Success(this) &&
        actions == old(actions) + [action.(client := client)] &&
        pending.records == old(pending.records) + [ActionMapper(action)]
    {
      if ActionExists(action.name, action.kind) {
        return Failure(Error(DuplicateMessage(action.name, action.kind)));
      }
      var registered := action.(client := client);
      pending.records := pending.records + [ActionMapper(registered)];
      actions := actions + [registered];
      return Success(this);
    }

    /** The shared checks, with the action messages. */
    static function CheckConditionals(event: ContextMenuInteraction, action: ContextMenuAction): (r: Option<string>)
      ensures r.None? <==> forall c: Conditions.Check ::
        !Conditions.Fails(action.access, Conditions.Origin(event.guildId, event.userId), c)
      ensures r.Some? ==> r.value in {Conditions.ActionMessages.guild, Conditions.ActionMessages.dm, Conditions.ActionMessages.user}
    {
      Conditions.CheckConditionals(Conditions.ActionMessages, action.access, Conditions.Origin(event.guildId, event.userId))
    }

    /** `runAction`: throws unless the interaction is a context-menu one, then
     *  matches on name and type together, checks, and runs. */
    function RunAction(event: ContextMenuInteraction, outcome: Outcome): (t: seq<Step>)
      reads this
      ensures event.commandType.None? || event.commandType.value < 2 ==> t == [Threw(Error(RunActionMisuse))]
      ensures event.commandType.Some? && event.commandType.value >= 2 && !ActionExists(event.commandName, event.commandType.value) ==>
        t == []
      ensures event.commandType.Some? && event.commandType.value >= 2 ==>
        forall i :: FirstKeyed(actions, event.commandName, event.commandType.value, i) ==>
          match CheckConditionals(event, actions[i])
          case Some(e) => t == CallErrorIfPresent(i, actions[i].hasError, e, [])
          case None => t == Invoke(i, actions[i].hasRun, ThrowBased, ContextMenuActionError, actions[i].hasError, [], outcome)
      ensures forall k: nat, a :: RunCalled(k, a) in t ==>
        event.commandType.Some? && FirstKeyed(actions, event.commandName, event.commandType.value, k) &&
        CheckConditionals(event, actions[k]).None?
    {
      if event.commandType.None? || event.commandType.value < 2 then [Threw(Error(RunActionMisuse))]
      else
        var kind := event.commandType.value;
        match FindIndex(actions, (a: ContextMenuAction) => a.name == event.commandName && a.kind == kind)
        case None => []
        case Some(i) =>
          assert FirstKeyed(actions, event.commandName, kind, i);
          var action := actions[i];
          match CheckConditionals(event, action)
          case Some(e) => CallErrorIfPresent(i, action.hasError, e, [])
          case None => Invoke(i, action.hasRun, ThrowBased, ContextMenuActionError, action.hasError, [], outcome)
    }

    /** The shape a directory entry must have to be registered: a name and a
     *  `run`; its description is not consulted. */
    static predicate IsInstanceOfCtxMenuAction(candidate: Candidate)
      ensures IsInstanceOfCtxMenuAction(candidate) ==> candidate.name.Some? && candidate.hasRun
    {
      candidate.name.Some? && candidate.hasRun
    }

    static function ActionMapper(action: ContextMenuAction): (w: WireAction)
      ensures w.kind == action.kind && w.name == action.name && w.guildId == action.access.guildId
      ensures w.dmPermission == action.access.allowDm
      ensures action.defaultMemberPermissions.None? <==> w.defaultMemberPermissions.Null?
      ensures action.defaultMemberPermissions.Some? ==>
        w.defaultMemberPermissions == NonNull(action.defaultMemberPermissions.value)
    {
      WireAction(
        action.kind, action.name, action.access.guildId, action.access.allowDm,
        match action.defaultMemberPermissions
        case None => Null
        case Some(p) => NonNull(p))
    }
  }

  /** The user action and the message action may share a name: registering
   *  the second type succeeds after the first. */
  method SameNameDifferentType(pending: CommandsToRegister, user: ContextMenuAction, msg: ContextMenuAction)
    requires user.name == msg.name && user.kind == 2 && msg.kind == 3
    modifies pending
    ensures pending.records == old(pending.records) + [ContextMenuHandler.ActionMapper(user), ContextMenuHandler.ActionMapper(msg)]
  {
    var h := new ContextMenuHandler(pending);
    var r1 := h.Register(user);
    assert !h.ActionExists(msg.name, msg.kind) by {
      assert h.actions == [user.(client := null)];
    }
    var r2 := h.Register(msg);
    assert r2.Success?;
  }

  /** The description does not affect the context-menu shape check. */
  lemma ShapeIgnoresDescription(candidate: Candidate, description: Option<string>)
    ensures ContextMenuHandler.IsInstanceOfCtxMenuAction(candidate.(description := description))
        == ContextMenuHandler.IsInstanceOfCtxMenuAction(candidate)
  {
  }
}
