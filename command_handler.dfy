/** Slash commands: the `CommandHandler` registry, its dispatch of chat-input
 *  and autocomplete interactions (return-based error contract: `run` returns
 *  a `CommandError`), and the projection of registered commands into the
 *  records the remote command set is replaced with. */
module Commands {
  import opened Common
  import opened Dispatch
  import Conditions

  type Localizations = map<string, string>

  /** `ApplicationCommandType.ChatInput`. */
  const ChatInput: nat := 1

  const NotReadyMessage: string :=
    "Application is not ready. Update application commands after the client has emitted 'ready'."

  datatype Choice = Choice(name: string, nameLocalizations: Option<Localizations>, value: string)

  /** An option of a command: a subcommand (or group) that may carry nested
   *  options, or an argument that may carry choices. */
  datatype CommandOption =
    | SubcommandWithOptions(
        name: string, nameLocalizations: Option<Localizations>,
        description: string, descriptionLocalizations: Option<Localizations>,
        kind: nat, options: Option<seq<CommandOption>>)
    | ArgumentOption(
        name: string, nameLocalizations: Option<Localizations>,
        description: string, descriptionLocalizations: Option<Localizations>,
        kind: nat, required: Option<bool>, autocomplete: Option<bool>, choices: Option<seq<Choice>>)

  /** A registered slash command. `access.guildId` and `access.allowDm` are
   *  also the command's scope and DM permission on the wire. */
  datatype Command = Command(
    name: string, nameLocalizations: Option<Localizations>,
    description: string, descriptionLocalizations: Option<Localizations>,
    options: Option<seq<CommandOption>>,
    access: Conditions.Access,
    defaultMemberPermissions: Option<int>,
    hasAutocomplete: bool, hasError: bool, hasRun: bool,
    client: Client?)

  datatype ChatInputInteraction = ChatInputInteraction(commandName: string, guildId: Option<string>, userId: string)

  datatype AutocompleteInteraction = AutocompleteInteraction(commandName: string)

  /** The wire form of an option. A subcommand's nested options are passed on
   *  as they are, not mapped again. */
  datatype WireOption =
    | WireSubcommand(
        kind: nat, name: string, description: string,
        descriptionLocalizations: Option<Localizations>, options: seq<CommandOption>)
    | WireArgument(
        name: string, nameLocalizations: Option<Localizations>,
        description: string, descriptionLocalizations: Option<Localizations>,
        kind: nat, required: Option<bool>, autocomplete: Option<bool>, choices: seq<Choice>)

  datatype WireCommand = WireCommand(
    kind: nat, name: string, guildId: Option<string>, nameLocalizations: Option<Localizations>,
    dmPermission: Option<bool>, defaultMemberPermissions: Option<int>,
    description: string, descriptionLocalizations: Option<Localizations>,
    options: Option<seq<WireOption>>)

  /** `i` is the first registered command with this name. */
  ghost predicate FirstNamed(commands: seq<Command>, name: string, i: int) {
    IsFirst(commands, (c: Command) => c.name == name, i)
  }

  /** The wire records for `commands`, in registration order. */
  function Project(commands: seq<Command>): (records: seq<WireCommand>)
    ensures |records| == |commands|
    ensures forall i :: 0 <= i < |commands| ==> records[i].kind == ChatInput && records[i].name == commands[i].name
  {
    seq(|commands|, i requires 0 <= i < |commands| => CommandHandler.CommandMapper(commands[i]))
  }

  class CommandHandler {
    var commands: seq<Command>
    var client: Client?

    /** Command names are unique within the registry. */
    ghost predicate Valid()
      reads this
    {
      forall i, j :: 0 <= i < j < |commands| ==> commands[i].name != commands[j].name
    }

    constructor ()
      ensures Valid() && commands == [] && client == null
    {
      commands := [];
      client := null;
    }

    method SetClient(c: Client)
      modifies this
      ensures client == c && commands == old(commands)
    {
      client := c;
    }

    function CommandExists(name: string): (b: bool)
      reads this
      ensures b <==> exists i :: 0 <= i < |commands| && commands[i].name == name
    {
      FindIndex(commands, (c: Command) => c.name == name).Some?
    }

    /** Registers `command` unless its name is taken; the check comes before
     *  any change, so a duplicate leaves the registry as it was. */
    method Register(command: Command) returns (r: Result<CommandHandler, Thrown>)
      requires Valid()
      modifies this
      ensures Valid() && client == old(client)
      ensures old(CommandExists(command.name)) ==>
        r == Failure(Error("Cannot register command with duplicate name: '" + command.name + "'.")) &&
        commands == old(commands)
      ensures !old(CommandExists(command.name)) ==>
        r == Success(this) && commands == old(commands) + [command.(client := client)]
    {
      if CommandExists(command.name) {
        return Failure(Error("Cannot register command with duplicate name: '" + command.name + "'."));
      }
      commands := commands + [command.(client := client)];
      return Success(this);
    }

    /** The shared checks, with the command messages. */
    static function CheckConditionals(event: ChatInputInteraction, command: Command): (r: Option<string>)
      ensures r.None? <==> forall c: Conditions.Check ::
        !Conditions.Fails(command.access, Conditions.Origin(event.guildId, event.userId), c)
      ensures r.Some? ==> r.value in {Conditions.CommandMessages.guild, Conditions.CommandMessages.dm, Conditions.CommandMessages.user}
    {
      Conditions.CheckConditionals(Conditions.CommandMessages, command.access, Conditions.Origin(event.guildId, event.userId))
    }

    /** `runCommand`: the first command with the interaction's name is checked
     *  and run; a returned `CommandError` goes to its `error` callback. */
    function RunCommand(event: ChatInputInteraction, outcome: Outcome): (t: seq<Step>)
      reads this
      ensures (forall j :: 0 <= j < |commands| ==> commands[j].name != event.commandName) ==> t == []
      ensures forall i :: FirstNamed(commands, event.commandName, i) ==>
        match CheckConditionals(event, commands[i])
        case Some(message) => t == CallErrorIfPresent(i, commands[i].hasError, message, [])
        case None => t == Invoke(i, commands[i].hasRun, ReturnBased, CommandError, commands[i].hasError, [], outcome)
      ensures forall k: nat, a :: RunCalled(k, a) in t ==>
        FirstNamed(commands, event.commandName, k) && CheckConditionals(event, commands[k]).None?
    {
      match FindIndex(commands, (c: Command) => c.name == event.commandName)
      case None => []
      case Some(i) =>
        assert FirstNamed(commands, event.commandName, i);
        var command := commands[i];
        match CheckConditionals(event, command)
        case Some(message) => CallErrorIfPresent(i, command.hasError, message, [])
        case None => Invoke(i, command.hasRun, ReturnBased, CommandError, command.hasError, [], outcome)
    }

    /** `runAutocomplete`: no access checks; only the first command with the
     *  name, and only if it has an `autocomplete` callback. */
    function RunAutocomplete(event: AutocompleteInteraction): (t: seq<Step>)
      reads this
      ensures t == [] || exists i :: FirstNamed(commands, event.commandName, i) && t == [AutocompleteCalled(i)]
      ensures forall i :: FirstNamed(commands, event.commandName, i) ==>
        (t == [AutocompleteCalled(i)] <==> commands[i].hasAutocomplete)
    {
      match FindIndex(commands, (c: Command) => c.name == event.commandName)
      case None => []
      case Some(i) => if commands[i].hasAutocomplete then [AutocompleteCalled(i)] else []
    }

    /** `checkApplicationReady`: the error thrown when the client has no
     *  `application` yet; an unset client fails on the property read itself. */
    function CheckApplicationReady(): (e: Option<Thrown>)
      reads this, client
      ensures client == null ==> e == Some(TypeError("application"))
      ensures client != null && client.application.None? ==> e == Some(Error(NotReadyMessage))
      ensures e.None? <==> client != null && client.application.Some?
    {
      if client == null then Some(TypeError("application"))
      else if client.application.None? then Some(Error(NotReadyMessage))
      else None
    }

    /** The guard and projection of `updateApplicationCommands`: fails before
     *  any remote call when the client is not ready, otherwise yields the
     *  records the remote command set is replaced with. */
    method UpdateApplicationCommands() returns (r: Result<seq<WireCommand>, Thrown>)
      ensures r.Failure? <==> CheckApplicationReady().Some?
      ensures r.Failure? ==> r.error == CheckApplicationReady().value
      ensures r.Success? ==> |r.value| == |commands|
      ensures r.Success? ==> forall i :: 0 <= i < |commands| ==> r.value[i] == CommandMapper(commands[i])
    {
      var e := CheckApplicationReady();
      if e.Some? {
        return Failure(e.value);
      }
      return Success(Project(commands));
    }

    /** An option is treated as a subcommand exactly when it carries `options`. */
    static predicate IsOptionInstanceOfSubcommand(option: CommandOption)
      ensures option.ArgumentOption? ==> !IsOptionInstanceOfSubcommand(option)
    {
      option.SubcommandWithOptions? && option.options.Some?
    }

    static function CommandMapper(command: Command): (w: WireCommand)
      ensures w.kind == ChatInput && w.name == command.name && w.description == command.description
      ensures w.guildId == command.access.guildId && w.dmPermission == command.access.allowDm
      ensures w.defaultMemberPermissions == command.defaultMemberPermissions
      ensures w.nameLocalizations == command.nameLocalizations
      ensures w.descriptionLocalizations == command.descriptionLocalizations
      ensures w.options.Some? <==> command.options.Some?
      ensures w.options.Some? ==> |w.options.value| == |command.options.value|
      ensures w.options.Some? ==> forall k :: 0 <= k < |w.options.value| ==> w.options.value[k] == OptionsMapper(command.options.value[k])
    {
      WireCommand(
        ChatInput, command.name, command.access.guildId, command.nameLocalizations,
        command.access.allowDm, command.defaultMemberPermissions,
        command.description, command.descriptionLocalizations,
        match command.options
        case None => None
        case Some(os) => Some(seq(|os|, k requires 0 <= k < |os| => OptionsMapper(os[k]))))
    }

    /** Maps one option: a subcommand keeps its nested options unmapped; any
     *  other option (including a subcommand without `options`) is formatted as
     *  an argument, with its choices copied or `[]`. */
    static function OptionsMapper(option: CommandOption): (w: WireOption)
      ensures w.WireSubcommand? <==> IsOptionInstanceOfSubcommand(option)
      ensures w.name == option.name && w.kind == option.kind && w.description == option.description
      ensures w.descriptionLocalizations == option.descriptionLocalizations
      ensures w.WireSubcommand? ==> w.options == option.options.value
      ensures w.WireArgument? ==> w.nameLocalizations == option.nameLocalizations
      ensures w.WireArgument? && option.ArgumentOption? ==>
        w.required == option.required && w.autocomplete == option.autocomplete &&
        w.choices == option.choices.GetOr([])
      ensures w.WireArgument? && option.SubcommandWithOptions? ==>
        w.required.None? && w.autocomplete.None? && w.choices == []
    {
      if IsOptionInstanceOfSubcommand(option) then
        WireSubcommand(option.kind, option.name, option.description, option.descriptionLocalizations, option.options.value)
      else
        match option
        case SubcommandWithOptions(name, nameLoc, description, descriptionLoc, kind, _) =>
          WireArgument(name, nameLoc, description, descriptionLoc, kind, None, None, [])
        case ArgumentOption(name, nameLoc, description, descriptionLoc, kind, required, autocomplete, choices) =>
          WireArgument(name, nameLoc, description, descriptionLoc, kind, required, autocomplete, choices.GetOr([]))
    }
  }

  /** One record per command, in registration order, keeping the names and
   *  the subcommand-versus-argument shape of every top-level option. */
  lemma {:induction false} ProjectionKeepsShape(commands: seq<Command>)
    ensures |Project(commands)| == |commands|
    ensures forall i :: 0 <= i < |commands| ==>
      Project(commands)[i].name == commands[i].name &&
      Project(commands)[i].description == commands[i].description
    ensures forall i, k :: 0 <= i < |commands| && commands[i].options.Some? && 0 <= k < |commands[i].options.value| ==>
      Project(commands)[i].options.Some? &&
      k < |Project(commands)[i].options.value| &&
      (Project(commands)[i].options.value[k].WireSubcommand? <==>
        CommandHandler.IsOptionInstanceOfSubcommand(commands[i].options.value[k]))
  {
    forall i, k | 0 <= i < |commands| && commands[i].options.Some? && 0 <= k < |commands[i].options.value|
      ensures Project(commands)[i].options.Some? && k < |Project(commands)[i].options.value|
      ensures Project(commands)[i].options.value[k].WireSubcommand? <==>
        CommandHandler.IsOptionInstanceOfSubcommand(commands[i].options.value[k])
    {
      var w := CommandHandler.CommandMapper(commands[i]);
      assert Project(commands)[i] == w;
      assert w.options.value[k] == CommandHandler.OptionsMapper(commands[i].options.value[k]);
    }
  }

  /** A subcommand declared without `options` reaches the wire as an argument. */
  lemma SubcommandWithoutOptionsIsArgument(name: string, description: string, kind: nat)
    ensures CommandHandler.OptionsMapper(SubcommandWithOptions(name, None, description, None, kind, None))
         == WireArgument(name, None, description, None, kind, None, None, [])
  {
  }

  /** A command scoped to a guild, used anywhere else (another guild or a
   *  DM), is never run: it reaches only its `error` callback, with the guild
   *  message, or nothing without one. */
  lemma ForeignGuildReachesOnlyError(h: CommandHandler, event: ChatInputInteraction, outcome: Outcome, i: nat, g: string)
    requires FirstNamed(h.commands, event.commandName, i)
    requires h.commands[i].access.guildId == Some(g) && g != "" && event.guildId != Some(g)
    ensures forall k: nat, a :: RunCalled(k, a) !in h.RunCommand(event, outcome)
    ensures h.commands[i].hasError ==>
      h.RunCommand(event, outcome) == [ErrorCalled(i, "This command is not available in this guild.", [])]
    ensures !h.commands[i].hasError ==> h.RunCommand(event, outcome) == []
  {
    assert CommandHandler.CheckConditionals(event, h.commands[i]) == Some("This command is not available in this guild.");
  }
}
