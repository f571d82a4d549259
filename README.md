# nhandler core, modelled in Dafny

nhandler is a small framework for Discord bots. Its core is a set of handler
registries, one per kind of entry point: slash commands, legacy prefix
commands, context-menu actions, message components and client events. Each
registry stores descriptors under a unique key and dispatches an incoming
interaction to the first descriptor that matches it. A module loader discovers
feature modules, drops malformed and duplicate ones, disables modules whose
dependencies are missing, and registers the remaining modules' commands,
events and components with the handlers.

The model has these parts:

- `Common`: optional and nullable values, what an operation throws, and the
  platform client. The client has an `application` and a list of listeners.
  `FindIndex` is the first-match scan (`Array.prototype.find`) that every
  registry is built on.
- `Text`: `split(" ")`, its inverse `join(" ")`, and `startsWith`, as the
  legacy parser uses them.
- `Dispatch`: what one dispatch does after a match. `run`'s promise settles
  in a way the caller supplies as an `Outcome`. The model records a trace of
  `Step`s, so it is observable which `run`/`error` was called, with which
  registry index, and what escaped.
  - Slash commands and components are return-based: `run` fulfils with an
    error instance.
  - Context-menu actions and legacy commands are throw-based: `run` rejects
    with an error instance.
- `Conditions`: the four ordered access checks and their fixed messages. The
  command, context-menu and legacy handlers share them.
- `Commands`, `LegacyCommands`, `ContextMenu`, `Components`, `Events`: one
  class per handler. Its registry is a `seq` field that `Register` extends in
  place, and its `Valid()` says the keys are unique. Dispatch is a function of
  the registry and the interaction.
- `LegacyFactory`: `createLegacyCommands`.
- `ModuleLoader`:
  - the loading loop, the dependency loop and the registration loops, as
    methods proved against reference functions;
  - the process-wide `modules` list, as a class;
  - its lookups.

JavaScript truthiness is kept where the code depends on it:

- An empty `guildId` on a descriptor declares no guild scope.
- Only `allowDm === false` forbids direct messages.
- A declared allow-list, even an empty one, must contain the id.
- An empty prefix that matches first means "not a command".
- A module with an empty id is skipped.

Where the documentation and the code disagree, the model follows the code.
The doc comments on `run` for slash commands and components
(src/interfaces/Command.ts:119, src/interfaces/Component.ts:40 and 50) say
that a thrown `CommandError` or `ComponentError` reaches `error`. Those two
handlers attach only a fulfilment continuation, so a thrown error escapes
unhandled. `Dispatch.ContractsDisagree` exhibits the difference.

## Model

| member | source | states |
|---|---|---|
| Common.FindIndex | src/classes/CommandHandler.ts:40 | the index returned satisfies the predicate and no earlier element does; none is returned exactly when no element does |
| Text.Split | packages/handler/src/classes/LegacyCommandHandler.ts:105 | splitting yields at least one token and no token contains a space |
| Text.JoinSplit | packages/handler/src/classes/LegacyCommandHandler.ts:105 | joining the tokens of a split with single spaces gives back the text exactly |
| Text.SplitJoin | packages/handler/src/classes/LegacyCommandHandler.ts:105 | splitting a single-space join of space-free tokens gives back the tokens |
| Text.SplitToken | packages/handler/src/classes/LegacyCommandHandler.ts:105 | a space-free text splits to itself |
| Dispatch.Settle | src/classes/CommandHandler.ts:54-63 | return-based: every rejection escapes unhandled, and a fulfilled instance of the handler's own error class reaches `error`. Throw-based: fulfilled values are ignored, a rejection with the own class reaches `error`, and any other rejection escapes. `error` is called exactly when it exists and the failure is typed; `run` is never called again. Nothing else happens: the trace is empty, a single escape, or that one `error` call, so a success, another class's fulfilled error and a typed failure without `error` leave no trace |
| Dispatch.CallErrorIfPresent | src/classes/CommandHandler.ts:77-82 | the `error` callback is called at most once, with exactly the given message and arguments, and exactly when it exists |
| Dispatch.Invoke | src/classes/CommandHandler.ts:51-54 | without `run` nothing happens; otherwise `run` is called once, first, on the matched index with the arguments, and then its promise settles |
| Dispatch.ContractsDisagree | src/classes/ContextMenuHandler.ts:98-108 | the same thrown error reaches `error` under the throw-based contract and escapes under the return-based one; the same returned error reaches `error` only under the return-based one |
| Conditions.CheckConditionals | src/classes/CommandHandler.ts:23-37 | no message is returned exactly when none of the four checks fails |
| Conditions.CheckConditionalsIsFirstFailure | src/classes/CommandHandler.ts:23-37 | the message returned is the one of the first failing check in the order fixed guild, DMs, guild allow-list, user allow-list |
| Conditions.DirectMessageFailsGuildAllowList | src/classes/CommandHandler.ts:30-32 | a DM never passes a declared guild allow-list |
| Conditions.PassingMeansAdmitted | src/classes/CommandHandler.ts:23-37 | when the checks pass, a guild-scoped descriptor is used in its guild and the guild and user are on the declared allow-lists |
| Commands.CommandHandler.CheckConditionals | src/classes/CommandHandler.ts:23-37 | passes exactly when no check fails for the interaction's guild and user; a failure carries one of the three command messages |
| Commands.CommandHandler.constructor | src/classes/CommandHandler.ts:9 | a new handler has no commands and no client |
| Commands.CommandHandler.SetClient | src/classes/BaseHandler.ts:11-14 | sets the client and keeps the commands |
| Commands.CommandHandler.CommandExists | src/classes/CommandHandler.ts:11-13 | true exactly when some registered command has the name |
| Commands.CommandHandler.Register | src/classes/CommandHandler.ts:15-21 | a taken name throws the duplicate-name error and leaves the registry unchanged; otherwise the command is appended carrying the handler's client. Names stay unique |
| Commands.CommandHandler.RunCommand | src/classes/CommandHandler.ts:39-64 | an unknown name does nothing. The first command with the name gets its check message via `error`, or is run under the return-based contract. `run` is called only on that command and only when its checks pass |
| Commands.CommandHandler.RunAutocomplete | src/classes/CommandHandler.ts:66-75 | only the first command with the name can be called, with no access checks; it is called exactly when it has an `autocomplete` callback |
| Commands.CommandHandler.CheckApplicationReady | src/classes/CommandHandler.ts:84-88 | passes exactly when a client is set and has an application; an unset client fails on the property read, an unready one with the not-ready message |
| Commands.CommandHandler.UpdateApplicationCommands | src/classes/CommandHandler.ts:90-101 | fails exactly when the readiness check does, with its error; otherwise yields one mapped record per registered command, in order |
| Commands.CommandHandler.CommandMapper | src/classes/CommandHandler.ts:107-119 | the record has the chat-input type and the command's name, scope, DM permission, permissions, descriptions and localisations; options are mapped one by one when present |
| Commands.CommandHandler.OptionsMapper | src/classes/CommandHandler.ts:121-150 | an option with nested `options` becomes a subcommand record with those options unmapped; any other option becomes an argument record whose choices are copied or `[]` |
| Commands.CommandHandler.IsOptionInstanceOfSubcommand | src/classes/CommandHandler.ts:103-105 | an argument option, which has no `options`, is never taken for a subcommand |
| Commands.Project | src/classes/CommandHandler.ts:94 | one record per command, in order, each of the chat-input type and with the command's name |
| Commands.ProjectionKeepsShape | src/classes/CommandHandler.ts:94 | the projection has one record per command, in order, with the same names and descriptions and the same subcommand-versus-argument shape for each top-level option |
| Commands.SubcommandWithoutOptionsIsArgument | src/classes/CommandHandler.ts:103-105 | a subcommand declared without `options` goes on the wire as an argument |
| Commands.ForeignGuildReachesOnlyError | src/classes/CommandHandler.ts:39-48 | for any non-empty guild id, a command scoped to it and used anywhere else is never run; it reaches its `error` callback with the guild message, or nothing without one |
| LegacyCommands.ParseMessage | packages/handler/src/classes/LegacyCommandHandler.ts:105-109 | nothing is parsed exactly when no prefix starts the first token, or the first prefix that does is empty. Otherwise the result has the first matching prefix, the rest of the first token as the name, and the remaining tokens as arguments |
| LegacyCommands.ParseRoundTrip | packages/handler/src/classes/LegacyCommandHandler.ts:105-109 | prefix plus name, then the arguments, joined with single spaces, give back the message text |
| LegacyCommands.EmptyFirstPrefixMatchesNothing | packages/handler/src/classes/LegacyCommandHandler.ts:107-108 | with an empty first prefix, no message is ever parsed as a command |
| LegacyCommands.PingWithOneArgument | packages/handler/src/classes/LegacyCommandHandler.ts:105-109 | with prefix `!`, `!ping test` is command `ping` with argument `test` |
| LegacyCommands.FirstPrefixNotLongest | packages/handler/src/classes/LegacyCommandHandler.ts:107 | with prefixes `!` and `!!`, `!!ping` is command `!ping`: the first prefix in list order wins, not the longest |
| LegacyCommands.FirstPrefixRecognised | packages/handler/src/classes/LegacyCommandHandler.ts:105-109 | a space-free message made of a non-empty first prefix and a name is parsed as that command with no arguments, whatever the other prefixes |
| LegacyCommands.RequiredCount | packages/handler/src/classes/LegacyCommandHandler.ts:87 | the required count is at most the number of rules, and equals it exactly when every rule is required |
| LegacyCommands.RunInvocation | packages/handler/src/classes/LegacyCommandHandler.ts:111-136 | an unknown name does nothing; the first command with the name gets its check message via `error` with the arguments, or is run under the throw-based contract with the arguments |
| LegacyCommands.LegacyCommandHandler.constructor | packages/handler/src/classes/LegacyCommandHandler.ts:18-21 | a new handler holds the given prefixes and no commands |
| LegacyCommands.LegacyCommandHandler.SetClient | packages/handler/src/classes/BaseHandler.ts:15-18 | sets the client and keeps commands and prefixes |
| LegacyCommands.LegacyCommandHandler.SetPrefixes | packages/handler/src/classes/LegacyCommandHandler.ts:96-98 | replaces the prefixes and nothing else |
| LegacyCommands.LegacyCommandHandler.CommandExists | packages/handler/src/classes/LegacyCommandHandler.ts:23-25 | true exactly when some registered command has the name |
| LegacyCommands.LegacyCommandHandler.Register | packages/handler/src/classes/LegacyCommandHandler.ts:27-35 | a taken name throws the duplicate-name error and changes nothing; otherwise the command is appended carrying the client. Names stay unique |
| LegacyCommands.LegacyCommandHandler.ValidateArgs | packages/handler/src/classes/LegacyCommandHandler.ts:86-94 | missing arguments exactly when fewer than required; otherwise too many exactly when no rule spreads and there are more arguments than rules; otherwise valid |
| LegacyCommands.LegacyCommandHandler.CheckConditionals | packages/handler/src/classes/LegacyCommandHandler.ts:70-84 | passes exactly when no check fails for the message's guild and author; a failure carries one of the three command messages |
| LegacyCommands.LegacyCommandHandler.RunLegacyCommand | packages/handler/src/classes/LegacyCommandHandler.ts:100-137 | text that does not parse, or names no command, does nothing. Otherwise the first command with the parsed name is checked and then run with the remaining tokens under the throw-based contract |
| LegacyCommands.ExactArityValidates | packages/handler/src/classes/LegacyCommandHandler.ts:86-94 | exactly one argument per rule always validates |
| LegacyCommands.SpreadAcceptsAnyExcess | packages/handler/src/classes/LegacyCommandHandler.ts:90 | with a spreading rule, any count at or above the required one validates |
| LegacyCommands.FailedCheckNeverRuns | packages/handler/src/classes/LegacyCommandHandler.ts:115-121 | a command whose checks fail is never run; with an `error` callback, that callback gets the message and the parsed arguments |
| LegacyCommands.LegacyCommandHandler.IsInstanceOfLegacyCommand | packages/handler/src/classes/LegacyCommandHandler.ts:139-141 | an entry without a description is refused |
| LegacyCommands.ShapeReadsOnlyDescriptionPresence | packages/handler/src/classes/LegacyCommandHandler.ts:139-141 | the legacy shape check depends on whether a description is present, not on what it says |
| ContextMenu.CommandsToRegister.constructor | packages/handler/src/classes/BaseHandler.ts:4 | the shared list of records starts empty |
| ContextMenu.ContextMenuHandler.constructor | src/classes/ContextMenuHandler.ts:10 | a new handler has no actions and no client and uses the given shared list |
| ContextMenu.ContextMenuHandler.SetClient | src/classes/BaseHandler.ts:11-14 | sets the client and keeps the actions |
| ContextMenu.ContextMenuHandler.ActionExists | src/classes/ContextMenuHandler.ts:12-14 | true exactly when some action has both the name and the type |
| ContextMenu.ContextMenuHandler.Register | src/classes/ContextMenuHandler.ts:16-27 | a taken (name, type) pair throws the duplicate message naming both, and neither list changes. Otherwise the action is appended with the client and its wire record is appended to the shared list. Pairs stay unique |
| ContextMenu.ContextMenuHandler.CheckConditionals | src/classes/ContextMenuHandler.ts:62-76 | passes exactly when no check fails for the interaction's guild and user; a failure carries one of the three action messages |
| ContextMenu.ContextMenuHandler.RunAction | src/classes/ContextMenuHandler.ts:78-109 | throws the misuse error when the interaction has no command type or one below 2. Otherwise it matches name and type together; an unknown pair does nothing, and the first match is checked and then run under the throw-based contract. `run` is called only on that action after its checks pass |
| ContextMenu.ContextMenuHandler.ActionMapper | src/classes/ContextMenuHandler.ts:126-134 | the record copies type, name, guild and DM permission; a missing permission bitfield becomes an explicit null, and a present one is kept |
| ContextMenu.ContextMenuHandler.IsInstanceOfCtxMenuAction | src/classes/ContextMenuHandler.ts:122-124 | an accepted entry has a name and a `run` |
| ContextMenu.SameNameDifferentType | src/classes/ContextMenuHandler.ts:12-27 | a user action and a message action with the same name both register, and both records are queued in order |
| ContextMenu.ShapeIgnoresDescription | src/classes/ContextMenuHandler.ts:122-124 | the shape check for context-menu actions does not depend on the description |
| Components.ComponentHandler.constructor | src/classes/ComponentHandler.ts:8 | a new handler has no components and no client |
| Components.ComponentHandler.SetClient | src/classes/BaseHandler.ts:11-14 | sets the client and keeps the components |
| Components.ComponentHandler.ComponentExists | src/classes/ComponentHandler.ts:10-12 | true exactly when some component has the custom id |
| Components.ComponentHandler.Register | src/classes/ComponentHandler.ts:14-20 | a taken custom id throws the duplicate error and changes nothing; otherwise the component is appended with the client. Ids stay unique |
| Components.ComponentHandler.RunComponent | src/classes/ComponentHandler.ts:22-43 | an interaction no component claims does nothing. The first component that claims it is run under the return-based contract. `run` is called only on that component |
| Components.Matches | src/classes/ComponentHandler.ts:23-26 | without a matcher, a component claims only interactions carrying its own custom id. A matcher is called with the component's own custom id in view, as `this.customId` |
| Components.OwnIdPrefixClaimsExtensions | src/interfaces/Component.ts:24-29 | with the documented matcher, which asks whether the interaction's custom id starts with the component's own, a component claims exactly the interactions whose id extends its own. A component "test" claims "test-1", and renamed "x" it does not |
| Components.PlainIdsMatchExactly | src/classes/ComponentHandler.ts:23-26 | without matchers, the component chosen is exactly the first with the interaction's custom id |
| Components.CatchAllShadowsLater | src/interfaces/Component.ts:29 | a component with any matcher that accepts every interaction shadows every component registered after it |
| Events.EventHandler.constructor | src/classes/EventHandler.ts:5 | a new handler has no events and no client |
| Events.EventHandler.SetClient | src/classes/BaseHandler.ts:11-14 | sets the client and keeps the events |
| Events.EventHandler.EventExists | src/classes/EventHandler.ts:7-9 | true exactly when some event has the name |
| Events.ModeOf | src/classes/EventHandler.ts:15 | an event subscribes through `once` exactly when its `once` flag is set, otherwise through `on` |
| Events.EventHandler.Register | src/classes/EventHandler.ts:11-19 | a taken name throws the duplicate error before anything changes. Without a client, subscribing throws and the registry is unchanged. Otherwise the event is appended with the client and subscribed once or persistently per its flag, with nothing else on the client changed |
| Events.RegisterTwice | src/classes/EventHandler.ts:11-19 | two events with different names subscribe both, in order; the same name twice subscribes once |
| LegacyFactory.CreationError | packages/handler/src/functions/createLegacyCommands.ts:16-17 | the factory refuses exactly when the client is missing or the prefix list is empty |
| LegacyFactory.CreateLegacyCommands | packages/handler/src/functions/createLegacyCommands.ts:11-21 | refuses with the required-arguments error exactly when the guard does; otherwise returns a fresh valid handler with exactly those prefixes, the client set and no commands |
| LegacyFactory.EmptyPrefixPassesGuard | packages/handler/src/functions/createLegacyCommands.ts:16-17 | the guard accepts the prefix list `[""]`, and a handler with it parses no message as a command |
| ModuleLoader.CollectModules | src/framework/modules.ts:29-60 | the process exits exactly when some import throws, or exports `init` with a `metadata` that is `undefined` or `null`, whose `id` is then read; otherwise the loop yields the reference list of kept modules |
| ModuleLoader.CollectIds | src/framework/modules.ts:33-54 | a module id is loaded exactly when some well-formed import has it |
| ModuleLoader.CollectDistinct | src/framework/modules.ts:47-54 | loaded ids are pairwise distinct |
| ModuleLoader.CollectedIsFirst | src/framework/modules.ts:33-54 | every loaded module is the metadata of the first well-formed import with its id |
| ModuleLoader.FirstIsCollected | src/framework/modules.ts:47-54 | the first well-formed import with an id is loaded |
| ModuleLoader.DisableMissingDependencies | src/framework/modules.ts:62-74 | the loop leaves every module as the reference dependency check says |
| ModuleLoader.DependencyCheckDisables | src/framework/modules.ts:62-74 | a module with a dependency not among the loaded ids ends disabled; one whose dependencies are all loaded keeps its flag; only the flag changes |
| ModuleLoader.DisablingIsNotTransitive | src/framework/modules.ts:62-74 | a module whose dependency was itself disabled for a missing dependency stays active |
| ModuleLoader.EnabledOnly | src/framework/modules.ts:81 | the filter keeps only enabled modules, all of them, and adds none |
| ModuleLoader.EnabledOnlyDistinct | src/framework/modules.ts:81 | filtering keeps ids distinct |
| ModuleLoader.ActiveModules | src/framework/modules.ts:29-81 | every kept module is enabled, has a distinct id, and has all its dependencies loaded. It is the first well-formed import with its id, with at most its flag changed |
| ModuleLoader.RegisterCommands | src/framework/modules.ts:84 | registration throws exactly when some name is already taken or repeated in the list; otherwise all commands are appended in order with the client |
| ModuleLoader.RegisterEvents | src/framework/modules.ts:85 | throws exactly when some name is taken or repeated, or there are events and no client. Otherwise all events are appended and subscribed in order. The client's application is never changed |
| ModuleLoader.RegisterComponents | src/framework/modules.ts:86 | throws exactly when some custom id is taken or repeated; otherwise all components are appended in order |
| ModuleLoader.RegisterModule | src/framework/modules.ts:84-86 | registration throws exactly when one of the module's names or custom ids is taken or repeated, or it has events and the event handler has no client; otherwise its commands, events and subscriptions, and components are added to the three handlers. The client's application is never changed |
| ModuleLoader.RegisterModules | src/framework/modules.ts:83-87 | the loop throws exactly when the modules' names or custom ids together are taken or repeated, or there are events and no client; otherwise all their commands, events, subscriptions and components are added, module by module. The client's application is never changed |
| ModuleLoader.ModuleRegistry.constructor | src/framework/modules.ts:9 | the process-wide module list starts empty |
| ModuleLoader.ModuleRegistry.LoadModules | src/framework/modules.ts:11-96 | exits with code 1 exactly when an import throws or exports a nullish `metadata` beside `init`. The exit changes nothing, neither the handlers nor the client's listeners. The client's application is unchanged on every path. It resolves exactly when no import throws and the kept modules' keys together are neither taken nor repeated, with a client wherever events are registered. A rejection leaves the module list as it was. On success the list is exactly the kept modules up to order, and the handlers gain those modules' registrations in list order |
| ModuleLoader.ModuleRegistry.GetModules | src/framework/modules.ts:102-104 | after loading, every listed module is enabled and ids are distinct |
| ModuleLoader.ModuleRegistry.GetModule | src/framework/modules.ts:111-113 | found exactly when some module has the id, and then it is the first one with it |
| ModuleLoader.ModuleRegistry.ModuleActive | src/framework/modules.ts:121-124 | true exactly when the first module with the id is enabled |
| ModuleLoader.ModuleRegistry.GetAction | src/framework/modules.ts:133-137 | found exactly when the module is found and exports the action under that key, and then it is that action |
| ModuleLoader.ActiveIffFound | src/framework/modules.ts:98-124 | once loaded, a module is active exactly when it can be looked up |

## Left out

- Debug logging, the `EventEmitter` events the handlers emit, and the
  `debug` constructor options. The model assumes that every listener and the
  `debug` callback return normally. A throwing one makes the operation throw:
  before the registry changes when it runs from the debug log, and after the
  command is stored when it listens for `commandRegistered` (legacy handler)
  or `actionRegistered` (context-menu handler).
- `registerFromDir` in every handler: it reads directories and imports files.
  The shape checks it applies (`IsInstanceOfLegacyCommand`,
  `IsInstanceOfCtxMenuAction`) are modelled as predicates.
- The "run method must return a promise" checks. `run` is assumed to return a
  promise; how that promise settles is a parameter.
- The `instanceof Message` guard of `runLegacyCommand`. The model's message
  type admits only messages.
- `validateArgs` is not called by `RunLegacyCommand`, because the source has
  that call commented out.
- The remote calls: `application.commands.set` and the direct-API `fetch` of
  `updateApplicationCommands`, with their promises. The model stops at the
  readiness guard and the records that would be sent.
- The asynchronous `init()` of each loaded module is not modelled. It is
  assumed to fulfil, so a loaded run always reaches the assignment of
  `modules`. `process.exit(1)` is modelled as the `Exited(1)` result.
- ModuleLoader.ModuleRegistry.LoadModules: the order of the dependency sort
  is not modelled, so the kept modules are stated only up to permutation.
  The comparator is not a consistent ordering, so the result depends on the
  engine's sort. Handler contents are stated in the order of the resulting
  list.
- ModuleLoader.ModuleRegistry.LoadModules: reading the modules directory is
  abstracted into the `imports` argument. The directory is read before the
  loading loop's `try`, so a missing or unreadable directory rejects the
  promise with the file-system error, before any import and without
  `process.exit(1)`. That path is not modelled.
- ModuleLoader.ModuleRegistry.LoadModules: on a rejection, which
  registrations already took effect is not stated. Only the unchanged
  module list is stated.
- ModuleLoader.ModuleRegistry.GetAction: a key inherited from
  `Object.prototype` (such as `toString`) is not found. In the source, such a
  key would be found on an `actions` object.
- Components.Matches: a matcher sees the component only through its custom
  id. Other fields it could reach through `this` (its `metadata`, its
  `client`) are not passed to it.
- Metadata objects are values. The in-place `enabled = false` is stated on the
  list the loop returns, and `descriptor.client = handler.client` is the
  registry storing a copy with the client set. Aliasing of the caller's
  objects is not captured, including the `client` the source writes into an
  event before a failed subscription.
- Entities, routers and router prefixes of module metadata. Nothing in the
  modelled code reads them.
- Discord's numeric ranges (command types, permission bitfields) are
  unbounded integers.
- The command-line tool, the test bot, the examples and the configuration
  loader are not part of this model.
