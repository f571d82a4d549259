/** Prefix-triggered text commands: the `LegacyCommandHandler` registry, its
 *  parsing of message text into prefix, command name and arguments, its
 *  dispatch (throw-based error contract: `run` rejects with an
 *  `ExecutionError`), and the argument-count validator. */
module LegacyCommands {
  import opened Common
  import opened Dispatch
  import opened Text
  import Conditions

  /** A declared positional argument. An absent `required` or `spread` flag is
   *  `false`, which is how the validator's truthiness test reads it. */
  datatype ArgumentRule = ArgumentRule(name: string, description: string, required: bool, spread: bool)

  datatype LegacyCommand = LegacyCommand(
    name: string, description: string,
    args: Option<seq<ArgumentRule>>,
    access: Conditions.Access,
    hasError: bool, hasRun: bool,
    client: Client?)

  /** An incoming chat message: its text, its guild (`null` in a DM) and its author. */
  datatype Message = Message(content: string, guildId: Option<string>, authorId: string)

  /** What the parser extracts from a message: the prefix it matched, the
   *  command name after the prefix, and the remaining tokens. */
  datatype Invocation = Invocation(prefix: string, commandName: string, args: seq<string>)

  const MissingArguments: string := "Missing required arguments."
  const TooManyArguments: string := "Too many arguments."

  /** `k` is the first prefix, in list order, that `token` starts with. */
  ghost predicate FirstMatchingPrefix(prefixes: seq<string>, token: string, k: int) {
    IsFirst(prefixes, (prefix: string) => StartsWith(token, prefix), k)
  }

  /** `i` is the first registered command with this name. */
  ghost predicate FirstNamed(commands: seq<LegacyCommand>, name: string, i: int) {
    IsFirst(commands, (c: LegacyCommand) => c.name == name, i)
  }

  /** The parsing half of `runLegacyCommand`: split the text on single spaces,
   *  find the first prefix the first token starts with, strip it. An empty
   *  prefix found first is falsy and, like no match, means "not a command". */
  function ParseMessage(prefixes: seq<string>, content: string): (r: Option<Invocation>)
    ensures r.None? <==>
      (forall k :: 0 <= k < |prefixes| ==> !StartsWith(Split(content)[0], prefixes[k])) ||
      (exists k :: FirstMatchingPrefix(prefixes, Split(content)[0], k) && prefixes[k] == "")
    ensures r.Some? ==> r.value.prefix != ""
    ensures r.Some? ==> exists k :: FirstMatchingPrefix(prefixes, Split(content)[0], k) && prefixes[k] == r.value.prefix
    ensures r.Some? ==> Split(content)[0] == r.value.prefix + r.value.commandName
    ensures r.Some? ==> r.value.args == Split(content)[1..]
  {
    var tokens := Split(content);
    var head := tokens[0];
    match FindIndex(prefixes, (p: string) => StartsWith(head, p))
    case None => None
    case Some(k) =>
      var prefix := prefixes[k];
      if prefix == "" then None
      else
        assert head == prefix + head[|prefix|..];
        Some(Invocation(prefix, head[|prefix|..], tokens[1..]))
  }

  /** Tokenising round trip: the prefix, the command name and the arguments,
   *  joined with single spaces, give back the message text exactly, empty
   *  tokens from repeated spaces included. */
  lemma ParseRoundTrip(prefixes: seq<string>, content: string)
    requires ParseMessage(prefixes, content).Some?
    ensures var inv := ParseMessage(prefixes, content).value;
      Join([inv.prefix + inv.commandName] + inv.args) == content
  {
    var tokens := Split(content);
    var inv := ParseMessage(prefixes, content).value;
    assert tokens == [inv.prefix + inv.commandName] + inv.args;
    JoinSplit(content);
  }

  /** An empty first prefix matches every message and is then treated as no
   *  match, so such a handler never runs anything. */
  lemma EmptyFirstPrefixMatchesNothing(prefixes: seq<string>, content: string)
    requires |prefixes| > 0 && prefixes[0] == ""
    ensures ParseMessage(prefixes, content).None?
  {
    assert StartsWith(Split(content)[0], prefixes[0]);
    assert FirstMatchingPrefix(prefixes, Split(content)[0], 0);
  }

  /** With prefix "!", the text "!ping test" names command "ping" with the
   *  single argument "test". */
  lemma PingWithOneArgument()
    ensures ParseMessage(["!"], "!ping test") == Some(Invocation("!", "ping", ["test"]))
  {
    assert "!ping test" == "!ping" + [Space] + "test";
    SplitOfTwo("!ping", "test", "!ping test");
    assert StartsWith("!ping", "!") && "!ping"[1..] == "ping";
  }

  /** The first matching prefix wins, not the longest: with prefixes "!" and
   *  "!!", the text "!!ping" names command "!ping". */
  lemma FirstPrefixNotLongest()
    ensures ParseMessage(["!", "!!"], "!!ping") == Some(Invocation("!", "!ping", []))
  {
    SplitToken("!!ping");
    assert StartsWith("!!ping", "!");
  }

  /** A message made of the first prefix (when non-empty) and a command name,
   *  with no space in it, is parsed as that command with no arguments,
   *  whatever other prefixes the handler has. */
  lemma FirstPrefixRecognised(prefixes: seq<string>, name: string)
    requires |prefixes| > 0 && prefixes[0] != ""
    requires NoSpace(prefixes[0] + name)
    ensures ParseMessage(prefixes, prefixes[0] + name) == Some(Invocation(prefixes[0], name, []))
  {
    var content := prefixes[0] + name;
    SplitToken(content);
    assert content[..|prefixes[0]|] == prefixes[0];
    assert FirstMatchingPrefix(prefixes, Split(content)[0], 0);
    assert content[|prefixes[0]|..] == name;
  }

  lemma SplitOfTwo(a: string, b: string, s: string)
    requires NoSpace(a) && NoSpace(b) && s == a + [Space] + b
    ensures Split(s) == [a, b]
  {
    JoinCons(a, [b]);
    SplitJoin([a, b]);
  }

  /** How many arguments the rules require. */
  function RequiredCount(rules: seq<ArgumentRule>): (n: nat)
    ensures n <= |rules|
    ensures n == |rules| <==> forall k :: 0 <= k < |rules| ==> rules[k].required
  {
    if |rules| == 0 then 0
    else (if rules[0].required then 1 else 0) + RequiredCount(rules[1..])
  }

  /** The dispatch half of `runLegacyCommand`, once the text is parsed. */
  function RunInvocation(commands: seq<LegacyCommand>, message: Message, inv: Invocation, outcome: Outcome): (t: seq<Step>)
    ensures (forall j :: 0 <= j < |commands| ==> commands[j].name != inv.commandName) ==> t == []
    ensures forall i :: FirstNamed(commands, inv.commandName, i) ==>
      match LegacyCommandHandler.CheckConditionals(message, commands[i])
      case Some(e) => t == CallErrorIfPresent(i, commands[i].hasError, e, inv.args)
      case None => t == Invoke(i, commands[i].hasRun, ThrowBased, ExecutionError, commands[i].hasError, inv.args, outcome)
  {
    match FindIndex(commands, (c: LegacyCommand) => c.name == inv.commandName)
    case None => []
    case Some(i) =>
      assert FirstNamed(commands, inv.commandName, i);
      var command := commands[i];
      match LegacyCommandHandler.CheckConditionals(message, command)
      case Some(e) => CallErrorIfPresent(i, command.hasError, e, inv.args)
      case None => Invoke(i, command.hasRun, ThrowBased, ExecutionError, command.hasError, inv.args, outcome)
  }

  class LegacyCommandHandler {
    var legacyCommands: seq<LegacyCommand>
    var prefixes: seq<string>
    var client: Client?

    /** Command names are unique within the registry. */
    ghost predicate Valid()
      reads this
    {
      forall i, j :: 0 <= i < j < |legacyCommands| ==> legacyCommands[i].name != legacyCommands[j].name
    }

    constructor (prefixes: seq<string>)
      ensures Valid() && this.prefixes == prefixes && legacyCommands == [] && client == null
    {
      legacyCommands := [];
      this.prefixes := prefixes;
      client := null;
    }

    method SetClient(c: Client)
      modifies this
      ensures client == c && legacyCommands == old(legacyCommands) && prefixes == old(prefixes)
    {
      client := c;
    }

    method SetPrefixes(prefixes: seq<string>)
      modifies this
      ensures this.prefixes == prefixes && legacyCommands == old(legacyCommands) && client == old(client)
    {
      this.prefixes := prefixes;
    }

    function CommandExists(name: string): (b: bool)
      reads this
      ensures b <==> exists i :: 0 <= i < |legacyCommands| && legacyCommands[i].name == name
    {
      FindIndex(legacyCommands, (c: LegacyCommand) => c.name == name).Some?
    }

    /** Registers `command` unless its name is taken; the check comes before
     *  any change, so a duplicate leaves the registry as it was. */
    method Register(command: LegacyCommand) returns (r: Result<LegacyCommandHandler, Thrown>)
      requires Valid()
      modifies this
      ensures Valid() && client == old(client) && prefixes == old(prefixes)
      ensures old(CommandExists(command.name)) ==>
        r == Failure(Error("Cannot register command with duplicate name: '" + command.name + "'.")) &&
        legacyCommands == old(legacyCommands)
      ensures !old(CommandExists(command.name)) ==>
        r == Success(this) && legacyCommands == old(legacyCommands) + [command.(client := client)]
    {
      if CommandExists(command.name) {
        return Failure(Error("Cannot register command with duplicate name: '" + command.name + "'."));
      }
      legacyCommands := legacyCommands + [command.(client := client)];
      return Success(this);
    }

    /** The shared checks, with the command messages and the message author. */
    static function CheckConditionals(message: Message, command: LegacyCommand): (r: Option<string>)
      ensures r.None? <==> forall c: Conditions.Check ::
        !Conditions.Fails(command.access, Conditions.Origin(message.guildId, message.authorId), c)
      ensures r.Some? ==> r.value in {Conditions.CommandMessages.guild, Conditions.CommandMessages.dm, Conditions.CommandMessages.user}
    {
      Conditions.CheckConditionals(Conditions.CommandMessages, command.access, Conditions.Origin(message.guildId, message.authorId))
    }

    /** `validateArgs`: too few arguments for the required rules, else too many
     *  for the rules when no rule spreads, else nothing. */
    static function ValidateArgs(args: seq<string>, rules: seq<ArgumentRule>): (r: Option<string>)
      ensures r == Some(MissingArguments) <==> |args| < RequiredCount(rules)
      ensures r == Some(TooManyArguments) <==>
        RequiredCount(rules) <= |args| && |rules| < |args| && forall k :: 0 <= k < |rules| ==> !rules[k].spread
      ensures r.None? <==>
        RequiredCount(rules) <= |args| && (|args| <= |rules| || exists k :: 0 <= k < |rules| && rules[k].spread)
    {
      if |args| < RequiredCount(rules) then Some(MissingArguments)
      else if (forall k :: 0 <= k < |rules| ==> !rules[k].spread) && |args| > |rules| then Some(TooManyArguments)
      else None
    }

    /** `runLegacyCommand`: parse the text, take the first command with the
     *  parsed name, check it, then run it with the remaining tokens; a
     *  rejection with an `ExecutionError` goes to `error` with those tokens. */
    function RunLegacyCommand(message: Message, outcome: Outcome): (t: seq<Step>)
      reads this
      ensures ParseMessage(prefixes, message.content).None? ==> t == []
      ensures var p := ParseMessage(prefixes, message.content);
        p.Some? && (forall j :: 0 <= j < |legacyCommands| ==> legacyCommands[j].name != p.value.commandName) ==>
        t == []
      ensures var p := ParseMessage(prefixes, message.content);
        p.Some? ==> forall i :: FirstNamed(legacyCommands, p.value.commandName, i) ==>
          match CheckConditionals(message, legacyCommands[i])
          case Some(e) => t == CallErrorIfPresent(i, legacyCommands[i].hasError, e, p.value.args)
          case None => t == Invoke(i, legacyCommands[i].hasRun, ThrowBased, ExecutionError,
                                   legacyCommands[i].hasError, p.value.args, outcome)
    {
      var p := ParseMessage(prefixes, message.content);
      if p.None? then [] else RunInvocation(legacyCommands, message, p.value, outcome)
    }

    /** The shape a directory entry must have to be registered: a name, a
     *  description and a `run`. */
    static predicate IsInstanceOfLegacyCommand(candidate: Candidate)
      ensures candidate.description.None? ==> !IsInstanceOfLegacyCommand(candidate)
    {
      candidate.name.Some? && candidate.hasRun && candidate.description.Some?
    }
  }

  /** The legacy shape check needs a description but does not read it. */
  lemma ShapeReadsOnlyDescriptionPresence(candidate: Candidate, description: string)
    requires candidate.description.Some?
    ensures LegacyCommandHandler.IsInstanceOfLegacyCommand(candidate.(description := Some(description)))
         == LegacyCommandHandler.IsInstanceOfLegacyCommand(candidate)
  {
  }

  /** Exactly as many arguments as rules always validates. */
  lemma ExactArityValidates(args: seq<string>, rules: seq<ArgumentRule>)
    requires |args| == |rules|
    ensures LegacyCommandHandler.ValidateArgs(args, rules).None?
  {
  }

  /** A spreading rule lifts the upper bound: any count at or above the
   *  required one validates. */
  lemma SpreadAcceptsAnyExcess(args: seq<string>, rules: seq<ArgumentRule>, k: nat)
    requires k < |rules| && rules[k].spread && RequiredCount(rules) <= |args|
    ensures LegacyCommandHandler.ValidateArgs(args, rules).None?
  {
  }

  /** A message whose parsed name is unknown, or whose checks fail, never
   *  reaches `run`; a failed check reaches `error` with the parsed arguments. */
  lemma FailedCheckNeverRuns(h: LegacyCommandHandler, message: Message, outcome: Outcome, i: nat)
    requires ParseMessage(h.prefixes, message.content).Some?
    requires FirstNamed(h.legacyCommands, ParseMessage(h.prefixes, message.content).value.commandName, i)
    requires LegacyCommandHandler.CheckConditionals(message, h.legacyCommands[i]).Some?
    ensures forall k: nat, a :: RunCalled(k, a) !in h.RunLegacyCommand(message, outcome)
    ensures h.legacyCommands[i].hasError ==>
      h.RunLegacyCommand(message, outcome) ==
        [ErrorCalled(i, LegacyCommandHandler.CheckConditionals(message, h.legacyCommands[i]).value,
                     ParseMessage(h.prefixes, message.content).value.args)]
  {
  }
}
