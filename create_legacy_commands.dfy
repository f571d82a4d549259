/** `createLegacyCommands`: the factory that builds a legacy command handler
 *  from a client and a non-empty prefix list. */
module LegacyFactory {
  import opened Common
  import opened LegacyCommands

  const CreationMessage: string := "createLegacyCommands(): Client and prefix is required."

  /** The factory's guard. A missing client is `null`; a missing or `null`
   *  prefix list is the empty list, which the guard refuses alike. */
  function CreationError(client: Client?, prefixes: seq<string>): (e: Option<Thrown>)
    ensures e.None? <==> client != null && |prefixes| > 0
    ensures e.Some? ==> e.value == Error(CreationMessage)
  {
    if client == null || |prefixes| == 0 then Some(Error(CreationMessage)) else None
  }

  /** Builds a fresh handler with exactly the given prefixes and the client set. */
  method CreateLegacyCommands(client: Client?, prefixes: seq<string>) returns (r: Result<LegacyCommandHandler, Thrown>)
    ensures r.Failure? <==> CreationError(client, prefixes).Some?
    ensures r.Failure? ==> r.error == Error(CreationMessage)
    ensures r.Success? ==> fresh(r.value) && r.value.Valid()
    ensures r.Success? ==> r.value.prefixes == prefixes && |r.value.prefixes| > 0
    ensures r.Success? ==> r.value.client == client && client != null && r.value.legacyCommands == []
  {
    var e := CreationError(client, prefixes);
    if e.Some? {
      return Failure(e.value);
    }
    var handler := new LegacyCommandHandler(prefixes);
    handler.SetClient(client);
    return Success(handler);
  }

  /** The guard only asks for a non-empty list: `[""]` passes it, and the
   *  handler it builds recognises no message as a command. */
  lemma EmptyPrefixPassesGuard(client: Client)
    ensures CreationError(client, [""]).None?
    ensures forall content :: ParseMessage([""], content).None?
  {
    forall content
      ensures ParseMessage([""], content).None?
    {
      EmptyFirstPrefixMatchesNothing([""], content);
    }
  }
}
