/** Message components (buttons, select menus, modals): the `ComponentHandler`
 *  registry, keyed by `customId`, and its dispatch, which picks the first
 *  component whose matcher accepts the interaction. There are no access
 *  checks; the error contract is return-based (`run` fulfils with a
 *  `ComponentError`). */
module Components {
  import opened Common
  import opened Dispatch
  import opened Text

  /** An incoming component interaction. */
  datatype ComponentInteraction = ComponentInteraction(customId: string, guildId: Option<string>, userId: string)

  /** A component descriptor; `findFn`, when present, replaces the plain
   *  `customId` comparison. It is called as a method of the component, so
   *  besides the interaction it sees the component's own `customId`
   *  (`this.customId`), passed here as its first argument. */
  datatype Component = Component(
    customId: string,
    findFn: Option<(string, ComponentInteraction) -> bool>,
    hasError: bool, hasRun: bool,
    client: Client?)

  /** Whether `c` claims the interaction. */
  predicate Matches(c: Component, event: ComponentInteraction)
    ensures c.findFn.None? && Matches(c, event) ==> c.customId == event.customId
  {
    if c.findFn.Some? then c.findFn.value(c.customId, event) else c.customId == event.customId
  }

  /** `i` is the first registered component that claims the interaction. */
  ghost predicate FirstMatch(components: seq<Component>, event: ComponentInteraction, i: int) {
    IsFirst(components, (c: Component) => Matches(c, event), i)
  }

  class ComponentHandler {
    var components: seq<Component>
    var client: Client?

    /** Custom ids are unique within the registry. */
    ghost predicate Valid()
      reads this
    {
      forall i, j :: 0 <= i < j < |components| ==> components[i].customId != components[j].customId
    }

    constructor ()
      ensures Valid() && components == [] && client == null
    {
      components := [];
      client := null;
    }

    method SetClient(c: Client)
      modifies this
      ensures client == c && components == old(components)
    {
      client := c;
    }

    function ComponentExists(customId: string): (b: bool)
      reads this
      ensures b <==> exists i :: 0 <= i < |components| && components[i].customId == customId
    {
      FindIndex(components, (c: Component) => c.customId == customId).Some?
    }

    /** Registers `component` unless its custom id is taken; the registered
     *  copy carries the handler's client. */
    method Register(component: Component) returns (r: Result<ComponentHandler, Thrown>)
      requires Valid()
      modifies this
      ensures Valid() && client == old(client)
      ensures old(ComponentExists(component.customId)) ==>
        r == Failure(Error("Cannot register component with duplicate customId: '" + component.customId + "'.")) &&
        components == old(components)
      ensures !old(ComponentExists(component.customId)) ==>
        r == Success(this) && components == old(components) + [component.(client := client)]
    {
      if ComponentExists(component.customId) {
        return Failure(Error("Cannot register component with duplicate customId: '" + component.customId + "'."));
      }
      components := components + [component.(client := client)];
      return Success(this);
    }

    /** `runComponent`: runs the first component that claims the interaction;
     *  a fulfilled `ComponentError` goes to its `error` callback. */
    function RunComponent(event: ComponentInteraction, outcome: Outcome): (t: seq<Step>)
      reads this
      ensures (forall j :: 0 <= j < |components| ==> !Matches(components[j], event)) ==> t == []
      ensures forall i :: FirstMatch(components, event, i) ==>
        t == Invoke(i, components[i].hasRun, ReturnBased, ComponentError, components[i].hasError, [], outcome)
      ensures forall k: nat, a :: RunCalled(k, a) in t ==> FirstMatch(components, event, k)
    {
      match FindIndex(components, (c: Component) => Matches(c, event))
      case None => []
      case Some(i) =>
        assert FirstMatch(components, event, i);
        var component := components[i];
        Invoke(i, component.hasRun, ReturnBased, ComponentError, component.hasError, [], outcome)
    }
  }

  /** The matcher the component interface documents: the interaction's
   *  custom id starts with the component's own. */
  const OwnIdPrefix: (string, ComponentInteraction) -> bool :=
    (customId: string, event: ComponentInteraction) => StartsWith(event.customId, customId)

  /** With the documented prefix matcher, a component claims every
   *  interaction whose custom id extends its own, not only its own id; so a
   *  component with id "test" claims "test-1", and the same component
   *  renamed to "x" does not. */
  lemma OwnIdPrefixClaimsExtensions(c: Component, event: ComponentInteraction)
    requires c.findFn == Some(OwnIdPrefix)
    ensures Matches(c, event) <==> StartsWith(event.customId, c.customId)
    ensures c.customId == "test" && event.customId == "test-1" ==>
      Matches(c, event) && !Matches(c.(customId := "x"), event)
  {
    if c.customId == "test" && event.customId == "test-1" {
      assert event.customId[..|"test"|] == "test";
      assert event.customId[..|"x"|][0] == 't' != "x"[0];
    }
  }

  /** Without matchers, an interaction runs only the component with exactly
   *  its custom id, the first one registered with it. */
  lemma PlainIdsMatchExactly(components: seq<Component>, event: ComponentInteraction, i: int)
    requires forall j :: 0 <= j < |components| ==> components[j].findFn.None?
    requires 0 <= i < |components|
    ensures FirstMatch(components, event, i) <==>
      components[i].customId == event.customId &&
      forall j :: 0 <= j < i ==> components[j].customId != event.customId
  {
  }

  /** A component whose matcher accepts everything shadows every component
   *  registered after it, whatever their custom ids. */
  lemma CatchAllShadowsLater(h: ComponentHandler, event: ComponentInteraction, outcome: Outcome, i: nat)
    requires i < |h.components|
    requires h.components[i].findFn.Some? && forall e :: h.components[i].findFn.value(h.components[i].customId, e)
    ensures forall k: nat, a :: RunCalled(k, a) in h.RunComponent(event, outcome) ==> k <= i
  {
    forall k: nat, a | RunCalled(k, a) in h.RunComponent(event, outcome)
      ensures k <= i
    {
      assert FirstMatch(h.components, event, k);
      assert Matches(h.components[i], event);
    }
  }
}
