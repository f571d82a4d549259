/** The module loader: feature modules found under a directory are validated,
 *  de-duplicated by id, disabled when a dependency is missing, filtered to
 *  the enabled ones, and their commands, events and components registered
 *  with the three handlers. The loaded list is the process-wide `modules`,
 *  over which the lookups run. */
module ModuleLoader {
  import opened Common
  import Commands
  import Events
  import Components

  /** An exported module function, by identity. */
  datatype ActionFunction = ActionFunction(id: nat)

  datatype ModuleMetadata = ModuleMetadata(
    enabled: bool,
    id: string,                      // an empty id counts as missing
    depends: Option<seq<string>>,
    commands: Option<seq<Commands.Command>>,
    events: Option<seq<Events.Event>>,
    components: Option<seq<Components.Component>>,
    actions: Option<map<string, ActionFunction>>)

  /** What importing one module directory yields: the import throws; a
   *  namespace exporting `metadata` as `undefined` or `null`, so that the
   *  presence test passes and reading its `id` throws; or a namespace that
   *  may lack its `metadata` or `init` export. */
  datatype Import =
    | ImportFailed
    | NullishMetadata(hasInit: bool)
    | Namespace(metadata: Option<ModuleMetadata>, hasInit: bool)

  /** How `loadModules` ends: it resolves, the process exits with the given
   *  code, or its promise rejects with what a registration threw. */
  datatype LoadResult = Loaded | Exited(code: int) | Rejected(thrown: Thrown)

  /*** Validation and de-duplication ***/

  /** An import that makes the loading loop throw, which ends the process:
   *  the import itself fails, or it passes the presence test with a nullish
   *  `metadata` whose `id` is then read. */
  predicate Aborts(imp: Import) {
    imp.ImportFailed? || (imp.NullishMetadata? && imp.hasInit)
  }

  /** An import that exports `metadata` and `init`, with a non-empty id. */
  predicate WellFormed(imp: Import) {
    imp.Namespace? && imp.metadata.Some? && imp.hasInit && imp.metadata.value.id != ""
  }

  predicate HasId(ms: seq<ModuleMetadata>, id: string) {
    exists j :: 0 <= j < |ms| && ms[j].id == id
  }

  predicate DistinctIds(ms: seq<ModuleMetadata>) {
    forall i, j :: 0 <= i < j < |ms| ==> ms[i].id != ms[j].id
  }

  /** Reference definition of the loading loop: imports in order, keeping a
   *  well-formed one unless its id is already loaded. */
  function Collect(imports: seq<Import>): seq<ModuleMetadata> {
    if |imports| == 0 then []
    else
      var loaded := Collect(imports[..|imports| - 1]);
      var imp := imports[|imports| - 1];
      if WellFormed(imp) && !HasId(loaded, imp.metadata.value.id) then loaded + [imp.metadata.value]
      else loaded
  }

  /** Import `i` is well-formed and no earlier well-formed import has its id. */
  ghost predicate FirstWithId(imports: seq<Import>, i: int) {
    0 <= i < |imports| && WellFormed(imports[i]) &&
    forall j :: 0 <= j < i ==> !(WellFormed(imports[j]) && imports[j].metadata.value.id == imports[i].metadata.value.id)
  }

  /** The loading loop: stops the process on the first failing import,
   *  otherwise yields `Collect(imports)`. */
  method CollectModules(imports: seq<Import>) returns (r: Option<seq<ModuleMetadata>>)
    ensures r.None? <==> exists i :: 0 <= i < |imports| && Aborts(imports[i])
    ensures r.Some? ==> r.value == Collect(imports)
  {
    var loaded: seq<ModuleMetadata> := [];
    var i := 0;
    while i < |imports|
      invariant 0 <= i <= |imports|
      invariant loaded == Collect(imports[..i])
      invariant forall j :: 0 <= j < i ==> !Aborts(imports[j])
    {
      var imp := imports[i];
      assert imports[..i + 1][..i] == imports[..i];
      if imp.ImportFailed? {
        return None;
      }
      if imp.NullishMetadata? {
        if imp.hasInit {
          return None;
        }
      } else if imp.metadata.Some? && imp.hasInit && imp.metadata.value.id != "" {
        var id := imp.metadata.value.id;
        if FindIndex(loaded, (m: ModuleMetadata) => m.id == id).None? {
          loaded := loaded + [imp.metadata.value];
        }
      }
      i := i + 1;
    }
    assert imports[..i] == imports;
    return Some(loaded);
  }

  /** Unfolds one step of `Collect`. */
  lemma CollectSnoc(imports: seq<Import>)
    requires |imports| > 0
    ensures var loaded := Collect(imports[..|imports| - 1]);
            var last := imports[|imports| - 1];
            Collect(imports) ==
              if WellFormed(last) && !HasId(loaded, last.metadata.value.id) then loaded + [last.metadata.value] else loaded
  {
  }

  /** Exactly the ids of the well-formed imports are loaded. */
  lemma {:induction false} CollectIds(imports: seq<Import>, id: string)
    ensures HasId(Collect(imports), id) <==>
      exists i :: 0 <= i < |imports| && WellFormed(imports[i]) && imports[i].metadata.value.id == id
  {
    if |imports| > 0 {
      var n := |imports| - 1;
      var prefix := imports[..n];
      var loaded := Collect(prefix);
      var c := Collect(imports);
      CollectIds(prefix, id);
      CollectSnoc(imports);
      if HasId(c, id) {
        var j :| 0 <= j < |c| && c[j].id == id;
        if j < |loaded| {
          assert c[j] == loaded[j];
          var i :| 0 <= i < n && WellFormed(prefix[i]) && prefix[i].metadata.value.id == id;
          assert imports[i] == prefix[i];
        } else {
          assert WellFormed(imports[n]) && imports[n].metadata.value.id == id;
        }
      }
      if exists i :: 0 <= i < |imports| && WellFormed(imports[i]) && imports[i].metadata.value.id == id {
        var i :| 0 <= i < |imports| && WellFormed(imports[i]) && imports[i].metadata.value.id == id;
        if i < n {
          assert prefix[i] == imports[i];
        }
        if HasId(loaded, id) {
          var k :| 0 <= k < |loaded| && loaded[k].id == id;
          assert c[k] == loaded[k];
        } else {
          assert i == n;
          assert c[|loaded|].id == id;
        }
      }
    }
  }

  /** Loaded ids are pairwise distinct. */
  lemma {:induction false} CollectDistinct(imports: seq<Import>)
    ensures DistinctIds(Collect(imports))
  {
    if |imports| > 0 {
      CollectDistinct(imports[..|imports| - 1]);
    }
  }

  /** Being first with one's id only looks backwards, so it survives
   *  appending imports. */
  lemma FirstWithIdPrefix(imports: seq<Import>, n: nat, i: int)
    requires n <= |imports| && 0 <= i < n
    ensures FirstWithId(imports, i) <==> FirstWithId(imports[..n], i)
  {
    assert forall j :: 0 <= j <= i ==> imports[..n][j] == imports[j];
  }

  /** Every loaded module is the metadata of the first well-formed import
   *  with its id: malformed imports are skipped and a later import with a
   *  loaded id is dropped. */
  lemma {:induction false} CollectedIsFirst(imports: seq<Import>, m: ModuleMetadata)
    requires m in Collect(imports)
    ensures exists i :: FirstWithId(imports, i) && imports[i].metadata.value == m
  {
    var n := |imports| - 1;
    var prefix := imports[..n];
    var loaded := Collect(prefix);
    CollectSnoc(imports);
    if m in loaded {
      CollectedIsFirst(prefix, m);
      var i :| FirstWithId(prefix, i) && prefix[i].metadata.value == m;
      FirstWithIdPrefix(imports, n, i);
      assert imports[..n] == prefix && imports[i] == prefix[i];
    } else {
      var last := imports[n];
      assert WellFormed(last) && !HasId(loaded, last.metadata.value.id) && m == last.metadata.value;
      CollectIds(prefix, last.metadata.value.id);
      assert FirstWithId(imports, n) by {
        forall j | 0 <= j < n
          ensures !(WellFormed(imports[j]) && imports[j].metadata.value.id == last.metadata.value.id)
        {
          assert imports[j] == prefix[j];
        }
      }
    }
  }

  /** The first well-formed import with a given id is loaded. */
  lemma {:induction false} FirstIsCollected(imports: seq<Import>, i: int)
    requires FirstWithId(imports, i)
    ensures imports[i].metadata.value in Collect(imports)
  {
    var n := |imports| - 1;
    var prefix := imports[..n];
    var loaded := Collect(prefix);
    CollectSnoc(imports);
    if i < n {
      FirstWithIdPrefix(imports, n, i);
      assert imports[..n] == prefix && imports[i] == prefix[i];
      FirstIsCollected(prefix, i);
    } else {
      var id := imports[n].metadata.value.id;
      CollectIds(prefix, id);
      assert forall j :: 0 <= j < n ==> prefix[j] == imports[j];
      assert !HasId(loaded, id);
      assert Collect(imports)[|loaded|] == imports[n].metadata.value;
    }
  }

  /*** Dependencies ***/

  /** Every declared dependency is among the loaded ids (disabled or not). */
  predicate DependenciesPresent(loaded: seq<ModuleMetadata>, m: ModuleMetadata) {
    m.depends.None? || forall d :: d in m.depends.value ==> HasId(loaded, d)
  }

  /** Reference definition of the dependency check over the loaded list. */
  function CheckDependencies(loaded: seq<ModuleMetadata>): seq<ModuleMetadata> {
    seq(|loaded|, i requires 0 <= i < |loaded| =>
      loaded[i].(enabled := loaded[i].enabled && DependenciesPresent(loaded, loaded[i])))
  }

  /** The dependency loop, switching `enabled` off in place for each missing
   *  dependency. */
  method DisableMissingDependencies(loaded: seq<ModuleMetadata>) returns (checked: seq<ModuleMetadata>)
    ensures checked == CheckDependencies(loaded)
  {
    checked := loaded;
    var i := 0;
    while i < |checked|
      invariant |checked| == |loaded| && 0 <= i <= |loaded|
      invariant forall j :: 0 <= j < i ==> checked[j] == CheckDependencies(loaded)[j]
      invariant forall j :: i <= j < |loaded| ==> checked[j] == loaded[j]
    {
      ghost var before := checked;
      var m := checked[i];
      if m.depends.Some? {
        var deps := m.depends.value;
        var k := 0;
        while k < |deps|
          invariant 0 <= k <= |deps| && |checked| == |loaded|
          invariant forall j :: 0 <= j < |loaded| && j != i ==> checked[j] == before[j]
          invariant forall j :: 0 <= j < |loaded| ==> checked[j].id == loaded[j].id
          invariant checked[i] == loaded[i].(enabled := loaded[i].enabled && forall d :: d in deps[..k] ==> HasId(loaded, d))
        {
          var dependency := deps[k];
          var found := FindIndex(checked, (x: ModuleMetadata) => x.id == dependency);
          assert found.Some? <==> HasId(loaded, dependency) by {
            if HasId(loaded, dependency) {
              var j :| 0 <= j < |loaded| && loaded[j].id == dependency;
              assert checked[j].id == dependency;
            }
          }
          if found.None? {
            checked := checked[i := checked[i].(enabled := false)];
          }
          assert deps[..k + 1] == deps[..k] + [dependency];
          k := k + 1;
        }
        assert deps[..k] == deps;
      }
      assert checked[i] == CheckDependencies(loaded)[i];
      i := i + 1;
    }
  }

  /** A module with a missing dependency ends disabled; one whose
   *  dependencies are all loaded keeps its flag; nothing else changes. */
  lemma DependencyCheckDisables(loaded: seq<ModuleMetadata>, i: int)
    requires 0 <= i < |loaded|
    ensures |CheckDependencies(loaded)| == |loaded|
    ensures CheckDependencies(loaded)[i] == loaded[i].(enabled := CheckDependencies(loaded)[i].enabled)
    ensures loaded[i].depends.Some? && (exists d :: d in loaded[i].depends.value && !HasId(loaded, d)) ==>
      !CheckDependencies(loaded)[i].enabled
    ensures DependenciesPresent(loaded, loaded[i]) ==> CheckDependencies(loaded)[i].enabled == loaded[i].enabled
  {
  }

  /*** Enabled filter ***/

  /** `filter((module) => module.metadata.enabled)`. */
  function EnabledOnly(ms: seq<ModuleMetadata>): (r: seq<ModuleMetadata>)
    ensures |r| <= |ms|
    ensures forall i :: 0 <= i < |r| ==> r[i] in ms && r[i].enabled
    ensures forall i :: 0 <= i < |ms| && ms[i].enabled ==> ms[i] in r
  {
    if |ms| == 0 then []
    else (if ms[0].enabled then [ms[0]] else []) + EnabledOnly(ms[1..])
  }

  /** Filtering keeps ids distinct. */
  lemma {:induction false} EnabledOnlyDistinct(ms: seq<ModuleMetadata>)
    requires DistinctIds(ms)
    ensures DistinctIds(EnabledOnly(ms))
  {
    if |ms| > 0 {
      EnabledOnlyDistinct(ms[1..]);
      var rest := EnabledOnly(ms[1..]);
      if ms[0].enabled {
        forall j | 0 <= j < |rest|
          ensures rest[j].id != ms[0].id
        {
          assert rest[j] in ms[1..];
        }
      }
    }
  }

  /** The modules `loadModules` keeps: loaded, checked, enabled. */
  function Active(imports: seq<Import>): seq<ModuleMetadata> {
    EnabledOnly(CheckDependencies(Collect(imports)))
  }

  /** Every active module is enabled, has a distinct id, is the first
   *  well-formed import with its id (with only its flag possibly changed),
   *  and its dependencies are all loaded. */
  lemma ActiveModules(imports: seq<Import>, m: ModuleMetadata)
    ensures DistinctIds(Active(imports))
    ensures m in Active(imports) ==> m.enabled
    ensures m in Active(imports) ==> exists i :: FirstWithId(imports, i) && imports[i].metadata.value == m.(enabled := imports[i].metadata.value.enabled)
    ensures m in Active(imports) ==> DependenciesPresent(Collect(imports), m)
  {
    var loaded := Collect(imports);
    CollectDistinct(imports);
    EnabledOnlyDistinct(CheckDependencies(loaded));
    if m in Active(imports) {
      var k :| 0 <= k < |loaded| && CheckDependencies(loaded)[k] == m;
      CollectedIsFirst(imports, loaded[k]);
    }
  }

  /** Dependency disabling is not transitive: a module whose dependency was
   *  itself disabled for a missing dependency stays enabled. */
  lemma DisablingIsNotTransitive()
    ensures var b := ModuleMetadata(true, "b", Some(["c"]), None, None, None, None);
            var a := ModuleMetadata(true, "a", Some(["b"]), None, None, None, None);
            var act := Active([Namespace(Some(a), true), Namespace(Some(b), true)]);
            a in act && b !in act && b.(enabled := false) !in act
  {
    var b := ModuleMetadata(true, "b", Some(["c"]), None, None, None, None);
    var a := ModuleMetadata(true, "a", Some(["b"]), None, None, None, None);
    var imports := [Namespace(Some(a), true), Namespace(Some(b), true)];
    assert imports[..1][..0] == [] && imports[..1][0] == imports[0] && imports[..|imports| - 1] == imports[..1];
    assert Collect(imports[..1]) == [a];
    var loaded := Collect(imports);
    assert loaded == [a, b];
    assert HasId(loaded, "b") by { assert loaded[1].id == "b"; }
    assert !HasId(loaded, "c");
    assert DependenciesPresent(loaded, a);
    assert !DependenciesPresent(loaded, b) by { assert "c" in b.depends.value; }
    assert CheckDependencies(loaded) == [a, b.(enabled := false)];
  }

  /*** Registration ***/

  /** The registry keys of a list: command and event names, component custom ids. */
  function CommandNames(cs: seq<Commands.Command>): seq<string> {
    seq(|cs|, i requires 0 <= i < |cs| => cs[i].name)
  }

  function EventNames(es: seq<Events.Event>): seq<string> {
    seq(|es|, i requires 0 <= i < |es| => es[i].name)
  }

  function ComponentIds(cs: seq<Components.Component>): seq<string> {
    seq(|cs|, i requires 0 <= i < |cs| => cs[i].customId)
  }

  /** Registering keys `added` after keys `existing` meets no duplicate: no
   *  key of `added` is already taken, nor repeated within `added`. */
  predicate Fits(existing: seq<string>, added: seq<string>) {
    |added| == 0 ||
    (var n := |added| - 1; Fits(existing, added[..n]) && added[n] !in existing && added[n] !in added[..n])
  }

  lemma FitsSnoc(existing: seq<string>, added: seq<string>, x: string)
    ensures Fits(existing, added + [x]) <==> Fits(existing, added) && x !in existing && x !in added
  {
    assert (added + [x])[..|added|] == added;
  }

  lemma {:induction false} FitsPrefix(existing: seq<string>, added: seq<string>, n: nat)
    requires n <= |added| && Fits(existing, added)
    ensures Fits(existing, added[..n])
  {
    if n < |added| {
      var m := |added| - 1;
      assert added[..m][..n] == added[..n];
      FitsPrefix(existing, added[..m], n);
    } else {
      assert added[..n] == added;
    }
  }

  /** The recursive reading of `Fits` agrees with its pointwise reading. */
  lemma {:induction false} FitsPointwise(existing: seq<string>, added: seq<string>)
    ensures Fits(existing, added) <==>
      forall i :: 0 <= i < |added| ==> added[i] !in existing && added[i] !in added[..i]
  {
    if |added| > 0 {
      var n := |added| - 1;
      FitsPointwise(existing, added[..n]);
      assert forall i :: 0 <= i < n ==> added[..n][i] == added[i] && added[..n][..i] == added[..i];
    }
  }

  function AttachCommands(cs: seq<Commands.Command>, client: Client?): seq<Commands.Command> {
    seq(|cs|, i requires 0 <= i < |cs| => cs[i].(client := client))
  }

  function AttachEvents(es: seq<Events.Event>, client: Client?): seq<Events.Event> {
    seq(|es|, i requires 0 <= i < |es| => es[i].(client := client))
  }

  function AttachComponents(cs: seq<Components.Component>, client: Client?): seq<Components.Component> {
    seq(|cs|, i requires 0 <= i < |cs| => cs[i].(client := client))
  }

  /** The client subscriptions that registering `es` makes. */
  function Subscriptions(es: seq<Events.Event>): seq<Listener> {
    seq(|es|, i requires 0 <= i < |es| => Listener(es[i].name, Events.ModeOf(es[i])))
  }

  /** The commands of `ms`, module by module (`commands || []`). */
  function AllCommands(ms: seq<ModuleMetadata>): seq<Commands.Command> {
    if |ms| == 0 then [] else AllCommands(ms[..|ms| - 1]) + ms[|ms| - 1].commands.GetOr([])
  }

  function AllEvents(ms: seq<ModuleMetadata>): seq<Events.Event> {
    if |ms| == 0 then [] else AllEvents(ms[..|ms| - 1]) + ms[|ms| - 1].events.GetOr([])
  }

  function AllComponents(ms: seq<ModuleMetadata>): seq<Components.Component> {
    if |ms| == 0 then [] else AllComponents(ms[..|ms| - 1]) + ms[|ms| - 1].components.GetOr([])
  }

  /** One registration step, on keys alone: the next key fails exactly when
   *  it is already taken, and that dooms the whole list. */
  lemma KeyStep(existing: seq<string>, added: seq<string>, k: nat, current: seq<string>)
    requires k < |added| && current == existing + added[..k] && Fits(existing, added[..k])
    ensures added[k] in current ==> !Fits(existing, added)
    ensures added[k] !in current ==> Fits(existing, added[..k + 1])
  {
    assert added[..k + 1] == added[..k] + [added[k]];
    FitsSnoc(existing, added[..k], added[k]);
    if Fits(existing, added) {
      FitsPrefix(existing, added, k + 1);
    }
  }

  /** The command names after `k` steps, and the registered copies one step on. */
  lemma CommandsAttached(existing: seq<Commands.Command>, cs: seq<Commands.Command>, k: nat, c: Client?)
    requires k < |cs|
    ensures CommandNames(existing + AttachCommands(cs[..k], c)) == CommandNames(existing) + CommandNames(cs)[..k]
    ensures AttachCommands(cs[..k + 1], c) == AttachCommands(cs[..k], c) + [cs[k].(client := c)]
    ensures cs[k].name == CommandNames(cs)[k]
    ensures forall name :: name in CommandNames(existing + AttachCommands(cs[..k], c)) <==>
      exists j :: 0 <= j < |existing + AttachCommands(cs[..k], c)| && (existing + AttachCommands(cs[..k], c))[j].name == name
  {
    var all := existing + AttachCommands(cs[..k], c);
    assert forall j :: 0 <= j < |all| ==> CommandNames(all)[j] == all[j].name;
  }

  /** Registers `cs` one by one, stopping at the first that throws; that
   *  happens exactly when a name is taken. */
  method RegisterCommands(cs: seq<Commands.Command>, h: Commands.CommandHandler) returns (e: Option<Thrown>)
    requires h.Valid()
    modifies h
    ensures h.Valid() && h.client == old(h.client)
    ensures e.None? <==> Fits(CommandNames(old(h.commands)), CommandNames(cs))
    ensures e.None? ==> h.commands == old(h.commands) + AttachCommands(cs, h.client)
  {
    ghost var existing := CommandNames(h.commands);
    ghost var names := CommandNames(cs);
    var k := 0;
    while k < |cs|
      invariant 0 <= k <= |cs|
      invariant h.Valid() && h.client == old(h.client)
      invariant h.commands == old(h.commands) + AttachCommands(cs[..k], h.client)
      invariant Fits(existing, names[..k])
    {
      CommandsAttached(old(h.commands), cs, k, h.client);
      KeyStep(existing, names, k, CommandNames(h.commands));
      var r := h.Register(cs[k]);
      if r.Failure? {
        return Some(r.error);
      }
      Assoc(old(h.commands), AttachCommands(cs[..k], h.client), [cs[k].(client := h.client)]);
      k := k + 1;
    }
    assert cs[..k] == cs && names[..k] == names;
    return None;
  }

  /** The event names after `k` steps, and the copies and subscriptions one step on. */
  lemma EventsAttached(existing: seq<Events.Event>, es: seq<Events.Event>, k: nat, c: Client?)
    requires k < |es|
    ensures EventNames(existing + AttachEvents(es[..k], c)) == EventNames(existing) + EventNames(es)[..k]
    ensures AttachEvents(es[..k + 1], c) == AttachEvents(es[..k], c) + [es[k].(client := c)]
    ensures Subscriptions(es[..k + 1]) == Subscriptions(es[..k]) + [Listener(es[k].name, Events.ModeOf(es[k]))]
    ensures es[k].name == EventNames(es)[k]
    ensures forall name :: name in EventNames(existing + AttachEvents(es[..k], c)) <==>
      exists j :: 0 <= j < |existing + AttachEvents(es[..k], c)| && (existing + AttachEvents(es[..k], c))[j].name == name
  {
    var all := existing + AttachEvents(es[..k], c);
    assert forall j :: 0 <= j < |all| ==> EventNames(all)[j] == all[j].name;
  }

  /** Registers `es` one by one; this throws exactly when a name is taken or,
   *  with events to subscribe, when the handler has no client. */
  method RegisterEvents(es: seq<Events.Event>, h: Events.EventHandler) returns (e: Option<Thrown>)
    requires h.Valid()
    modifies h, h.client
    ensures h.Valid() && h.client == old(h.client)
    ensures e.None? <==> Fits(EventNames(old(h.events)), EventNames(es)) && (|es| == 0 || h.client != null)
    ensures e.None? ==> h.events == old(h.events) + AttachEvents(es, h.client)
    ensures e.None? && h.client != null ==> h.client.listeners == old(h.client.listeners) + Subscriptions(es)
    ensures h.client != null ==> h.client.application == old(h.client.application)
  {
    ghost var existing := EventNames(h.events);
    ghost var names := EventNames(es);
    var k := 0;
    while k < |es|
      invariant 0 <= k <= |es|
      invariant h.Valid() && h.client == old(h.client)
      invariant k > 0 ==> h.client != null
      invariant h.events == old(h.events) + AttachEvents(es[..k], h.client)
      invariant h.client != null ==> h.client.listeners == old(h.client.listeners) + Subscriptions(es[..k])
      invariant h.client != null ==> h.client.application == old(h.client.application)
      invariant Fits(existing, names[..k])
    {
      EventsAttached(old(h.events), es, k, h.client);
      KeyStep(existing, names, k, EventNames(h.events));
      var r := h.Register(es[k]);
      if r.Failure? {
        return Some(r.error);
      }
      Assoc(old(h.events), AttachEvents(es[..k], h.client), [es[k].(client := h.client)]);
      Assoc(old(h.client.listeners), Subscriptions(es[..k]), [Listener(es[k].name, Events.ModeOf(es[k]))]);
      k := k + 1;
    }
    assert es[..k] == es && names[..k] == names;
    return None;
  }

  /** The custom ids after `k` steps, and the registered copies one step on. */
  lemma ComponentsAttached(existing: seq<Components.Component>, cs: seq<Components.Component>, k: nat, c: Client?)
    requires k < |cs|
    ensures ComponentIds(existing + AttachComponents(cs[..k], c)) == ComponentIds(existing) + ComponentIds(cs)[..k]
    ensures AttachComponents(cs[..k + 1], c) == AttachComponents(cs[..k], c) + [cs[k].(client := c)]
    ensures cs[k].customId == ComponentIds(cs)[k]
    ensures forall id :: id in ComponentIds(existing + AttachComponents(cs[..k], c)) <==>
      exists j :: 0 <= j < |existing + AttachComponents(cs[..k], c)| && (existing + AttachComponents(cs[..k], c))[j].customId == id
  {
    var all := existing + AttachComponents(cs[..k], c);
    assert forall j :: 0 <= j < |all| ==> ComponentIds(all)[j] == all[j].customId;
  }

  /** Registers `cs` one by one; this throws exactly when a custom id is taken. */
  method RegisterComponents(cs: seq<Components.Component>, h: Components.ComponentHandler) returns (e: Option<Thrown>)
    requires h.Valid()
    modifies h
    ensures h.Valid() && h.client == old(h.client)
    ensures e.None? <==> Fits(ComponentIds(old(h.components)), ComponentIds(cs))
    ensures e.None? ==> h.components == old(h.components) + AttachComponents(cs, h.client)
  {
    ghost var existing := ComponentIds(h.components);
    ghost var ids := ComponentIds(cs);
    var k := 0;
    while k < |cs|
      invariant 0 <= k <= |cs|
      invariant h.Valid() && h.client == old(h.client)
      invariant h.components == old(h.components) + AttachComponents(cs[..k], h.client)
      invariant Fits(existing, ids[..k])
    {
      ComponentsAttached(old(h.components), cs, k, h.client);
      KeyStep(existing, ids, k, ComponentIds(h.components));
      var r := h.Register(cs[k]);
      if r.Failure? {
        return Some(r.error);
      }
      Assoc(old(h.components), AttachComponents(cs[..k], h.client), [cs[k].(client := h.client)]);
      k := k + 1;
    }
    assert cs[..k] == cs && ids[..k] == ids;
    return None;
  }

  lemma AttachCommandsAppend(a: seq<Commands.Command>, b: seq<Commands.Command>, c: Client?)
    ensures AttachCommands(a + b, c) == AttachCommands(a, c) + AttachCommands(b, c)
  {
  }

  lemma AttachEventsAppend(a: seq<Events.Event>, b: seq<Events.Event>, c: Client?)
    ensures AttachEvents(a + b, c) == AttachEvents(a, c) + AttachEvents(b, c)
    ensures Subscriptions(a + b) == Subscriptions(a) + Subscriptions(b)
  {
  }

  lemma AttachComponentsAppend(a: seq<Components.Component>, b: seq<Components.Component>, c: Client?)
    ensures AttachComponents(a + b, c) == AttachComponents(a, c) + AttachComponents(b, c)
  {
  }

  /** Appending one module to a list of modules appends its contributions. */
  lemma RegistrationsSnoc(ms: seq<ModuleMetadata>, m: nat, cc: Client?, ec: Client?, pc: Client?)
    requires m < |ms|
    ensures AttachCommands(AllCommands(ms[..m + 1]), cc)
         == AttachCommands(AllCommands(ms[..m]), cc) + AttachCommands(ms[m].commands.GetOr([]), cc)
    ensures AttachEvents(AllEvents(ms[..m + 1]), ec)
         == AttachEvents(AllEvents(ms[..m]), ec) + AttachEvents(ms[m].events.GetOr([]), ec)
    ensures AttachComponents(AllComponents(ms[..m + 1]), pc)
         == AttachComponents(AllComponents(ms[..m]), pc) + AttachComponents(ms[m].components.GetOr([]), pc)
    ensures Subscriptions(AllEvents(ms[..m + 1]))
         == Subscriptions(AllEvents(ms[..m])) + Subscriptions(ms[m].events.GetOr([]))
  {
    var prefix := ms[..m + 1];
    assert prefix[..m] == ms[..m] && prefix[m] == ms[m] && |prefix| == m + 1;
    assert AllCommands(prefix) == AllCommands(ms[..m]) + ms[m].commands.GetOr([]);
    assert AllEvents(prefix) == AllEvents(ms[..m]) + ms[m].events.GetOr([]);
    assert AllComponents(prefix) == AllComponents(ms[..m]) + ms[m].components.GetOr([]);
    AttachCommandsAppend(AllCommands(ms[..m]), ms[m].commands.GetOr([]), cc);
    AttachEventsAppend(AllEvents(ms[..m]), ms[m].events.GetOr([]), ec);
    AttachComponentsAppend(AllComponents(ms[..m]), ms[m].components.GetOr([]), pc);
  }

  /** Keys of `existing + added` fit exactly when `added`'s first part fits
   *  and its second part fits after it. */
  lemma {:induction false} FitsAppend(existing: seq<string>, a: seq<string>, b: seq<string>)
    ensures Fits(existing, a + b) <==> Fits(existing, a) && Fits(existing + a, b)
    decreases |b|
  {
    if |b| == 0 {
      assert a + b == a;
    } else {
      var n := |b| - 1;
      FitsAppend(existing, a, b[..n]);
      assert (a + b)[..|a + b| - 1] == a + b[..n];
      assert (a + b)[|a + b| - 1] == b[n];
    }
  }

  lemma CommandNamesAppend(a: seq<Commands.Command>, b: seq<Commands.Command>, c: Client?)
    ensures CommandNames(a + b) == CommandNames(a) + CommandNames(b)
    ensures CommandNames(AttachCommands(b, c)) == CommandNames(b)
  {
  }

  lemma EventNamesAppend(a: seq<Events.Event>, b: seq<Events.Event>, c: Client?)
    ensures EventNames(a + b) == EventNames(a) + EventNames(b)
    ensures EventNames(AttachEvents(b, c)) == EventNames(b)
  {
  }

  lemma ComponentIdsAppend(a: seq<Components.Component>, b: seq<Components.Component>, c: Client?)
    ensures ComponentIds(a + b) == ComponentIds(a) + ComponentIds(b)
    ensures ComponentIds(AttachComponents(b, c)) == ComponentIds(b)
  {
  }

  /** The contributions of a list of modules split at any point. */
  lemma {:induction false} AllSplit(ms: seq<ModuleMetadata>, k: nat)
    requires k <= |ms|
    ensures AllCommands(ms) == AllCommands(ms[..k]) + AllCommands(ms[k..])
    ensures AllEvents(ms) == AllEvents(ms[..k]) + AllEvents(ms[k..])
    ensures AllComponents(ms) == AllComponents(ms[..k]) + AllComponents(ms[k..])
    decreases |ms|
  {
    if k == |ms| {
      assert ms[..k] == ms && ms[k..] == [];
    } else {
      var n := |ms| - 1;
      AllSplit(ms[..n], k);
      assert ms[..n][..k] == ms[..k];
      var tail := ms[k..];
      assert tail[..|tail| - 1] == ms[..n][k..] && tail[|tail| - 1] == ms[n];
      Assoc(AllCommands(ms[..k]), AllCommands(ms[..n][k..]), ms[n].commands.GetOr([]));
      Assoc(AllEvents(ms[..k]), AllEvents(ms[..n][k..]), ms[n].events.GetOr([]));
      Assoc(AllComponents(ms[..k]), AllComponents(ms[..n][k..]), ms[n].components.GetOr([]));
    }
  }

  /** One module registers without a throw onto registries holding
   *  `commands`, `events` and `components`: no key is taken or repeated, and
   *  events find a client to subscribe on. */
  predicate ModuleFits(commands: seq<Commands.Command>, events: seq<Events.Event>, components: seq<Components.Component>,
                       hasClient: bool, metadata: ModuleMetadata)
  {
    Fits(CommandNames(commands), CommandNames(metadata.commands.GetOr([]))) &&
    Fits(EventNames(events), EventNames(metadata.events.GetOr([]))) &&
    (|metadata.events.GetOr([])| == 0 || hasClient) &&
    Fits(ComponentIds(components), ComponentIds(metadata.components.GetOr([])))
  }

  /** The modules `ms`, in order, register without a throw: their keys
   *  together are neither taken nor repeated, and events find a client. */
  predicate RegistersCleanly(commands: seq<Commands.Command>, events: seq<Events.Event>, components: seq<Components.Component>,
                             hasClient: bool, ms: seq<ModuleMetadata>)
  {
    Fits(CommandNames(commands), CommandNames(AllCommands(ms))) &&
    Fits(EventNames(events), EventNames(AllEvents(ms))) &&
    (|AllEvents(ms)| == 0 || hasClient) &&
    Fits(ComponentIds(components), ComponentIds(AllComponents(ms)))
  }

  /** A prefix of a clean list of modules is clean. */
  lemma CleanPrefix(commands: seq<Commands.Command>, events: seq<Events.Event>, components: seq<Components.Component>,
                    hasClient: bool, ms: seq<ModuleMetadata>, k: nat)
    requires k <= |ms| && RegistersCleanly(commands, events, components, hasClient, ms)
    ensures RegistersCleanly(commands, events, components, hasClient, ms[..k])
  {
    AllSplit(ms, k);
    CommandNamesAppend(AllCommands(ms[..k]), AllCommands(ms[k..]), null);
    EventNamesAppend(AllEvents(ms[..k]), AllEvents(ms[k..]), null);
    ComponentIdsAppend(AllComponents(ms[..k]), AllComponents(ms[k..]), null);
    FitsAppend(CommandNames(commands), CommandNames(AllCommands(ms[..k])), CommandNames(AllCommands(ms[k..])));
    FitsAppend(EventNames(events), EventNames(AllEvents(ms[..k])), EventNames(AllEvents(ms[k..])));
    FitsAppend(ComponentIds(components), ComponentIds(AllComponents(ms[..k])), ComponentIds(AllComponents(ms[k..])));
  }

  /** After `m` clean modules, module `m` fits onto the registries exactly
   *  when the first `m + 1` modules are clean; when it does not, no list
   *  extending them is clean. */
  lemma CleanStep(commands: seq<Commands.Command>, events: seq<Events.Event>, components: seq<Components.Component>,
                  hasClient: bool, ms: seq<ModuleMetadata>, m: nat, cc: Client?, ec: Client?, pc: Client?)
    requires m < |ms| && RegistersCleanly(commands, events, components, hasClient, ms[..m])
    ensures ModuleFits(commands + AttachCommands(AllCommands(ms[..m]), cc),
                       events + AttachEvents(AllEvents(ms[..m]), ec),
                       components + AttachComponents(AllComponents(ms[..m]), pc), hasClient, ms[m])
        <==> RegistersCleanly(commands, events, components, hasClient, ms[..m + 1])
    ensures !RegistersCleanly(commands, events, components, hasClient, ms[..m + 1]) ==>
      !RegistersCleanly(commands, events, components, hasClient, ms)
  {
    var prefix := ms[..m + 1];
    assert prefix[..m] == ms[..m] && prefix[m] == ms[m] && |prefix| == m + 1;
    var mc, me, mp := ms[m].commands.GetOr([]), ms[m].events.GetOr([]), ms[m].components.GetOr([]);
    assert AllCommands(prefix) == AllCommands(ms[..m]) + mc;
    assert AllEvents(prefix) == AllEvents(ms[..m]) + me;
    assert AllComponents(prefix) == AllComponents(ms[..m]) + mp;
    CommandNamesAppend(commands, AttachCommands(AllCommands(ms[..m]), cc), cc);
    CommandNamesAppend(AllCommands(ms[..m]), mc, cc);
    CommandNamesAppend(commands, AllCommands(ms[..m]), cc);
    EventNamesAppend(events, AttachEvents(AllEvents(ms[..m]), ec), ec);
    EventNamesAppend(AllEvents(ms[..m]), me, ec);
    EventNamesAppend(events, AllEvents(ms[..m]), ec);
    ComponentIdsAppend(components, AttachComponents(AllComponents(ms[..m]), pc), pc);
    ComponentIdsAppend(AllComponents(ms[..m]), mp, pc);
    ComponentIdsAppend(components, AllComponents(ms[..m]), pc);
    FitsAppend(CommandNames(commands), CommandNames(AllCommands(ms[..m])), CommandNames(mc));
    FitsAppend(EventNames(events), EventNames(AllEvents(ms[..m])), EventNames(me));
    FitsAppend(ComponentIds(components), ComponentIds(AllComponents(ms[..m])), ComponentIds(mp));
    if RegistersCleanly(commands, events, components, hasClient, ms) {
      CleanPrefix(commands, events, components, hasClient, ms, m + 1);
    }
  }

  /** One module's registrations: its commands, then its events, then its
   *  components, stopping at the first that throws. */
  method RegisterModule(metadata: ModuleMetadata, ch: Commands.CommandHandler, eh: Events.EventHandler, cph: Components.ComponentHandler)
    returns (e: Option<Thrown>)
    requires ch.Valid() && eh.Valid() && cph.Valid()
    modifies ch, eh, eh.client, cph
    ensures ch.Valid() && eh.Valid() && cph.Valid()
    ensures ch.client == old(ch.client) && eh.client == old(eh.client) && cph.client == old(cph.client)
    ensures e.None? <==> ModuleFits(old(ch.commands), old(eh.events), old(cph.components), eh.client != null, metadata)
    ensures e.None? ==> ch.commands == old(ch.commands) + AttachCommands(metadata.commands.GetOr([]), ch.client)
    ensures e.None? ==> eh.events == old(eh.events) + AttachEvents(metadata.events.GetOr([]), eh.client)
    ensures e.None? ==> cph.components == old(cph.components) + AttachComponents(metadata.components.GetOr([]), cph.client)
    ensures e.None? && eh.client != null ==>
      eh.client.listeners == old(eh.client.listeners) + Subscriptions(metadata.events.GetOr([]))
    ensures eh.client != null ==> eh.client.application == old(eh.client.application)
  {
    e := RegisterCommands(metadata.commands.GetOr([]), ch);
    if e.Some? { return; }
    e := RegisterEvents(metadata.events.GetOr([]), eh);
    if e.Some? { return; }
    e := RegisterComponents(metadata.components.GetOr([]), cph);
  }

  /** The registration loop over the kept modules, in list order. */
  method RegisterModules(ms: seq<ModuleMetadata>, ch: Commands.CommandHandler, eh: Events.EventHandler, cph: Components.ComponentHandler)
    returns (e: Option<Thrown>)
    requires ch.Valid() && eh.Valid() && cph.Valid()
    modifies ch, eh, eh.client, cph
    ensures ch.Valid() && eh.Valid() && cph.Valid()
    ensures ch.client == old(ch.client) && eh.client == old(eh.client) && cph.client == old(cph.client)
    ensures e.None? <==> RegistersCleanly(old(ch.commands), old(eh.events), old(cph.components), eh.client != null, ms)
    ensures e.None? ==> ch.commands == old(ch.commands) + AttachCommands(AllCommands(ms), ch.client)
    ensures e.None? ==> eh.events == old(eh.events) + AttachEvents(AllEvents(ms), eh.client)
    ensures e.None? ==> cph.components == old(cph.components) + AttachComponents(AllComponents(ms), cph.client)
    ensures e.None? && eh.client != null ==>
      eh.client.listeners == old(eh.client.listeners) + Subscriptions(AllEvents(ms))
    ensures eh.client != null ==> eh.client.application == old(eh.client.application)
  {
    ghost var subscriber := eh.client;
    ghost var initial := if subscriber != null then subscriber.listeners else [];
    ghost var application := if subscriber != null then subscriber.application else None;
    var m := 0;
    while m < |ms|
      invariant 0 <= m <= |ms|
      invariant ch.Valid() && eh.Valid() && cph.Valid()
      invariant ch.client == old(ch.client) && eh.client == old(eh.client) && cph.client == old(cph.client)
      invariant ch.commands == old(ch.commands) + AttachCommands(AllCommands(ms[..m]), ch.client)
      invariant eh.events == old(eh.events) + AttachEvents(AllEvents(ms[..m]), eh.client)
      invariant cph.components == old(cph.components) + AttachComponents(AllComponents(ms[..m]), cph.client)
      invariant subscriber != null ==> subscriber.listeners == initial + Subscriptions(AllEvents(ms[..m]))
      invariant subscriber != null ==> subscriber.application == application
      invariant RegistersCleanly(old(ch.commands), old(eh.events), old(cph.components), eh.client != null, ms[..m])
    {
      CleanStep(old(ch.commands), old(eh.events), old(cph.components), eh.client != null, ms, m, ch.client, eh.client, cph.client);
      e := RegisterModule(ms[m], ch, eh, cph);
      if e.Some? { return; }
      RegistrationsSnoc(ms, m, ch.client, eh.client, cph.client);
      Assoc(old(ch.commands), AttachCommands(AllCommands(ms[..m]), ch.client), AttachCommands(ms[m].commands.GetOr([]), ch.client));
      Assoc(old(eh.events), AttachEvents(AllEvents(ms[..m]), eh.client), AttachEvents(ms[m].events.GetOr([]), eh.client));
      Assoc(old(cph.components), AttachComponents(AllComponents(ms[..m]), cph.client), AttachComponents(ms[m].components.GetOr([]), cph.client));
      Assoc(initial, Subscriptions(AllEvents(ms[..m])), Subscriptions(ms[m].events.GetOr([])));
      m := m + 1;
    }
    assert ms[..m] == ms;
    return None;
  }

  lemma Assoc<T>(a: seq<T>, b: seq<T>, c: seq<T>)
    ensures (a + b) + c == a + (b + c)
  {
  }

  /*** The loaded modules and their lookups ***/

  /** The process-wide `modules` list. */
  class ModuleRegistry {
    var modules: seq<ModuleMetadata>

    /** Disabled modules are discarded while loading, and ids are unique. */
    ghost predicate Valid()
      reads this
    {
      (forall i :: 0 <= i < |modules| ==> modules[i].enabled) && DistinctIds(modules)
    }

    constructor ()
      ensures Valid() && modules == []
    {
      modules := [];
    }

    /** `loadModules`. The order the dependency sort produces is not
     *  modelled: the kept modules are stated up to permutation, and the
     *  handlers receive them in the order of the resulting list. */
    method LoadModules(imports: seq<Import>, ch: Commands.CommandHandler, eh: Events.EventHandler, cph: Components.ComponentHandler)
      returns (r: LoadResult)
      requires ch.Valid() && eh.Valid() && cph.Valid()
      modifies this, ch, eh, eh.client, cph
      ensures ch.Valid() && eh.Valid() && cph.Valid()
      ensures ch.client == old(ch.client) && eh.client == old(eh.client) && cph.client == old(cph.client)
      ensures r.Exited? <==> exists i :: 0 <= i < |imports| && Aborts(imports[i])
      ensures r.Exited? ==> r.code == 1 && modules == old(modules)
      ensures r.Exited? ==> ch.commands == old(ch.commands) && eh.events == old(eh.events)
      ensures r.Exited? ==> cph.components == old(cph.components)
      ensures r.Exited? && eh.client != null ==> eh.client.listeners == old(eh.client.listeners)
      ensures eh.client != null ==> eh.client.application == old(eh.client.application)
      ensures r.Rejected? ==> modules == old(modules)
      ensures r.Loaded? <==>
        ((forall i :: 0 <= i < |imports| ==> !Aborts(imports[i])) &&
         RegistersCleanly(old(ch.commands), old(eh.events), old(cph.components), eh.client != null, Active(imports)))
      ensures r.Loaded? ==> Valid() && multiset(modules) == multiset(Active(imports))
      ensures r.Loaded? ==> ch.commands == old(ch.commands) + AttachCommands(AllCommands(modules), ch.client)
      ensures r.Loaded? ==> eh.events == old(eh.events) + AttachEvents(AllEvents(modules), eh.client)
      ensures r.Loaded? ==> cph.components == old(cph.components) + AttachComponents(AllComponents(modules), cph.client)
      ensures r.Loaded? && eh.client != null ==>
        eh.client.listeners == old(eh.client.listeners) + Subscriptions(AllEvents(modules))
    {
      var loaded := CollectModules(imports);
      if loaded.None? {
        return Exited(1);
      }
      var checked := DisableMissingDependencies(loaded.value);
      var active := EnabledOnly(checked);
      var e := RegisterModules(active, ch, eh, cph);
      if e.Some? {
        return Rejected(e.value);
      }
      ActiveModules(imports, ModuleMetadata(false, "", None, None, None, None, None));
      modules := active;
      return Loaded;
    }

    function GetModules(): (r: seq<ModuleMetadata>)
      reads this
      ensures Valid() ==> (forall i :: 0 <= i < |r| ==> r[i].enabled) && DistinctIds(r)
    {
      modules
    }

    /** The first module with this id, if any. */
    function GetModule(id: string): (r: Option<ModuleMetadata>)
      reads this
      ensures r.Some? <==> HasId(modules, id)
      ensures r.Some? ==> r.value.id == id
      ensures r.Some? ==> exists i :: 0 <= i < |modules| && modules[i] == r.value &&
                                      forall j :: 0 <= j < i ==> modules[j].id != id
    {
      match FindIndex(modules, (m: ModuleMetadata) => m.id == id)
      case None => None
      case Some(i) => Some(modules[i])
    }

    function ModuleActive(id: string): (b: bool)
      reads this
      ensures b <==> exists i :: 0 <= i < |modules| && modules[i].id == id && modules[i].enabled &&
                                 forall j :: 0 <= j < i ==> modules[j].id != id
    {
      match GetModule(id)
      case None => false
      case Some(m) => m.enabled
    }

    /** The action exported under `actionId` by the module `moduleId`. */
    function GetAction(moduleId: string, actionId: string): (r: Option<ActionFunction>)
      reads this
      ensures r.Some? <==>
        (GetModule(moduleId).Some? && GetModule(moduleId).value.actions.Some? &&
         actionId in GetModule(moduleId).value.actions.value)
      ensures r.Some? ==> r.value == GetModule(moduleId).value.actions.value[actionId]
    {
      match GetModule(moduleId)
      case None => None
      case Some(m) =>
        if m.actions.Some? && actionId in m.actions.value then Some(m.actions.value[actionId]) else None
    }
  }

  /** Once loaded, a module is active exactly when it can be looked up. */
  lemma ActiveIffFound(registry: ModuleRegistry, id: string)
    requires registry.Valid()
    ensures registry.ModuleActive(id) <==> registry.GetModule(id).Some?
  {
  }
}
