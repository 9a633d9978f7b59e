/** Command registration and dispatch (Services/SlashCommandService.cs).

    Registration walks the bot's guilds. For each guild it lists the commands already
    registered there once, then creates, in registry order, every registry command whose
    name that list lacks. An exception while handling one guild is caught and the walk goes
    on with the next guild. Dispatch finds the first registry command named like the
    invocation and runs its handler, or replies "Unknown command". */
module SlashCommands {
  import opened Wrappers
  import opened Commands

  type GuildId = nat

  // ---------------------------------------------------------------------------------
  // Dispatch

  /** FirstOrDefault over the registry by name: the index of the first command so named. */
  function FindCommand(registry: seq<SlashCommand>, name: string): (r: Option<nat>)
    ensures r.Some? ==> r.value < |registry| && registry[r.value].Name() == name
    ensures r.Some? ==> forall j :: 0 <= j < r.value ==> registry[j].Name() != name
    ensures r.None? <==> forall j :: 0 <= j < |registry| ==> registry[j].Name() != name
  {
    if registry == [] then None
    else if registry[0].Name() == name then Some(0)
    else
      match FindCommand(registry[1..], name)
      case None => None
      case Some(i) => Some(i + 1)
  }

  /** In a registry with distinct names, each command's name leads back to that command. */
  lemma FindCommandOfDistinct(registry: seq<SlashCommand>, i: nat)
    requires DistinctNames(registry) && i < |registry|
    ensures FindCommand(registry, registry[i].Name()) == Some(i)
  {
  }

  /** Every name the bot's registry yields resolves, under dispatch, to that same command. */
  lemma RegistryResolvesToItself(i: nat)
    requires i < |GetCommands()|
    ensures FindCommand(GetCommands(), GetCommands()[i].Name()) == Some(i)
  {
    RegistryContents();
    FindCommandOfDistinct(GetCommands(), i);
  }

  /** What handling one invocation does: exactly one of these happens. */
  datatype Outcome =
    | InvokeHandler(command: SlashCommand)        // the command's HandleAsync runs, once
    | Respond(content: string, ephemeral: bool)   // a reply is sent and no handler runs

  // ---------------------------------------------------------------------------------
  // Registration, specified on values

  /** The command names registered in a guild; a guild without an entry has none. */
  function Existing(state: map<GuildId, seq<string>>, g: GuildId): seq<string>
  {
    if g in state then state[g] else []
  }

  /** Which remote call for guild g throws, if any: 0 is the listing of the guild's
      commands, k >= 1 the k-th command creation. */
  function FaultFor(faultAt: map<GuildId, nat>, g: GuildId): Option<nat>
  {
    if g in faultAt then Some(faultAt[g]) else None
  }

  /** The registry names absent from the snapshot, in registry order. */
  function MissingNames(snapshot: seq<string>, registry: seq<SlashCommand>): (missing: seq<string>)
    ensures |missing| <= |registry|
    decreases |registry|
  {
    if registry == [] then []
    else
      var init, last := registry[..|registry| - 1], registry[|registry| - 1];
      MissingNames(snapshot, init) + (if last.Name() in snapshot then [] else [last.Name()])
  }

  /** The missing names are exactly the registry's names absent from the snapshot. */
  lemma {:induction false} MissingNamesMembers(snapshot: seq<string>, registry: seq<SlashCommand>)
    ensures forall n :: n in MissingNames(snapshot, registry) <==>
              n !in snapshot && exists c :: c in registry && c.Name() == n
    decreases |registry|
  {
    if registry != [] {
      var init, last := registry[..|registry| - 1], registry[|registry| - 1];
      assert registry == init + [last];
      MissingNamesMembers(snapshot, init);
    }
  }

  /** The creations that succeed: all of them, or those before the one that throws. */
  function Created(missing: seq<string>, fault: Option<nat>): (created: seq<string>)
    ensures created <= missing
  {
    match fault
    case None => missing
    case Some(k) => if k == 0 then [] else if k - 1 < |missing| then missing[..k - 1] else missing
  }

  /** The guild's command names after its turn of the registration loop. */
  function RegisterGuild(existing: seq<string>, registry: seq<SlashCommand>, fault: Option<nat>): (names: seq<string>)
    ensures existing <= names
    ensures |names| <= |existing| + |registry|
  {
    existing + Created(MissingNames(existing, registry), fault)
  }

  /** No remote call of the guild's turn throws. */
  predicate NoException(existing: seq<string>, registry: seq<SlashCommand>, fault: Option<nat>)
  {
    fault.None? || fault.value > |MissingNames(existing, registry)|
  }

  /** All guilds' command names after the registration loop has visited `guilds` in order. */
  function RegisterAll(state: map<GuildId, seq<string>>, guilds: seq<GuildId>,
                       registry: seq<SlashCommand>, faultAt: map<GuildId, nat>): (after: map<GuildId, seq<string>>)
    ensures forall g :: g in after <==> g in state || g in guilds
    decreases |guilds|
  {
    if guilds == [] then state
    else
      var init := guilds[..|guilds| - 1];
      assert guilds == init + [guilds[|guilds| - 1]];
      var prev := RegisterAll(state, init, registry, faultAt);
      var g := guilds[|guilds| - 1];
      prev[g := RegisterGuild(Existing(prev, g), registry, FaultFor(faultAt, g))]
  }

  // ---------------------------------------------------------------------------------
  // Properties of registration

  /** The names missing from a prefix of the registry are a prefix of those missing from it all. */
  lemma {:induction false} MissingNamesPrefix(snapshot: seq<string>, registry: seq<SlashCommand>, j: nat)
    requires j <= |registry|
    ensures MissingNames(snapshot, registry[..j]) <= MissingNames(snapshot, registry)
    decreases |registry|
  {
    if j < |registry| {
      var init := registry[..|registry| - 1];
      assert init[..j] == registry[..j];
      MissingNamesPrefix(snapshot, init, j);
    } else {
      assert registry[..j] == registry;
    }
  }

  /** One more registry command adds its name to the missing ones exactly when the
      snapshot lacks it. */
  lemma MissingNamesStep(snapshot: seq<string>, registry: seq<SlashCommand>, j: nat)
    requires j < |registry|
    ensures MissingNames(snapshot, registry[..j + 1]) == MissingNames(snapshot, registry[..j])
              + (if registry[j].Name() in snapshot then [] else [registry[j].Name()])
  {
    assert registry[..j + 1][..j] == registry[..j];
  }

  /** When the creation of the command at index j throws, the guild keeps exactly the
      names created before it. */
  lemma RegisterGuildAtFault(existing: seq<string>, registry: seq<SlashCommand>, j: nat)
    requires j < |registry| && registry[j].Name() !in existing
    ensures var before := MissingNames(existing, registry[..j]);
            RegisterGuild(existing, registry, Some(|before| + 1)) == existing + before
  {
    MissingNamesStep(existing, registry, j);
    MissingNamesPrefix(existing, registry, j + 1);
  }

  /** Without an exception, every missing name is created. */
  lemma RegisterGuildWithoutFault(existing: seq<string>, registry: seq<SlashCommand>, fault: Option<nat>)
    requires NoException(existing, registry, fault)
    ensures RegisterGuild(existing, registry, fault) == existing + MissingNames(existing, registry)
  {
  }

  /** A guild whose turn raises nothing ends up with every registry command name. */
  lemma RegisterGuildCompletes(existing: seq<string>, registry: seq<SlashCommand>, fault: Option<nat>)
    requires NoException(existing, registry, fault)
    ensures forall c :: c in registry ==> c.Name() in RegisterGuild(existing, registry, fault)
  {
    MissingNamesMembers(existing, registry);
  }

  /** When the snapshot holds every registry name, no command is missing. */
  lemma {:induction false} NothingMissing(snapshot: seq<string>, registry: seq<SlashCommand>)
    requires forall c :: c in registry ==> c.Name() in snapshot
    ensures MissingNames(snapshot, registry) == []
    decreases |registry|
  {
    if registry != [] {
      var init := registry[..|registry| - 1];
      assert forall c :: c in init ==> c in registry;
      NothingMissing(snapshot, init);
    }
  }

  /** A name already registered is never created: once a guild holds every registry name,
      another turn creates nothing, whatever call of that turn throws. */
  lemma RegisterGuildIdempotent(existing: seq<string>, registry: seq<SlashCommand>, fault: Option<nat>)
    ensures var done := RegisterGuild(existing, registry, None);
            RegisterGuild(done, registry, fault) == done
  {
    var done := RegisterGuild(existing, registry, None);
    RegisterGuildCompletes(existing, registry, None);
    NothingMissing(done, registry);
    assert done + [] == done;
  }

  /** Registry commands with distinct names never yield a name twice among the missing ones. */
  lemma {:induction false} MissingNamesDistinct(snapshot: seq<string>, registry: seq<SlashCommand>)
    requires DistinctNames(registry)
    ensures NoDuplicates(MissingNames(snapshot, registry))
    decreases |registry|
  {
    if registry != [] {
      var init, last := registry[..|registry| - 1], registry[|registry| - 1];
      DistinctNamesPrefix(registry, |registry| - 1);
      MissingNamesDistinct(snapshot, init);
      MissingNamesMembers(snapshot, init);
      assert forall c :: c in init ==> c.Name() != last.Name() by {
        forall c | c in init ensures c.Name() != last.Name() {
          var k :| 0 <= k < |init| && init[k] == c;
          assert registry[k] == c;
        }
      }
      assert last.Name() !in MissingNames(snapshot, init);
    }
  }

  /** Because the existing names are listed once per guild, before creating anything, a
      duplicate-free outcome rests on the registry's names being distinct: with distinct
      names, a guild without duplicate names keeps none. */
  lemma RegisterGuildNoDuplicates(existing: seq<string>, registry: seq<SlashCommand>, fault: Option<nat>)
    requires DistinctNames(registry) && NoDuplicates(existing)
    ensures NoDuplicates(RegisterGuild(existing, registry, fault))
  {
    var missing := MissingNames(existing, registry);
    var created := Created(missing, fault);
    MissingNamesDistinct(existing, registry);
    MissingNamesMembers(existing, registry);
    assert created == missing[..|created|];
    var r := existing + created;
    forall i, j | 0 <= i < j < |r| ensures r[i] != r[j] {
      if j >= |existing| {
        assert r[j] == missing[j - |existing|];
        assert r[j] in missing;
        if i >= |existing| {
          assert r[i] == missing[i - |existing|];
        } else {
          assert r[i] in existing;
        }
      }
    }
  }

  /** With the snapshot taken once, a registry that repeated a name would create it twice. */
  lemma SnapshotTakenOnce()
    ensures RegisterGuild([], [OhiruCommand, OhiruCommand], None) == ["ohiru", "ohiru"]
  {
    assert [OhiruCommand, OhiruCommand][..1] == [OhiruCommand];
    assert [OhiruCommand][..0] == [];
  }

  /** A command's position in the registry: the index dispatch finds for the name,
      or |registry| when no command has it. */
  function Position(registry: seq<SlashCommand>, name: string): (p: nat)
    ensures p <= |registry|
    ensures p < |registry| <==> exists c :: c in registry && c.Name() == name
  {
    match FindCommand(registry, name)
    case None => |registry|
    case Some(k) => k
  }

  lemma {:induction false} PositionInPrefix(registry: seq<SlashCommand>, j: nat, name: string)
    requires j <= |registry| && Position(registry[..j], name) < j
    ensures Position(registry, name) == Position(registry[..j], name)
  {
    var k := FindCommand(registry[..j], name).value;
    assert registry[k] == registry[..j][k];
    forall i | 0 <= i < k ensures registry[i].Name() != name {
      assert registry[i] == registry[..j][i];
    }
  }

  /** The names occur in the order of their commands in the registry. */
  ghost predicate InRegistryOrder(registry: seq<SlashCommand>, names: seq<string>)
  {
    forall i, j :: 0 <= i < j < |names| ==> Position(registry, names[i]) < Position(registry, names[j])
  }

  /** Missing commands are created in registry order. */
  lemma {:induction false} MissingNamesInRegistryOrder(snapshot: seq<string>, registry: seq<SlashCommand>)
    requires DistinctNames(registry)
    ensures InRegistryOrder(registry, MissingNames(snapshot, registry))
    decreases |registry|
  {
    if registry != [] {
      var n := |registry| - 1;
      var init, last := registry[..n], registry[n];
      DistinctNamesPrefix(registry, n);
      MissingNamesInRegistryOrder(snapshot, init);
      MissingNamesMembers(snapshot, init);
      var mi := MissingNames(snapshot, init);
      var m := MissingNames(snapshot, registry);
      assert m == mi + (if last.Name() in snapshot then [] else [last.Name()]);
      forall x | x in mi ensures Position(registry, x) == Position(init, x) < n {
        PositionInPrefix(registry, n, x);
      }
      FindCommandOfDistinct(registry, n);
      assert Position(registry, last.Name()) == n;
      forall i, j | 0 <= i < j < |m| ensures Position(registry, m[i]) < Position(registry, m[j]) {
        assert m[i] == mi[i] && m[i] in mi;
        if j < |mi| {
          assert m[j] == mi[j] && m[j] in mi;
          assert Position(registry, m[i]) == Position(init, mi[i]);
          assert Position(registry, m[j]) == Position(init, mi[j]);
        } else {
          assert m[j] == last.Name();
          assert Position(registry, m[i]) < n;
        }
      }
    }
  }

  /** Each guild's outcome depends only on its own commands and its own fault: an exception
      in one guild leaves what that guild had already created and does not touch any other
      guild, and a guild the loop does not visit keeps its commands. */
  lemma {:induction false} RegisterAllPerGuild(state: map<GuildId, seq<string>>, guilds: seq<GuildId>,
                                               registry: seq<SlashCommand>, faultAt: map<GuildId, nat>, h: GuildId)
    requires NoDuplicates(guilds)
    ensures Existing(RegisterAll(state, guilds, registry, faultAt), h) ==
            if h in guilds then RegisterGuild(Existing(state, h), registry, FaultFor(faultAt, h))
            else Existing(state, h)
    decreases |guilds|
  {
    if guilds != [] {
      var init, g := guilds[..|guilds| - 1], guilds[|guilds| - 1];
      assert guilds == init + [g];
      assert NoDuplicates(init);
      RegisterAllPerGuild(state, init, registry, faultAt, h);
      if h == g {
        assert h !in init;
      }
    }
  }

  /** The loop never removes a command: whatever the guilds' turns and faults, each guild
      keeps the names it had, in order, at the head of its list. Duplicates in the guild
      list are allowed. */
  lemma {:induction false} RegisterAllKeepsNames(state: map<GuildId, seq<string>>, guilds: seq<GuildId>,
                                                 registry: seq<SlashCommand>, faultAt: map<GuildId, nat>, h: GuildId)
    ensures Existing(state, h) <= Existing(RegisterAll(state, guilds, registry, faultAt), h)
    decreases |guilds|
  {
    if guilds != [] {
      var init, g := guilds[..|guilds| - 1], guilds[|guilds| - 1];
      var prev := RegisterAll(state, init, registry, faultAt);
      RegisterAllKeepsNames(state, init, registry, faultAt, h);
      if h == g {
        var names := RegisterGuild(Existing(prev, g), registry, FaultFor(faultAt, g));
        assert Existing(prev, g) <= names;
      }
    }
  }

  /** Running registration a second time, after a first run in which nothing threw, changes
      no guild, even if calls of the second run throw. */
  lemma RegisterAllIdempotent(state: map<GuildId, seq<string>>, guilds: seq<GuildId>,
                              registry: seq<SlashCommand>, faultAt: map<GuildId, nat>, h: GuildId)
    requires NoDuplicates(guilds)
    ensures var once := RegisterAll(state, guilds, registry, map[]);
            Existing(RegisterAll(once, guilds, registry, faultAt), h) == Existing(once, h)
  {
    var once := RegisterAll(state, guilds, registry, map[]);
    RegisterAllPerGuild(state, guilds, registry, map[], h);
    RegisterAllPerGuild(once, guilds, registry, faultAt, h);
    if h in guilds {
      RegisterGuildIdempotent(Existing(state, h), registry, FaultFor(faultAt, h));
    }
  }

  // ---------------------------------------------------------------------------------
  // The gateway's side and the service

  /** The Discord client as the service sees it: the guilds it is in and, per guild, the
      names of the application commands registered there. */
  class GatewayClient {
    var guilds: seq<GuildId>
    var commands: map<GuildId, seq<string>>

    ghost predicate Valid()
      reads this
    {
      forall g :: g in guilds ==> g in commands
    }

    /** CreateApplicationCommandAsync, when it succeeds: guild g gains the command `name`. */
    method CreateCommand(g: GuildId, name: string)
      requires g in commands
      modifies this`commands
      ensures commands == old(commands)[g := old(commands)[g] + [name]]
    {
      commands := commands[g := commands[g] + [name]];
    }
  }

  class SlashCommandService {
    const client: GatewayClient
    const registry: seq<SlashCommand>

    constructor (client: GatewayClient, registry: seq<SlashCommand>)
      ensures this.client == client && this.registry == registry
    {
      this.client := client;
      this.registry := registry;
    }

    /** RegisterCommandsAsync, with `faultAt` saying which remote call of which guild throws. */
    method RegisterCommands(faultAt: map<GuildId, nat>)
      requires client.Valid()
      modifies client`commands
      ensures client.Valid()
      ensures client.commands == RegisterAll(old(client.commands), client.guilds, registry, faultAt)
    {
      var i := 0;
      while i < |client.guilds|
        invariant 0 <= i <= |client.guilds|
        invariant client.Valid()
        invariant client.commands == RegisterAll(old(client.commands), client.guilds[..i], registry, faultAt)
      {
        var g := client.guilds[i];
        assert client.guilds[..i + 1][..i] == client.guilds[..i] && client.guilds[..i + 1][i] == g;
        RegisterGuildCommands(g, FaultFor(faultAt, g));
        i := i + 1;
      }
      assert client.guilds[..i] == client.guilds;
    }

    /** One guild's turn of the loop: the body of its try block, ended early by the
        exception `fault` names; the catch swallows it. */
    method RegisterGuildCommands(g: GuildId, fault: Option<nat>)
      requires client.Valid() && g in client.commands
      modifies client`commands
      ensures client.Valid()
      ensures client.commands == old(client.commands)[g := RegisterGuild(old(client.commands)[g], registry, fault)]
    {
      ghost var before := client.commands;
      if fault == Some(0) {
        // listing the guild's commands throws
        assert before[g] + [] == before[g] && before[g := before[g]] == before;
        return;
      }
      var existing := client.commands[g];
      var thrown, j := CreateMissing(g, existing, fault);
      if thrown {
        RegisterGuildAtFault(existing, registry, j);
      } else {
        assert registry[..j] == registry;
        RegisterGuildWithoutFault(existing, registry, fault);
      }
    }

    /** The foreach over the registry inside the try block: create, in registry order, every
        command whose name the snapshot `existing` lacks, until the creation `fault` names throws.
        `thrown` says whether it did, at registry index `j`. */
    method CreateMissing(g: GuildId, existing: seq<string>, fault: Option<nat>) returns (thrown: bool, ghost j: nat)
      requires client.Valid() && g in client.commands && client.commands[g] == existing
      requires fault.None? || fault.value > 0
      modifies client`commands
      ensures client.Valid() && j <= |registry|
      ensures client.commands == old(client.commands)[g := existing + MissingNames(existing, registry[..j])]
      ensures thrown ==> j < |registry| && registry[j].Name() !in existing
                         && fault == Some(|MissingNames(existing, registry[..j])| + 1)
      ensures !thrown ==> j == |registry| && (fault.None? || fault.value > |MissingNames(existing, registry)|)
    {
      ghost var before := client.commands;
      var i, created := 0, 0;
      thrown := false;
      ghost var sofar: seq<string> := [];
      assert registry[..0] == [] && existing + [] == existing;
      assert before[g := existing] == before;
      while i < |registry|
        invariant 0 <= i <= |registry|
        invariant sofar == MissingNames(existing, registry[..i]) && created == |sofar|
        invariant client.commands == before[g := existing + sofar]
        invariant !thrown
        invariant fault.None? || fault.value > created
      {
        var name := registry[i].Name();
        if name !in existing && fault == Some(created + 1) {
          // CreateApplicationCommandAsync throws
          thrown := true;
          break;
        } else {
          MissingNamesStep(existing, registry, i);
          if name !in existing {
            client.CreateCommand(g, name);
            assert (existing + sofar) + [name] == existing + (sofar + [name]);
            sofar, created := sofar + [name], created + 1;
          } else {
            assert sofar + [] == sofar;
          }
          i := i + 1;
        }
      }
      j := i;
      if !thrown {
        assert registry[..i] == registry;
      }
    }

    /** HandleSlashCommandAsync: run the first registry command with the invoked name, or
        answer "Unknown command" to the invoking user only. Guild registrations are not touched. */
    method HandleSlashCommand(invokedName: string) returns (outcome: Outcome)
      ensures outcome.Respond? <==> forall c :: c in registry ==> c.Name() != invokedName
      ensures outcome.Respond? ==> outcome == Respond("Unknown command", true)
      ensures outcome.InvokeHandler? ==>
                exists k :: 0 <= k < |registry| && registry[k] == outcome.command
                  && registry[k].Name() == invokedName
                  && forall j :: 0 <= j < k ==> registry[j].Name() != invokedName
    {
      match FindCommand(registry, invokedName) {
        case None =>
          outcome := Respond("Unknown command", true);
        case Some(k) =>
          outcome := InvokeHandler(registry[k]);
      }
    }
  }
}
