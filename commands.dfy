/** The command registry (Commands/SlashCommandRegistry.cs): a fixed, ordered list of the
    bot's four slash commands. Each command is known by its name, which is also the name
    Discord invokes it by. */
module Commands {

  datatype SlashCommand = OhiruCommand | AddCommand | LinkCommand | ListCommand
  {
    /** The command's wire name (the `Name` property of each command class): a name Discord
        accepts for a slash command, 1 to 32 lower-case letters. */
    function Name(): (n: string)
      ensures 1 <= |n| <= 32
    {
      match this
      case OhiruCommand => "ohiru"
      case AddCommand => "add"
      case LinkCommand => "link"
      case ListCommand => "list"
    }
  }

  /** The registry's enumeration; it depends on no state, so every call yields the same list. */
  function GetCommands(): (commands: seq<SlashCommand>)
    ensures |commands| == 4
    ensures forall c: SlashCommand :: c in commands
    ensures DistinctNames(commands)
  {
    var commands := [OhiruCommand, AddCommand, LinkCommand, ListCommand];
    assert forall c: SlashCommand :: c in commands by {
      forall c: SlashCommand ensures c in commands {
        if c.OhiruCommand? {
          assert commands[0] == c;
        } else if c.AddCommand? {
          assert commands[1] == c;
        } else if c.LinkCommand? {
          assert commands[2] == c;
        } else {
          assert commands[3] == c;
        }
      }
    }
    commands
  }

  function Names(commands: seq<SlashCommand>): (names: seq<string>)
    ensures |names| == |commands|
    ensures forall i :: 0 <= i < |commands| ==> names[i] == commands[i].Name()
  {
    seq(|commands|, i requires 0 <= i < |commands| => commands[i].Name())
  }

  /** No element of `s` occurs twice. */
  ghost predicate NoDuplicates<T>(s: seq<T>)
  {
    forall i, j :: 0 <= i < j < |s| ==> s[i] != s[j]
  }

  /** No two of the commands share a name. */
  ghost predicate DistinctNames(commands: seq<SlashCommand>)
  {
    NoDuplicates(Names(commands))
  }

  /** A prefix of commands with distinct names has distinct names. */
  lemma DistinctNamesPrefix(commands: seq<SlashCommand>, n: nat)
    requires DistinctNames(commands) && n <= |commands|
    ensures DistinctNames(commands[..n])
  {
    assert Names(commands[..n]) == Names(commands)[..n];
  }

  /** Every command name is made of lower-case letters only, as Discord requires. */
  lemma NameIsLowerCase(c: SlashCommand)
    ensures forall i :: 0 <= i < |c.Name()| ==> 'a' <= c.Name()[i] <= 'z'
  {
  }

  /** Different commands have different names, so a name identifies its command. */
  lemma NameIdentifiesCommand(c: SlashCommand, d: SlashCommand)
    requires c.Name() == d.Name()
    ensures c == d
  {
  }

  /** The registry lists ohiru, add, link and list, in that order, under pairwise distinct names. */
  lemma RegistryContents()
    ensures Names(GetCommands()) == ["ohiru", "add", "link", "list"]
    ensures DistinctNames(GetCommands())
  {
  }
}
