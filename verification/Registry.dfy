/** The shared bin directory: trampolines to the commands of bundles, and the file that records
    which bundle owns which command. */
module Registry {

  datatype Entry = Entry(cmd: string, bundle: string)

  /** present: the registry file exists. files: the bundle to which each trampoline leads. */
  datatype Bin = Bin(present: bool, registry: seq<Entry>, files: map<string, string>)

  const EMPTY := Bin(false, [], map[])

  /** The owners that the registry names for a command, one a line. */
  function Owners(registry: seq<Entry>, cmd: string): seq<string>
  {
    if registry == [] then []
    else (if registry[0].cmd == cmd then [registry[0].bundle] else []) + Owners(registry[1..], cmd)
  }

  /** grep -v "^cmd=" */
  function WithoutCommand(registry: seq<Entry>, cmd: string): seq<Entry>
  {
    if registry == [] then []
    else (if registry[0].cmd != cmd then [registry[0]] else []) + WithoutCommand(registry[1..], cmd)
  }

  /** grep -v "=bundle$" */
  function WithoutBundle(registry: seq<Entry>, bundle: string): seq<Entry>
  {
    if registry == [] then []
    else (if registry[0].bundle != bundle then [registry[0]] else []) + WithoutBundle(registry[1..], bundle)
  }

  // ---------- The scripts as functions of the directory ----------

  function InstallOne(s: Bin, bundle: string, cmd: string): Bin
  {
    Bin(true, WithoutCommand(s.registry, cmd) + [Entry(cmd, bundle)], s.files[cmd := bundle])
  }

  function InstallAll(s: Bin, bundle: string, cmds: seq<string>): Bin
  {
    if cmds == [] then s
    else InstallOne(InstallAll(s, bundle, cmds[..|cmds| - 1]), bundle, cmds[|cmds| - 1])
  }

  /** `touch` makes sure that there is a registry. */
  function Installed(s: Bin, bundle: string, cmds: seq<string>): Bin
  {
    InstallAll(s.(present := true), bundle, cmds)
  }

  /** The bundle is the one owner, or there is none. */
  predicate MayRemove(registry: seq<Entry>, bundle: string, cmd: string)
  {
    Owners(registry, cmd) == [bundle] || Owners(registry, cmd) == []
  }

  function UnlinkAll(s: Bin, bundle: string, cmds: seq<string>): map<string, string>
  {
    map c | c in s.files && !(c in cmds && MayRemove(s.registry, bundle, c)) :: s.files[c]
  }

  function Uninstalled(s: Bin, bundle: string, cmds: seq<string>): Bin
  {
    Bin(s.present, if s.present then WithoutBundle(s.registry, bundle) else s.registry, UnlinkAll(s, bundle, cmds))
  }

  // ---------- The scripts ----------

  class BinDir {
    var present: bool
    var registry: seq<Entry>
    var files: map<string, string>

    ghost function State(): Bin
      reads this
    {
      Bin(present, registry, files)
    }

    constructor ()
      ensures State() == EMPTY && !present && registry == [] && files == map[]
    {
      present, registry, files := false, [], map[];
    }

    method Filter(cmd: string) returns (kept: seq<Entry>)
      ensures kept == WithoutCommand(registry, cmd)
    {
      kept := [];
      for i := 0 to |registry|
        invariant WithoutCommand(registry, cmd) == kept + WithoutCommand(registry[i..], cmd)
      {
        if registry[i].cmd != cmd {
          kept := kept + [registry[i]];
        }
      }
    }

    method Install(bundle: string, cmds: seq<string>)
      modifies this
      ensures State() == Installed(old(State()), bundle, cmds)
    {
      present := true;
      ghost var start := State();
      for i := 0 to |cmds|
        invariant State() == InstallAll(start, bundle, cmds[..i])
      {
        var cmd := cmds[i];
        files := files[cmd := bundle];
        var kept := Filter(cmd);
        registry := kept + [Entry(cmd, bundle)];
        present := true;
        assert cmds[..i + 1][..i] == cmds[..i];
      }
      assert cmds[..|cmds|] == cmds;
    }

    method ReadOwners(cmd: string) returns (owners: seq<string>)
      ensures owners == Owners(registry, cmd)
    {
      owners := [];
      for i := 0 to |registry|
        invariant Owners(registry, cmd) == owners + Owners(registry[i..], cmd)
      {
        if registry[i].cmd == cmd {
          owners := owners + [registry[i].bundle];
        }
      }
    }

    method Clean(bundle: string)
      modifies this`registry
      ensures registry == WithoutBundle(old(registry), bundle)
    {
      var kept := [];
      for i := 0 to |registry|
        invariant WithoutBundle(registry, bundle) == kept + WithoutBundle(registry[i..], bundle)
      {
        if registry[i].bundle != bundle {
          kept := kept + [registry[i]];
        }
      }
      registry := kept;
    }

    method Uninstall(bundle: string, cmds: seq<string>)
      modifies this
      ensures State() == Uninstalled(old(State()), bundle, cmds)
    {
      ghost var start := State();
      for i := 0 to |cmds|
        invariant present == start.present && registry == start.registry
        invariant files == UnlinkAll(start, bundle, cmds[..i])
      {
        var owners := ReadOwners(cmds[i]);
        if owners == [bundle] || owners == [] {
          files := files - {cmds[i]};
        }
        assert cmds[..i + 1] == cmds[..i] + [cmds[i]];
      }
      assert cmds[..|cmds|] == cmds;
      if present {
        Clean(bundle);
      }
    }
  }

  // ---------- What the scripts do to the owners ----------

  lemma {:induction false} OwnersAppend(a: seq<Entry>, b: seq<Entry>, cmd: string)
    ensures Owners(a + b, cmd) == Owners(a, cmd) + Owners(b, cmd)
  {
    if a == [] {
      assert a + b == b;
    } else {
      assert (a + b)[1..] == a[1..] + b;
      OwnersAppend(a[1..], b, cmd);
    }
  }

  lemma OwnersStep(e: Entry, rest: seq<Entry>, cmd: string)
    ensures Owners([e] + rest, cmd) == (if e.cmd == cmd then [e.bundle] else []) + Owners(rest, cmd)
  {
    assert ([e] + rest)[1..] == rest;
  }

  lemma {:induction false} OwnersWithoutCommand(registry: seq<Entry>, cmd: string, other: string)
    ensures Owners(WithoutCommand(registry, cmd), other) == if cmd == other then [] else Owners(registry, other)
  {
    if registry != [] {
      OwnersWithoutCommand(registry[1..], cmd, other);
      var rest := WithoutCommand(registry[1..], cmd);
      assert [] + rest == rest;
      OwnersStep(registry[0], rest, other);
    }
  }

  lemma {:induction false} OwnersWithoutBundle(registry: seq<Entry>, bundle: string, cmd: string)
    requires |Owners(registry, cmd)| <= 1
    ensures Owners(WithoutBundle(registry, bundle), cmd)
         == if Owners(registry, cmd) == [bundle] then [] else Owners(registry, cmd)
  {
    if registry != [] {
      OwnersWithoutBundle(registry[1..], bundle, cmd);
      var rest := WithoutBundle(registry[1..], bundle);
      assert [] + rest == rest;
      OwnersStep(registry[0], rest, cmd);
      var tail := Owners(registry[1..], cmd);
      if registry[0].cmd == cmd {
        assert tail == [];
        assert Owners(registry, cmd) == [registry[0].bundle];
      } else {
        assert Owners(registry, cmd) == tail;
      }
    }
  }

  // ---------- Invariants ----------

  /** At most one entry for each command, and its trampoline leads to that owner. */
  ghost predicate Sound(s: Bin)
  {
    && (forall c: string :: |Owners(s.registry, c)| <= 1)
    && (forall c: string :: |Owners(s.registry, c)| == 1 ==> c in s.files && s.files[c] == Owners(s.registry, c)[0])
    && (!s.present ==> s.registry == [])
  }

  /** No trampoline without an entry. */
  ghost predicate Tidy(s: Bin)
  {
    forall c :: c in s.files ==> |Owners(s.registry, c)| == 1
  }

  lemma InstallOneKeeps(s: Bin, bundle: string, cmd: string)
    requires Sound(s)
    ensures Sound(InstallOne(s, bundle, cmd)) && (Tidy(s) ==> Tidy(InstallOne(s, bundle, cmd)))
    ensures forall c: string ::
      Owners(InstallOne(s, bundle, cmd).registry, c) == if c == cmd then [bundle] else Owners(s.registry, c)
  {
    var t := InstallOne(s, bundle, cmd);
    forall c: string ensures Owners(t.registry, c) == if c == cmd then [bundle] else Owners(s.registry, c) {
      OwnersWithoutCommand(s.registry, cmd, c);
      OwnersAppend(WithoutCommand(s.registry, cmd), [Entry(cmd, bundle)], c);
    }
  }

  /** Installing makes the bundle the owner of each of its commands and changes no other. */
  lemma {:induction false} InstallKeeps(s: Bin, bundle: string, cmds: seq<string>)
    requires Sound(s)
    ensures Sound(InstallAll(s, bundle, cmds)) && (Tidy(s) ==> Tidy(InstallAll(s, bundle, cmds)))
    ensures forall c: string ::
      Owners(InstallAll(s, bundle, cmds).registry, c) == if c in cmds then [bundle] else Owners(s.registry, c)
    decreases |cmds|
  {
    hide Sound, Tidy, InstallOne, Owners;
    if cmds != [] {
      var front, last := cmds[..|cmds| - 1], cmds[|cmds| - 1];
      InstallKeeps(s, bundle, front);
      InstallOneKeeps(InstallAll(s, bundle, front), bundle, last);
      assert cmds == front + [last];
    }
  }

  lemma UninstallOwners(s: Bin, bundle: string, cmds: seq<string>, cmd: string)
    requires Sound(s)
    ensures Owners(Uninstalled(s, bundle, cmds).registry, cmd)
         == if Owners(s.registry, cmd) == [bundle] then [] else Owners(s.registry, cmd)
  {
    if s.present {
      OwnersWithoutBundle(s.registry, bundle, cmd);
    }
  }

  /** Uninstalling removes no trampoline that is registered to another bundle. */
  lemma UninstallSparesOthers(s: Bin, bundle: string, cmds: seq<string>, cmd: string)
    requires Sound(s) && |Owners(s.registry, cmd)| == 1 && Owners(s.registry, cmd)[0] != bundle
    ensures cmd in Uninstalled(s, bundle, cmds).files && Uninstalled(s, bundle, cmds).files[cmd] == s.files[cmd]
    ensures Owners(Uninstalled(s, bundle, cmds).registry, cmd) == Owners(s.registry, cmd)
  {
    UninstallOwners(s, bundle, cmds, cmd);
  }

  lemma UninstallKeeps(s: Bin, bundle: string, cmds: seq<string>)
    requires Sound(s)
    ensures Sound(Uninstalled(s, bundle, cmds))
  {
    var t := Uninstalled(s, bundle, cmds);
    forall c: string
      ensures |Owners(t.registry, c)| <= 1
      ensures |Owners(t.registry, c)| == 1 ==> c in t.files && t.files[c] == Owners(t.registry, c)[0]
    {
      UninstallOwners(s, bundle, cmds, c);
    }
  }

  /** The script lists every command of which its bundle is the registered owner. */
  ghost predicate ListsOwned(s: Bin, bundle: string, cmds: seq<string>)
  {
    forall c: string :: Owners(s.registry, c) == [bundle] ==> c in cmds
  }

  /** Uninstalling leaves no trampoline without an owner exactly when the script lists every command
      that the bundle owns. */
  lemma UninstallTidyExactly(s: Bin, bundle: string, cmds: seq<string>)
    requires Sound(s) && Tidy(s)
    ensures Tidy(Uninstalled(s, bundle, cmds)) <==> ListsOwned(s, bundle, cmds)
  {
    var t := Uninstalled(s, bundle, cmds);
    forall c: string
      ensures Owners(t.registry, c) == if Owners(s.registry, c) == [bundle] then [] else Owners(s.registry, c)
    {
      UninstallOwners(s, bundle, cmds, c);
    }
    if Tidy(t) {
      forall c: string | Owners(s.registry, c) == [bundle] ensures c in cmds {
        assert c in s.files;
        assert c in t.files || c in cmds;
      }
    }
  }

  // ---------- Runs ----------

  datatype Action = Install(bundle: string, cmds: seq<string>) | Uninstall(bundle: string, cmds: seq<string>)

  function Step(s: Bin, a: Action): Bin
  {
    match a
    case Install(bundle, cmds) => Installed(s, bundle, cmds)
    case Uninstall(bundle, cmds) => Uninstalled(s, bundle, cmds)
  }

  function Run(actions: seq<Action>): Bin
  {
    if actions == [] then EMPTY else Step(Run(actions[..|actions| - 1]), actions[|actions| - 1])
  }

  /** Whose command it is after a history: the last to install it, until that bundle is uninstalled. */
  function LastInstaller(actions: seq<Action>, cmd: string): seq<string>
  {
    if actions == [] then []
    else
      var before := LastInstaller(actions[..|actions| - 1], cmd);
      match actions[|actions| - 1]
      case Install(bundle, cmds) => if cmd in cmds then [bundle] else before
      case Uninstall(bundle, _) => if before == [bundle] then [] else before
  }

  /** After every run the registry names exactly the last installer, and its trampoline leads there. */
  lemma {:induction false} RunIsSound(actions: seq<Action>)
    ensures Sound(Run(actions)) && forall c: string :: Owners(Run(actions).registry, c) == LastInstaller(actions, c)
    decreases |actions|
  {
    if actions != [] {
      var front, last := actions[..|actions| - 1], actions[|actions| - 1];
      RunIsSound(front);
      var s := Run(front);
      match last
      case Install(bundle, cmds) =>
        InstallKeeps(s.(present := true), bundle, cmds);
      case Uninstall(bundle, cmds) =>
        UninstallKeeps(s, bundle, cmds);
        forall c: string ensures Owners(Run(actions).registry, c) == LastInstaller(actions, c) {
          UninstallOwners(s, bundle, cmds, c);
        }
    }
  }

  /** The bundle whose uninstallation left the command's trampoline behind, until the command is
      installed again or another uninstallation removes it. */
  function LeftBehind(actions: seq<Action>, cmd: string): seq<string>
  {
    if actions == [] then []
    else
      var front := actions[..|actions| - 1];
      match actions[|actions| - 1]
      case Install(_, cmds) => if cmd in cmds then [] else LeftBehind(front, cmd)
      case Uninstall(bundle, cmds) =>
        if cmd in cmds then []
        else if LastInstaller(front, cmd) == [bundle] then [bundle]
        else LeftBehind(front, cmd)
  }

  /** The trampolines after a history: those of the owners, and those left behind. */
  ghost predicate HasTrampolines(files: map<string, string>, actions: seq<Action>, cmd: string)
  {
    var bundles := LastInstaller(actions, cmd) + LeftBehind(actions, cmd);
    |bundles| <= 1 && (cmd in files <==> bundles != []) && (cmd in files ==> bundles == [files[cmd]])
  }

  lemma {:induction false} InstalledFiles(s: Bin, bundle: string, cmds: seq<string>, cmd: string)
    ensures var t := InstallAll(s, bundle, cmds);
      if cmd in cmds then cmd in t.files && t.files[cmd] == bundle
      else (cmd in t.files <==> cmd in s.files) && (cmd in s.files ==> t.files[cmd] == s.files[cmd])
    decreases |cmds|
  {
    if cmds != [] {
      var front, last := cmds[..|cmds| - 1], cmds[|cmds| - 1];
      InstalledFiles(s, bundle, front, cmd);
      assert cmds == front + [last];
    }
  }

  /** After every run a trampoline exists exactly for the commands that have an owner or were left
      behind, and leads to that bundle. */
  lemma {:induction false} TrampolinesOfRun(actions: seq<Action>, cmd: string)
    ensures HasTrampolines(Run(actions).files, actions, cmd)
    decreases |actions|
  {
    hide Owners, WithoutBundle, WithoutCommand;
    if actions != [] {
      var front, last := actions[..|actions| - 1], actions[|actions| - 1];
      TrampolinesOfRun(front, cmd);
      RunIsSound(front);
      match last
      case Install(bundle, cmds) =>
        InstalledFiles(Run(front).(present := true), bundle, cmds, cmd);
      case Uninstall(bundle, cmds) =>
    }
  }

  ghost predicate NoneLeftBehind(actions: seq<Action>)
  {
    forall c: string :: LeftBehind(actions, c) == []
  }

  /** So no trampoline is without an owner if and only if none was left behind. */
  lemma RunTidyExactly(actions: seq<Action>)
    ensures Tidy(Run(actions)) <==> NoneLeftBehind(actions)
  {
    hide LastInstaller, LeftBehind, Run, Owners;
    RunIsSound(actions);
    var s := Run(actions);
    forall c: string ensures LeftBehind(actions, c) == [] <==> (c in s.files ==> |Owners(s.registry, c)| == 1) {
      TrampolinesOfRun(actions, c);
      assert Owners(s.registry, c) == LastInstaller(actions, c);
    }
    if NoneLeftBehind(actions) {
      forall c | c in s.files ensures |Owners(s.registry, c)| == 1 {
        assert LeftBehind(actions, c) == [];
      }
    }
  }

  /** A bundle keeps its list of commands from its first installation to its last removal. */
  ghost predicate SameLists(actions: seq<Action>, lists: map<string, seq<string>>)
  {
    forall a :: a in actions ==> a.bundle in lists && a.cmds == lists[a.bundle]
  }

  lemma {:induction false} OwnedIsListed(actions: seq<Action>, lists: map<string, seq<string>>, bundle: string,
                                         cmd: string)
    requires SameLists(actions, lists) && LastInstaller(actions, cmd) == [bundle]
    ensures bundle in lists && cmd in lists[bundle]
    decreases |actions|
  {
    if actions != [] {
      var front, last := actions[..|actions| - 1], actions[|actions| - 1];
      assert last in actions;
      if last.Install? && cmd in last.cmds {
      } else {
        OwnedIsListed(front, lists, bundle, cmd);
      }
    }
  }

  /** With lists that do not change a trampoline exists exactly for the commands with an owner, and
      leads to the last installer, after every run. */
  lemma {:induction false} RunIsTidy(actions: seq<Action>, lists: map<string, seq<string>>)
    requires SameLists(actions, lists)
    ensures forall c: string :: c in Run(actions).files <==> LastInstaller(actions, c) != []
    ensures forall c: string :: c in Run(actions).files ==> LastInstaller(actions, c) == [Run(actions).files[c]]
  {
    TidyRun(actions, lists);
    RunIsSound(actions);
  }

  lemma {:induction false} TidyRun(actions: seq<Action>, lists: map<string, seq<string>>)
    requires SameLists(actions, lists)
    ensures Tidy(Run(actions))
    decreases |actions|
  {
    if actions != [] {
      var front, last := actions[..|actions| - 1], actions[|actions| - 1];
      TidyRun(front, lists);
      RunIsSound(front);
      assert last in actions;
      var s := Run(front);
      match last
      case Install(bundle, cmds) =>
        InstallKeeps(s.(present := true), bundle, cmds);
      case Uninstall(bundle, cmds) =>
        forall c: string | Owners(s.registry, c) == [bundle] ensures c in cmds {
          OwnedIsListed(front, lists, bundle, c);
        }
        UninstallTidyExactly(s, bundle, cmds);
    }
  }

  /** A bundle that no longer lists a command when it is removed leaves that trampoline behind, with no
      owner; and any other bundle that lists it then removes it. */
  lemma ChangedListLeavesTrampoline(bundle: string, other: string, cmd: string)
    requires bundle != other
    ensures var run := [Install(bundle, [cmd]), Uninstall(bundle, [])];
      && cmd in Run(run).files && Run(run).files[cmd] == bundle && Run(run).registry == []
      && cmd !in Run(run + [Uninstall(other, [cmd])]).files
  {
    var first := [Install(bundle, [cmd])];
    var run := [Install(bundle, [cmd]), Uninstall(bundle, [])];
    var longer := run + [Uninstall(other, [cmd])];
    assert first[..0] == [] && run[..1] == first && longer[..2] == run;
    var one := Bin(true, [Entry(cmd, bundle)], map[cmd := bundle]);
    assert Run(first) == one by {
      assert Run([]) == EMPTY;
      assert [cmd][..0] == [];
      assert InstallAll(EMPTY.(present := true), bundle, []) == Bin(true, [], map[]);
      assert Installed(EMPTY, bundle, [cmd]) == InstallOne(Bin(true, [], map[]), bundle, cmd);
    }
    var two := Bin(true, [], map[cmd := bundle]);
    assert Run(run) == two by {
      assert Run(run) == Uninstalled(one, bundle, []);
      assert WithoutBundle(one.registry, bundle) == [];
      assert UnlinkAll(one, bundle, []) == one.files;
    }
    assert Run(longer) == Uninstalled(two, other, [cmd]);
  }
}
