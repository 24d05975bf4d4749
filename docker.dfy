/** `DockerComposeManager` of dcman.py: which docker commands are issued for a
    status query and for an action, how their outcome is read, and which
    compose files discovery keeps. Running a command is not modelled: every
    operation takes `run`, which gives the outcome of each command it could
    issue, and discovery takes `rglob`, the files each file name pattern
    matches under the root. */
module Docker {
  import opened Optional
  import opened Text

  /** A file system path as its parts (Python's `Path.parts`). */
  type Path = seq<string>

  /** `Path.parent`: the path without its last part (the parent of a path
      with no parts is that same empty path). */
  function Parent(file: Path): (r: Path)
    ensures file != [] ==> file == r + [file[|file| - 1]]
    ensures file == [] ==> r == []
  {
    if file == [] then [] else file[..|file| - 1]
  }

  /** How one `subprocess.run` call ended: the command exited with a return
      code and captured text, or the call raised (the executable is missing,
      the timeout expired, ...). */
  datatype ProcOutcome =
    | Exited(returnCode: int, stdout: string, stderr: string)
    | Raised(message: string)

  /** A command line and the working directory it runs in (None: the
      manager's own). */
  datatype Command = Command(argv: seq<string>, cwd: Option<Path>)

  /** `docker compose ps -q <service>` in the project directory: the id of the
      service's container, if it has one. */
  function PsCommand(projectPath: Path, serviceName: string): (r: Command)
    ensures r.cwd == Some(projectPath)
    ensures |r.argv| == 5 && r.argv[..2] == ["docker", "compose"] && r.argv[4] == serviceName
  {
    Command(["docker", "compose", "ps", "-q", serviceName], Some(projectPath))
  }

  /** `docker inspect -f {{.State.Status}} <id>`: the container's state. */
  function InspectCommand(containerId: string): (r: Command)
    ensures r.cwd == None
    ensures |r.argv| == 5 && r.argv[..2] == ["docker", "inspect"] && r.argv[4] == containerId
  {
    Command(["docker", "inspect", "-f", "{{.State.Status}}", containerId], None)
  }

  /** `get_service_status`: a blank container id means "stopped"; otherwise
      the stripped state docker reports for that container, "unknown" when
      that is blank; and "unknown" whenever a call raises. It never fails, and
      the status it gives is never blank and never padded with whitespace.
      The return codes of both commands are ignored, as in dcman.py. */
  function GetServiceStatus(run: Command -> ProcOutcome, projectPath: Path, serviceName: string): (r: string)
    ensures r != "" && Strip(r) == r
    ensures var ps := run(PsCommand(projectPath, serviceName));
      && (ps.Raised? ==> r == "unknown")
      && (ps.Exited? && AllSpace(ps.stdout) ==> r == "stopped")
      && (ps.Exited? && !AllSpace(ps.stdout) ==>
            var state := run(InspectCommand(Strip(ps.stdout)));
            r == if state.Exited? && !AllSpace(state.stdout) then Strip(state.stdout) else "unknown")
  {
    var ps := run(PsCommand(projectPath, serviceName));
    if ps.Raised? then StripUnpadded("unknown"); "unknown"
    else if Strip(ps.stdout) == "" then StripUnpadded("stopped"); "stopped"
    else
      var state := run(InspectCommand(Strip(ps.stdout)));
      if state.Raised? || Strip(state.stdout) == "" then StripUnpadded("unknown"); "unknown"
      else StripIdempotent(state.stdout); Strip(state.stdout)
  }

  /** Once the container id is blank the state is not inspected: any two
      `run`s that agree on the ps command give the same status. */
  lemma StoppedNeedsNoInspect(run1: Command -> ProcOutcome, run2: Command -> ProcOutcome, projectPath: Path, serviceName: string)
    requires run1(PsCommand(projectPath, serviceName)) == run2(PsCommand(projectPath, serviceName))
    requires run1(PsCommand(projectPath, serviceName)).Exited? && AllSpace(run1(PsCommand(projectPath, serviceName)).stdout)
    ensures GetServiceStatus(run1, projectPath, serviceName) == "stopped" == GetServiceStatus(run2, projectPath, serviceName)
  {
  }

  /** The command line `execute_action` runs for `action`; None for an
      action other than start, stop and restart. */
  function ActionArgv(action: string, serviceName: string): (r: Option<seq<string>>)
    ensures r.Some? <==> action == "start" || action == "stop" || action == "restart"
    ensures r.Some? ==> |r.value| >= 4 && r.value[..2] == ["docker", "compose"] && r.value[|r.value| - 1] == serviceName
  {
    if action == "start" then Some(["docker", "compose", "up", "-d", serviceName])
    else if action == "stop" then Some(["docker", "compose", "stop", serviceName])
    else if action == "restart" then Some(["docker", "compose", "restart", serviceName])
    else None
  }

  /** Distinct actions, or distinct services, never share a command line. */
  lemma {:induction false} ActionArgvInjective(a1: string, s1: string, a2: string, s2: string)
    requires ActionArgv(a1, s1).Some? && ActionArgv(a1, s1) == ActionArgv(a2, s2)
    ensures a1 == a2 && s1 == s2
  {
    var argv := ActionArgv(a1, s1).value;
    assert s1 == argv[|argv| - 1] == s2;
    assert argv[2] == (if a1 == "start" then "up" else a1);
    assert argv[2] == (if a2 == "start" then "up" else a2);
  }

  /** `execute_action`: an unknown action fails with a message naming it and
      runs nothing; a known action succeeds exactly when its command, run in
      the project directory, exits with code 0. The message names the action
      and service on success, carries the command's stderr on a non-zero
      exit, and the exception's text when the call raised. */
  function ExecuteAction(run: Command -> ProcOutcome, projectPath: Path, serviceName: string, action: string): (r: (bool, string))
    ensures ActionArgv(action, serviceName).None? ==> r == (false, "Unknown action: " + action)
    ensures ActionArgv(action, serviceName).Some? ==>
      var out := run(Command(ActionArgv(action, serviceName).value, Some(projectPath)));
      && (r.0 <==> out.Exited? && out.returnCode == 0)
      && (out.Exited? && out.returnCode == 0 ==> r.1 == "Successfully " + action + "ed " + serviceName)
      && (out.Exited? && out.returnCode != 0 ==> r.1 == "Error: " + out.stderr)
      && (out.Raised? ==> r.1 == "Exception: " + out.message)
  {
    match ActionArgv(action, serviceName)
    case None => (false, "Unknown action: " + action)
    case Some(argv) =>
      match run(Command(argv, Some(projectPath)))
      case Raised(e) => (false, "Exception: " + e)
      case Exited(code, _, err) =>
        if code == 0 then (true, "Successfully " + action + "ed " + serviceName)
        else (false, "Error: " + err)
  }

  /** An unknown action does not depend on any command's outcome. */
  lemma UnknownActionRunsNothing(run1: Command -> ProcOutcome, run2: Command -> ProcOutcome, projectPath: Path, serviceName: string, action: string)
    requires ActionArgv(action, serviceName).None?
    ensures ExecuteAction(run1, projectPath, serviceName, action) == ExecuteAction(run2, projectPath, serviceName, action)
  {
  }

  /** The two file names `find_compose_files` searches for, in order. */
  const ComposeFileNames: seq<string> := ["docker-compose.yml", "docker-compose.yaml"]

  /** A compose file is kept unless one of its path parts is `.devcontainer`. */
  predicate OutsideDevcontainer(file: Path) {
    ".devcontainer" !in file
  }

  /** The files of `files` outside `.devcontainer` directories, in order. */
  function KeepOutsideDevcontainer(files: seq<Path>): (r: seq<Path>)
    ensures |r| <= |files|
    ensures forall k :: 0 <= k < |r| ==> OutsideDevcontainer(r[k])
  {
    if files == [] then []
    else
      var last := files[|files| - 1];
      KeepOutsideDevcontainer(files[..|files| - 1]) + (if OutsideDevcontainer(last) then [last] else [])
  }

  /** The filter keeps exactly the files outside `.devcontainer`. */
  lemma {:induction false} KeepOutsideDevcontainerMembers(files: seq<Path>, f: Path)
    ensures f in KeepOutsideDevcontainer(files) <==> f in files && OutsideDevcontainer(f)
  {
    if files != [] {
      var init := files[..|files| - 1];
      KeepOutsideDevcontainerMembers(init, f);
      assert files == init + [files[|files| - 1]];
    }
  }

  /** Keeping from a longer list adds at most its last file. */
  lemma KeepOneMore(files: seq<Path>, f: Path)
    ensures KeepOutsideDevcontainer(files + [f])
         == KeepOutsideDevcontainer(files) + (if OutsideDevcontainer(f) then [f] else [])
  {
    assert (files + [f])[..|files|] == files;
  }

  /** The step of a loop that filters `matches` after `seen`, one file at a
      time. */
  lemma KeepNext(seen: seq<Path>, matches: seq<Path>, k: nat)
    requires k < |matches|
    ensures KeepOutsideDevcontainer(seen + matches[..k + 1])
         == KeepOutsideDevcontainer(seen + matches[..k]) + (if OutsideDevcontainer(matches[k]) then [matches[k]] else [])
  {
    assert seen + matches[..k + 1] == (seen + matches[..k]) + [matches[k]];
    KeepOneMore(seen + matches[..k], matches[k]);
  }

  /** Everything `rglob` finds for the given names, name by name. */
  function Found(rglob: string -> seq<Path>, names: seq<string>): seq<Path> {
    if names == [] then [] else Found(rglob, names[..|names| - 1]) + rglob(names[|names| - 1])
  }

  /** Searching one more name adds its matches at the end. */
  lemma FoundNext(rglob: string -> seq<Path>, names: seq<string>, p: nat)
    requires p < |names|
    ensures Found(rglob, names[..p + 1]) == Found(rglob, names[..p]) + rglob(names[p])
  {
    assert names[..p + 1][..p] == names[..p];
  }

  /** Both searches of `find_compose_files`, in order. */
  lemma FoundComposeFiles(rglob: string -> seq<Path>)
    ensures Found(rglob, ComposeFileNames[..|ComposeFileNames|])
         == rglob(ComposeFileNames[0]) + rglob(ComposeFileNames[1])
  {
    assert ComposeFileNames[..2] == ComposeFileNames;
    assert ComposeFileNames[..1] == [ComposeFileNames[0]];
    FoundNext(rglob, ComposeFileNames, 0);
    FoundNext(rglob, ComposeFileNames, 1);
  }

  /** `find_compose_files`: the `docker-compose.yml` matches, then the
      `docker-compose.yaml` matches, each in the order found, without those
      under a `.devcontainer` directory. */
  method FindComposeFiles(rglob: string -> seq<Path>) returns (files: seq<Path>)
    ensures files == KeepOutsideDevcontainer(rglob(ComposeFileNames[0]) + rglob(ComposeFileNames[1]))
    ensures forall f :: f in files <==>
      (f in rglob(ComposeFileNames[0]) || f in rglob(ComposeFileNames[1])) && OutsideDevcontainer(f)
  {
    files := [];
    ghost var seen: seq<Path> := [];
    for p := 0 to |ComposeFileNames|
      invariant seen == Found(rglob, ComposeFileNames[..p])
      invariant files == KeepOutsideDevcontainer(seen)
    {
      var matches := rglob(ComposeFileNames[p]);
      assert seen + matches[..0] == seen;
      for k := 0 to |matches|
        invariant files == KeepOutsideDevcontainer(seen + matches[..k])
      {
        KeepNext(seen, matches, k);
        if OutsideDevcontainer(matches[k]) {
          files := files + [matches[k]];
        }
      }
      assert matches[..|matches|] == matches;
      FoundNext(rglob, ComposeFileNames, p);
      seen := seen + matches;
    }
    FoundComposeFiles(rglob);
    forall f ensures f in files <==> f in seen && OutsideDevcontainer(f) {
      KeepOutsideDevcontainerMembers(seen, f);
    }
  }
}
