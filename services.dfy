/** The `Service` record of dcman.py and the pure operations on the ordered
    list of services that the app keeps: status markup, selection of a
    project's services, and applying a batch of fetched statuses. */
module Services {
  import opened Docker

  /** One service of one compose project. The registry refers to a service
      by its position, which never changes once it is loaded. */
  datatype Service = Service(name: string, projectName: string, projectPath: Path, composeFile: Path, status: string)
  {
    /** `full_name`: the project name and the service name joined by '-'. */
    function FullName(): (r: string)
      ensures |r| == |projectName| + 1 + |name|
      ensures r[..|projectName|] == projectName && r[|projectName|] == '-' && r[|projectName| + 1..] == name
    {
      projectName + "-" + name
    }
  }

  /** When neither project name contains '-', the full name determines the
      project and the service. */
  lemma {:induction false} FullNameInjective(a: Service, b: Service)
    requires '-' !in a.projectName && '-' !in b.projectName
    requires a.FullName() == b.FullName()
    ensures a.projectName == b.projectName && a.name == b.name
  {
    var fa, fb := a.FullName(), b.FullName();
    var m, n := |a.projectName|, |b.projectName|;
    assert fa[m] == '-' && forall k :: 0 <= k < m ==> fa[k] == a.projectName[k] != '-';
    assert fb[n] == '-' && forall k :: 0 <= k < n ==> fb[k] == b.projectName[k] != '-';
    assert a.projectName == fa[..m] == fb[..n] == b.projectName;
    assert a.name == fa[m + 1..] == fb[n + 1..] == b.name;
  }

  /** A '-' inside a project name lets two different services share a full
      name: project "a-b" with service "c", and project "a" with service
      "b-c". */
  lemma FullNameCollision(path: Path, file: Path, status: string)
    ensures var a, b := Service("c", "a-b", path, file, status), Service("b-c", "a", path, file, status);
      a.FullName() == b.FullName() && a != b
  {
    assert "a-b" + "-" + "c" == "a-b-c" == "a" + "-" + "b-c";
  }

  /** `format_status`: the status in Rich colour markup. */
  function FormatStatus(status: string): (r: string)
    ensures |r| >= 17
  {
    if status == "running" then "[green]running[/green]"
    else if status == "stopped" then "[red]stopped[/red]"
    else if status == "loading" then "[cyan]loading...[/cyan]"
    else "[yellow]" + status + "[/yellow]"
  }

  /** Running, stopped and loading have markup of their own; any other status
      is shown verbatim in yellow. */
  lemma FormatStatusYellow(status: string)
    ensures FormatStatus(status)[..8] == "[yellow]" <==> status !in {"running", "stopped", "loading"}
    ensures status !in {"running", "stopped", "loading"} ==>
      var f := FormatStatus(status); f[8..|f| - 9] == status
  {
    var f := FormatStatus(status);
    if status == "running" {
      assert f[1] == 'g';
    } else if status == "stopped" {
      assert f[1] == 'r';
    } else if status == "loading" {
      assert f[1] == 'c';
    } else {
      assert f == "[yellow]" + status + "[/yellow]";
      assert f[..8] == "[yellow]" && f[8..|f| - 9] == status;
    }
  }

  /** Running, stopped and loading are each shown as their own word in a
      colour of their own: green, red and cyan. */
  lemma FormatStatusColours(status: string)
    requires status in {"running", "stopped", "loading"}
    ensures var f := FormatStatus(status);
      && (status == "running" ==> f[..7] == "[green]" && f[7..14] == status)
      && (status == "stopped" ==> f[..5] == "[red]" && f[5..12] == status)
      && (status == "loading" ==> f[..6] == "[cyan]" && f[6..13] == status)
  {
    var f := FormatStatus(status);
    if status == "running" {
      assert f == "[green]" + "running" + "[/green]";
    } else if status == "stopped" {
      assert f == "[red]" + "stopped" + "[/red]";
    } else {
      assert f == "[cyan]" + "loading" + "..." + "[/cyan]";
    }
  }

  /** Two different statuses are never shown alike, so the table always tells
      statuses apart. */
  lemma {:induction false} FormatStatusInjective(s1: string, s2: string)
    requires FormatStatus(s1) == FormatStatus(s2)
    ensures s1 == s2
  {
    var f := FormatStatus(s1);
    FormatStatusYellow(s1);
    FormatStatusYellow(s2);
    if f[..8] == "[yellow]" {
      assert s1 == f[8..|f| - 9] == s2;
    }
  }

  /** `a` holds the same services as `b`, in the same order; only statuses may
      differ. */
  predicate SameServices(a: seq<Service>, b: seq<Service>) {
    |a| == |b| && forall j :: 0 <= j < |a| ==> a[j] == b[j].(status := a[j].status)
  }

  /** The list `[s for s in services if s.project_name == project_name]`, as
      the positions of those services, in order. */
  function ProjectIndices(services: seq<Service>, projectName: string): (r: seq<nat>)
    ensures forall j :: j in r <==> 0 <= j < |services| && services[j].projectName == projectName
    ensures forall k, l :: 0 <= k < l < |r| ==> r[k] < r[l]
    ensures InRange(r, services)
  {
    if services == [] then []
    else
      var last := |services| - 1;
      var before := ProjectIndices(services[..last], projectName);
      assert forall k :: 0 <= k < |before| ==> before[k] in before;
      before + (if services[last].projectName == projectName then [last] else [])
  }

  /** Which services belong to which project does not depend on statuses. */
  lemma {:induction false} ProjectIndicesIgnoreStatus(a: seq<Service>, b: seq<Service>, projectName: string)
    requires SameServices(a, b)
    ensures ProjectIndices(a, projectName) == ProjectIndices(b, projectName)
  {
    if a != [] {
      var last := |a| - 1;
      ProjectIndicesIgnoreStatus(a[..last], b[..last], projectName);
      assert a[last].projectName == b[last].projectName;
    }
  }

  /** The services of one compose file as `load_project_async` creates them:
      one per service name, in the file's order, all "loading". */
  function Loaded(projectName: string, composeFile: Path, serviceNames: seq<string>): (r: seq<Service>)
    ensures |r| == |serviceNames|
    ensures forall k :: 0 <= k < |r| ==>
      r[k] == Service(serviceNames[k], projectName, Parent(composeFile), composeFile, "loading")
  {
    seq(|serviceNames|, k requires 0 <= k < |serviceNames| =>
      Service(serviceNames[k], projectName, Parent(composeFile), composeFile, "loading"))
  }

  /** The positions `0 .. n - 1`, in order: every service of the registry. */
  function AllIndices(n: nat): (r: seq<nat>)
    ensures |r| == n && forall k :: 0 <= k < n ==> r[k] == k
    ensures Distinct(r)
    ensures forall k :: 0 <= k < n ==> k in r
  {
    var r := if n == 0 then [] else AllIndices(n - 1) + [n - 1];
    assert forall k :: 0 <= k < n ==> r[k] == k;
    r
  }

  /** No position occurs twice. */
  predicate Distinct(targets: seq<nat>) {
    forall k, l :: 0 <= k < l < |targets| ==> targets[k] != targets[l]
  }

  /** Every position is a position of `services`. */
  predicate InRange(targets: seq<nat>, services: seq<Service>) {
    forall k :: 0 <= k < |targets| ==> targets[k] < |services|
  }

  /** The services an action marks "loading" and queries again afterwards:
      for start every service of the selected one's project (starting one
      service brings up those it depends on), for any other action the
      selected service alone. */
  function ActionTargets(services: seq<Service>, selected: nat, action: string): (r: seq<nat>)
    requires selected < |services|
    ensures InRange(r, services) && Distinct(r) && selected in r
    ensures forall j :: j in r <==>
      0 <= j < |services| && if action == "start" then services[j].projectName == services[selected].projectName else j == selected
  {
    if action == "start" then ProjectIndices(services, services[selected].projectName) else [selected]
  }

  /** The loop `for service, status in results: service.status = status`
      over `targets[k]`, `results[k]`, in order. */
  function ApplyResults(services: seq<Service>, targets: seq<nat>, results: seq<string>): (r: seq<Service>)
    requires |targets| == |results| && InRange(targets, services)
    ensures SameServices(r, services)
    decreases |targets|
  {
    if targets == [] then services
    else
      var n := |targets| - 1;
      var before := ApplyResults(services, targets[..n], results[..n]);
      before[targets[n] := before[targets[n]].(status := results[n])]
  }

  /** The last position of `j` in `targets`. */
  function LastIndex(targets: seq<nat>, j: nat): (k: nat)
    requires j in targets
    ensures k < |targets| && targets[k] == j
    ensures forall l :: k < l < |targets| ==> targets[l] != j
  {
    if targets[|targets| - 1] == j then |targets| - 1 else LastIndex(targets[..|targets| - 1], j)
  }

  /** After a batch, a targeted service holds the result of its last
      occurrence in the batch; every other service is as it was. */
  lemma {:induction false} ApplyResultsAt(services: seq<Service>, targets: seq<nat>, results: seq<string>, j: nat)
    requires |targets| == |results| && InRange(targets, services) && j < |services|
    ensures ApplyResults(services, targets, results)[j]
         == if j in targets then services[j].(status := results[LastIndex(targets, j)]) else services[j]
  {
    if targets != [] {
      var n := |targets| - 1;
      ApplyResultsAt(services, targets[..n], results[..n], j);
      assert targets == targets[..n] + [targets[n]];
      if j in targets && targets[n] != j {
        assert j in targets[..n];
        assert LastIndex(targets, j) == LastIndex(targets[..n], j);
        assert results[..n][LastIndex(targets[..n], j)] == results[LastIndex(targets, j)];
      }
    }
  }

  /** The placeholder status for each of `n` services. */
  function Loadings(n: nat): (r: seq<string>)
    ensures |r| == n && forall k :: 0 <= k < n ==> r[k] == "loading"
  {
    seq(n, _ => "loading")
  }

  /** Marking a batch "loading" marks exactly the targeted services and
      changes nothing else about any service. */
  lemma MarkedAt(services: seq<Service>, targets: seq<nat>, j: nat)
    requires InRange(targets, services) && j < |services|
    ensures ApplyResults(services, targets, Loadings(|targets|))[j]
         == if j in targets then services[j].(status := "loading") else services[j]
  {
    ApplyResultsAt(services, targets, Loadings(|targets|), j);
  }

  /** Applying one result per position, to every position in order, gives
      service i the i-th result. */
  lemma ApplyAllResults(services: seq<Service>, results: seq<string>)
    requires |results| == |services|
    ensures var r := ApplyResults(services, AllIndices(|services|), results);
      |r| == |services| && forall i :: 0 <= i < |services| ==> r[i] == services[i].(status := results[i])
  {
    var all := AllIndices(|services|);
    ApplyDistinctResults(services, all, results);
    forall i | 0 <= i < |services|
      ensures ApplyResults(services, all, results)[i] == services[i].(status := results[i])
    {
      assert all[i] == i;
    }
  }

  /** With distinct targets every targeted service gets its own result and
      nothing else changes: the list keeps its length and its order. */
  lemma ApplyDistinctResults(services: seq<Service>, targets: seq<nat>, results: seq<string>)
    requires |targets| == |results| && InRange(targets, services) && Distinct(targets)
    ensures var r := ApplyResults(services, targets, results);
      && SameServices(r, services)
      && (forall k :: 0 <= k < |targets| ==> r[targets[k]].status == results[k])
      && (forall j :: 0 <= j < |services| && j !in targets ==> r[j] == services[j])
  {
    forall k | 0 <= k < |targets|
      ensures ApplyResults(services, targets, results)[targets[k]].status == results[k]
    {
      ApplyResultsAt(services, targets, results, targets[k]);
      assert LastIndex(targets, targets[k]) == k;
    }
    forall j | 0 <= j < |services| && j !in targets
      ensures ApplyResults(services, targets, results)[j] == services[j]
    {
      ApplyResultsAt(services, targets, results, j);
    }
  }

  /** `after` is `before` with the services at `targets` set to "loading". */
  predicate MarkedLoading(after: seq<Service>, before: seq<Service>, targets: seq<nat>) {
    |after| == |before| &&
    forall j :: 0 <= j < |before| ==>
      after[j] == if j in targets then before[j].(status := "loading") else before[j]
  }

  /** A batch overwrites the status of every service it targets, so statuses
      the targeted services had before it do not matter. */
  lemma ApplyResultsOverwrites(a: seq<Service>, b: seq<Service>, targets: seq<nat>, results: seq<string>)
    requires SameServices(a, b) && |targets| == |results| && InRange(targets, a)
    requires forall j :: 0 <= j < |a| && j !in targets ==> a[j] == b[j]
    ensures ApplyResults(a, targets, results) == ApplyResults(b, targets, results)
  {
    var ra, rb := ApplyResults(a, targets, results), ApplyResults(b, targets, results);
    forall j | 0 <= j < |a| ensures ra[j] == rb[j] {
      ApplyResultsAt(a, targets, results, j);
      ApplyResultsAt(b, targets, results, j);
    }
  }

  /** Marking an action's targets "loading" changes neither the targets nor
      the statuses the refresh that follows leaves behind. */
  lemma MarkedThenApplied(before: seq<Service>, marked: seq<Service>, selected: nat, action: string,
                          results: seq<string>)
    requires selected < |before| && |results| == |ActionTargets(before, selected, action)|
    requires MarkedLoading(marked, before, ActionTargets(before, selected, action))
    ensures ActionTargets(marked, selected, action) == ActionTargets(before, selected, action)
    ensures ApplyResults(marked, ActionTargets(marked, selected, action), results)
         == ApplyResults(before, ActionTargets(before, selected, action), results)
  {
    var targets := ActionTargets(before, selected, action);
    assert SameServices(marked, before);
    ProjectIndicesIgnoreStatus(marked, before, before[selected].projectName);
    ApplyResultsOverwrites(marked, before, targets, results);
  }
}
