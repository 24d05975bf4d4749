/** `DockerComposeManagerApp` of dcman.py: the registry of services, the
    table that shows it, and the operations that change statuses. Each
    asynchronous operation runs here as one sequential step; the outcomes of
    docker commands are parameters (`run` for an action's command, `results`
    for the statuses a refresh batch fetched, one per targeted service). */
module App {
  import opened Optional
  import opened Docker
  import opened Services

  /** One table row: the key `add_row` returned and the three columns. */
  datatype Row = Row(key: nat, project: string, service: string, status: string)

  /** `row` shows `service`: its project, its name and its formatted status. */
  predicate Shows(row: Row, service: Service) {
    row.project == service.projectName && row.service == service.name
    && row.status == FormatStatus(service.status)
  }

  /** `rows` show the first `n` of `services`, in order, and `keys` maps
      exactly their indices to the keys of their rows. */
  predicate TableShows(rows: seq<Row>, keys: map<nat, nat>, services: seq<Service>, n: nat) {
    && n <= |services| && |rows| == n
    && (forall i :: 0 <= i < n ==> Shows(rows[i], services[i]))
    && (forall i :: i in keys ==> i < n)
    && (forall i :: 0 <= i < n ==> i in keys && keys[i] == rows[i].key)
  }

  /** Adding the row of the next service, under its key, shows one more. */
  lemma TableShowsNext(rows: seq<Row>, keys: map<nat, nat>, services: seq<Service>, n: nat, row: Row)
    requires TableShows(rows, keys, services, n) && n < |services| && Shows(row, services[n])
    ensures TableShows(rows + [row], keys[n := row.key], services, n + 1)
  {
  }

  /** `rows` are `before` with rows appended whose keys are at least
      `fromKey`. */
  predicate Appended(rows: seq<Row>, before: seq<Row>, fromKey: nat) {
    && |before| <= |rows| && rows[..|before|] == before
    && forall k :: |before| <= k < |rows| ==> fromKey <= rows[k].key
  }

  /** Appending one more row with a key at least `fromKey` keeps `Appended`. */
  lemma AppendedNext(rows: seq<Row>, before: seq<Row>, fromKey: nat, row: Row)
    requires Appended(rows, before, fromKey) && fromKey <= row.key
    ensures Appended(rows + [row], before, fromKey)
  {
    assert (rows + [row])[..|before|] == rows[..|before|];
  }

  function Min(a: nat, b: nat): nat {
    if a <= b then a else b
  }

  /** The state of the service table that the app reads and writes: the rows
      in display order, the cursor row, and the source of fresh row keys. */
  class ServiceList {
    var rows: seq<Row>
    var cursorRow: nat
    var nextKey: nat

    /** Row keys are increasing and below `nextKey`, so each is unique; the
        cursor is on a row, or at 0 when there is none. */
    ghost predicate Valid()
      reads this
    {
      && (forall k :: 0 <= k < |rows| ==> rows[k].key < nextKey)
      && (forall k, l :: 0 <= k < l < |rows| ==> rows[k].key < rows[l].key)
      && (if rows == [] then cursorRow == 0 else cursorRow < |rows|)
    }

    /** A new row-cursor table: no rows, the cursor at the top. */
    constructor ()
      ensures Valid() && rows == [] && cursorRow == 0
    {
      rows, cursorRow, nextKey := [], 0, 0;
    }

    /** `clear()`: no rows, cursor back at the top; keys are not reused. */
    method Clear()
      requires Valid()
      modifies this
      ensures Valid() && rows == [] && cursorRow == 0 && nextKey == old(nextKey)
    {
      rows, cursorRow := [], 0;
    }

    /** `add_row(...)`: appends a row under a key never used before. */
    method AddRow(project: string, service: string, status: string) returns (key: nat)
      requires Valid()
      modifies this
      ensures Valid()
      ensures rows == old(rows) + [Row(key, project, service, status)]
      ensures cursorRow == old(cursorRow)
      ensures old(nextKey) <= key < nextKey
    {
      key := nextKey;
      rows := rows + [Row(key, project, service, status)];
      nextKey := nextKey + 1;
    }

    /** `move_cursor(row=...)`: the table keeps the cursor on a row. */
    method MoveCursor(row: int)
      requires Valid() && rows != []
      modifies this`cursorRow
      ensures Valid()
      ensures cursorRow == if row < 0 then 0 else if row >= |rows| then |rows| - 1 else row
    {
      cursorRow := if row < 0 then 0 else if row >= |rows| then |rows| - 1 else row;
    }
  }

  /** The outcome of the in-progress check `perform_action` and
      `action_toggle` make before they act on the selected service. */
  datatype Admission = NoSelection | InProgress(index: nat) | Admitted(index: nat)

  class DockerComposeManagerApp {
    /** `self.services`: every loaded service, in discovery order. */
    var services: seq<Service>
    /** `self.service_to_row_key`: service index to the key of its row. */
    var serviceToRowKey: map<nat, nat>
    /** The service table widget. */
    const table: ServiceList

    /** The first `n` services are shown, in order, by the rows of the table,
        and `serviceToRowKey` maps exactly their indices to their rows' keys. */
    ghost predicate ShowsPrefix(n: nat)
      reads this, table
    {
      table.Valid() && TableShows(table.rows, serviceToRowKey, services, n)
    }

    /** The table shows the whole registry: row i is service i. */
    ghost predicate Valid()
      reads this, table
    {
      ShowsPrefix(|services|)
    }

    /** `__init__`: an empty registry and an empty row-key map, shown by a
        new, empty table. */
    constructor ()
      ensures Valid() && services == [] && serviceToRowKey == map[]
      ensures fresh(table) && table.rows == [] && table.cursorRow == 0
    {
      services := [];
      serviceToRowKey := map[];
      table := new ServiceList();
    }

    /** `get_selected_service`: the service under the cursor, if any. As the
        table shows the registry row by row, a service is selected exactly
        when the registry is not empty, and the cursor's row shows it. */
    function SelectedIndex(): (r: Option<nat>)
      reads this, table
      ensures r.Some? ==> r.value < |services| && r.value == table.cursorRow
      ensures Valid() ==> (r.Some? <==> services != [])
      ensures Valid() && r.Some? ==> Shows(table.rows[r.value], services[r.value])
    {
      if |table.rows| == 0 then None
      else if table.cursorRow < |services| then Some(table.cursorRow)
      else None
    }

    /** The in-progress check: no selection, the selected service is
        "loading", or the action may go ahead on it. */
    function Admit(): (r: Admission)
      reads this, table
      ensures r.NoSelection? <==> SelectedIndex().None?
      ensures !r.NoSelection? ==> SelectedIndex() == Some(r.index)
      ensures r.InProgress? <==> SelectedIndex().Some? && services[SelectedIndex().value].status == "loading"
    {
      match SelectedIndex()
      case None => NoSelection
      case Some(i) => if services[i].status == "loading" then InProgress(i) else Admitted(i)
    }

    /** `action_toggle`: the action it dispatches to `perform_action`, if any:
        stop for a running service, start for any other status except
        "loading", for which nothing is dispatched. */
    function ToggleAction(): (r: Option<string>)
      reads this, table
      ensures r.Some? <==> Admit().Admitted?
      ensures r == Some("stop") <==> Admit().Admitted? && services[Admit().index].status == "running"
      ensures r == Some("start") <==> Admit().Admitted? && services[Admit().index].status != "running"
    {
      match Admit()
      case Admitted(i) => if services[i].status == "running" then Some("stop") else Some("start")
      case _ => None
    }

    /** `rebuild_table`: clears the table and adds one row per service, in
        registry order, under fresh keys, mapping each index to its row key;
        then puts the cursor back on the row it was on, or the last row when
        the table got shorter. */
    method RebuildTable()
      requires table.Valid()
      modifies this`serviceToRowKey, table
      ensures Valid()
      ensures var oldCursor := if old(table.rows) != [] then old(table.cursorRow) else 0;
        table.cursorRow == if services == [] then 0 else Min(oldCursor, |services| - 1)
      ensures forall k :: 0 <= k < |table.rows| ==> old(table.nextKey) <= table.rows[k].key
    {
      var oldCursor := if |table.rows| > 0 then table.cursorRow else 0;
      table.Clear();
      serviceToRowKey := map[];
      for idx := 0 to |services|
        invariant ShowsPrefix(idx)
        invariant table.cursorRow == 0 && old(table.nextKey) <= table.nextKey
        invariant forall k :: 0 <= k < |table.rows| ==> old(table.nextKey) <= table.rows[k].key
      {
        var _ := AddServiceRow(idx);
      }
      if |table.rows| > 0 {
        table.MoveCursor(Min(oldCursor, |table.rows| - 1));
      }
    }

    /** The body of the loops of `add_services_to_table` and `rebuild_table`:
        `add_row` for service `idx`, then `service_to_row_key[idx] = row_key`.
        The row is appended under a fresh key and the map records it. */
    method AddServiceRow(idx: nat) returns (key: nat)
      requires ShowsPrefix(idx) && idx < |services|
      modifies this`serviceToRowKey, table
      ensures ShowsPrefix(idx + 1)
      ensures table.rows == old(table.rows) + [table.rows[idx]] && table.rows[idx].key == key
      ensures old(table.nextKey) <= key < table.nextKey
      ensures table.cursorRow == old(table.cursorRow)
      ensures serviceToRowKey == old(serviceToRowKey)[idx := key]
    {
      var service := services[idx];
      ghost var shown := table.rows;
      key := table.AddRow(service.projectName, service.name, FormatStatus(service.status));
      TableShowsNext(shown, serviceToRowKey, services, idx, table.rows[idx]);
      serviceToRowKey := serviceToRowKey[idx := key];
    }

    /** `add_services_to_table`: the rows of a batch just appended to the
        registry at `startIndex`, added below the rows already there. */
    method AddServicesToTable(batch: seq<Service>, startIndex: nat)
      requires ShowsPrefix(startIndex)
      requires startIndex + |batch| == |services|
      requires forall i :: 0 <= i < |batch| ==> services[startIndex + i] == batch[i]
      modifies this`serviceToRowKey, table
      ensures Valid()
      ensures table.cursorRow == old(table.cursorRow)
      ensures table.rows[..startIndex] == old(table.rows)
      ensures forall i :: 0 <= i < startIndex ==> serviceToRowKey[i] == old(serviceToRowKey)[i]
      ensures forall k :: startIndex <= k < |table.rows| ==> old(table.nextKey) <= table.rows[k].key
    {
      for i := 0 to |batch|
        invariant ShowsPrefix(startIndex + i)
        invariant table.cursorRow == old(table.cursorRow)
        invariant old(table.nextKey) <= table.nextKey
        invariant Appended(table.rows, old(table.rows), old(table.nextKey))
      {
        // batch[i] is services[startIndex + i]
        ghost var shown := table.rows;
        var _ := AddServiceRow(startIndex + i);
        AppendedNext(shown, old(table.rows), old(table.nextKey), table.rows[startIndex + i]);
      }
      forall j | 0 <= j < startIndex
        ensures serviceToRowKey[j] == old(serviceToRowKey)[j]
      {
        assert table.rows[j] == table.rows[..startIndex][j];
      }
    }

    /** The first half of `load_project_async`: a project's services are
        appended, in the given order, with status "loading", and shown at
        once. A project without services changes nothing. */
    method AddProject(projectName: string, composeFile: Path, serviceNames: seq<string>)
      returns (startIndex: nat)
      requires Valid()
      modifies this, table
      ensures Valid()
      ensures startIndex == |old(services)|
      ensures serviceNames == [] ==> unchanged(this, table)
      ensures services == old(services) + Loaded(projectName, composeFile, serviceNames)
    {
      startIndex := |services|;
      if serviceNames == [] {
        return;
      }
      var batch: seq<Service> := [];
      for k := 0 to |serviceNames|
        invariant services == old(services) + batch
        invariant batch == Loaded(projectName, composeFile, serviceNames[..k])
        invariant ShowsPrefix(startIndex)
        modifies this`services
      {
        var service := Service(serviceNames[k], projectName, Parent(composeFile), composeFile, "loading");
        services := services + [service];
        batch := batch + [service];
      }
      assert serviceNames[..|serviceNames|] == serviceNames;
      AddServicesToTable(batch, startIndex);
    }

    /** The loop `for service, status in results: service.status = status`
        over `targets[k]`, `results[k]`. */
    method ApplyStatuses(targets: seq<nat>, results: seq<string>)
      requires |targets| == |results| && InRange(targets, services)
      modifies this`services
      ensures services == ApplyResults(old(services), targets, results)
    {
      for k := 0 to |targets|
        invariant services == ApplyResults(old(services), targets[..k], results[..k])
      {
        assert targets[..k + 1][..k] == targets[..k] && results[..k + 1][..k] == results[..k];
        var t := targets[k];
        services := services[t := services[t].(status := results[k])];
      }
      assert targets[..|targets|] == targets && results[..|results|] == results;
    }

    /** `refresh_services_async`: applies a batch of fetched statuses, the
        k-th to the service at `targets[k]`, then rebuilds the table. Nothing
        but those statuses changes, and the cursor stays where it was. */
    method RefreshServices(targets: seq<nat>, results: seq<string>)
      requires Valid()
      requires |targets| == |results| && InRange(targets, services)
      modifies this`services, this`serviceToRowKey, table
      ensures Valid()
      ensures services == ApplyResults(old(services), targets, results)
      ensures table.cursorRow == old(table.cursorRow)
    {
      ApplyStatuses(targets, results);
      RebuildTable();
    }

    /** `refresh_project_status_async`: refreshes every service of the
        project, in registry order. */
    method RefreshProjectStatus(projectName: string, results: seq<string>)
      requires Valid()
      requires |results| == |ProjectIndices(services, projectName)|
      modifies this`services, this`serviceToRowKey, table
      ensures Valid()
      ensures services == ApplyResults(old(services), ProjectIndices(old(services), projectName), results)
      ensures table.cursorRow == old(table.cursorRow)
    {
      var projectServices := ProjectIndices(services, projectName);
      RefreshServices(projectServices, results);
    }

    /** `load_project_async`: the project's services are added as "loading",
        then every service of that project name is refreshed with the batch
        of fetched statuses, one per such service in registry order. */
    method LoadProject(projectName: string, composeFile: Path, serviceNames: seq<string>,
                       results: seq<string>)
      requires Valid()
      requires serviceNames != [] ==>
        |results| == |ProjectIndices(services + Loaded(projectName, composeFile, serviceNames), projectName)|
      modifies this, table
      ensures Valid()
      ensures serviceNames == [] ==> unchanged(this, table)
      ensures serviceNames != [] ==>
        var added := old(services) + Loaded(projectName, composeFile, serviceNames);
        services == ApplyResults(added, ProjectIndices(added, projectName), results)
    {
      var _ := AddProject(projectName, composeFile, serviceNames);
      if serviceNames == [] {
        return;
      }
      RefreshProjectStatus(projectName, results);
    }

    /** The loops of `refresh_all_async` and `perform_action` that set
        `status = "loading"` on the services at `targets`; nothing else
        changes. */
    method MarkLoading(targets: seq<nat>)
      requires InRange(targets, services)
      modifies this`services
      ensures MarkedLoading(services, old(services), targets)
    {
      ApplyStatuses(targets, Loadings(|targets|));
      forall j | 0 <= j < |services|
        ensures services[j] == if j in targets then old(services[j]).(status := "loading") else old(services[j])
      {
        MarkedAt(old(services), targets, j);
      }
    }

    /** The first half of `refresh_all_async`: every service is marked
        "loading" and the table is rebuilt to show it before any status is
        fetched. */
    method MarkAllLoading()
      requires Valid()
      modifies this`services, this`serviceToRowKey, table
      ensures Valid()
      ensures |services| == |old(services)|
      ensures forall i :: 0 <= i < |services| ==> services[i] == old(services[i]).(status := "loading")
      ensures table.cursorRow == old(table.cursorRow)
    {
      MarkLoading(AllIndices(|services|));
      RebuildTable();
    }

    /** `refresh_all_async`: every service is marked "loading", then all are
        refreshed at once; service i ends with the i-th fetched status and
        everything else about it unchanged. */
    method RefreshAll(results: seq<string>)
      requires Valid() && |results| == |services|
      modifies this`services, this`serviceToRowKey, table
      ensures Valid()
      ensures |services| == |old(services)|
      ensures forall i :: 0 <= i < |services| ==> services[i] == old(services[i]).(status := results[i])
      ensures table.cursorRow == old(table.cursorRow)
    {
      MarkAllLoading();
      ghost var marked := services;
      RefreshServices(AllIndices(|services|), results);
      ApplyAllResults(marked, results);
    }

    /** The first half of `perform_action`: the in-progress check, then the
        marking the table shows while the command runs. A start marks every
        service of the selected service's project "loading"; any other action
        marks only the selected service. Without a selection, or when the
        selected service is "loading", nothing changes and no command is
        issued (`CompleteAction` is not reached). */
    method BeginAction(action: string) returns (r: Admission)
      requires Valid()
      modifies this`services, this`serviceToRowKey, table
      ensures Valid()
      ensures r == old(Admit())
      ensures !r.Admitted? ==> unchanged(this, table)
      ensures r.Admitted? ==>
        && MarkedLoading(services, old(services), ActionTargets(old(services), r.index, action))
        && table.cursorRow == old(table.cursorRow)
    {
      r := Admit();
      if !r.Admitted? {
        return;
      }
      var service := services[r.index];
      var projectServices := ProjectIndices(services, service.projectName);
      var targets := if action == "start" then projectServices else [r.index];
      assert targets == ActionTargets(services, r.index, action);
      MarkLoading(targets);
      RebuildTable();
    }

    /** The second half of `perform_action`: the action's command runs, its
        result becomes the message, and then — whether it succeeded or not —
        a start re-queries every service of the project, any other action
        only the selected service. */
    method CompleteAction(index: nat, action: string, run: Command -> ProcOutcome, results: seq<string>)
      returns (success: bool, message: string)
      requires Valid() && index < |services|
      requires |results| == |ActionTargets(services, index, action)|
      modifies this`services, this`serviceToRowKey, table
      ensures Valid()
      ensures (success, message) == ExecuteAction(run, old(services[index]).projectPath, old(services[index]).name, action)
      ensures services == ApplyResults(old(services), ActionTargets(old(services), index, action), results)
      ensures table.cursorRow == old(table.cursorRow)
    {
      var service := services[index];
      var result := ExecuteAction(run, service.projectPath, service.name, action);
      success, message := result.0, result.1;
      if action == "start" {
        RefreshProjectStatus(service.projectName, results);
      } else {
        RefreshServices([index], results);
      }
    }

    /** `perform_action`: `BeginAction`, then, if it was admitted,
        `CompleteAction`. Every targeted service ends with its own fetched
        status: the "loading" placeholders are all overwritten. */
    method PerformAction(action: string, run: Command -> ProcOutcome, results: seq<string>)
      returns (r: Admission, outcome: Option<(bool, string)>)
      requires Valid()
      requires SelectedIndex().Some? ==> |results| == |ActionTargets(services, SelectedIndex().value, action)|
      modifies this`services, this`serviceToRowKey, table
      ensures Valid()
      ensures r == old(Admit())
      ensures !r.Admitted? ==> unchanged(this, table) && outcome == None
      ensures r.Admitted? ==>
        var s := old(services[r.index]);
        && outcome == Some(ExecuteAction(run, s.projectPath, s.name, action))
        && services == ApplyResults(old(services), ActionTargets(old(services), r.index, action), results)
    {
      r := BeginAction(action);
      if !r.Admitted? {
        return r, None;
      }
      MarkedThenApplied(old(services), services, r.index, action, results);
      var success, message := CompleteAction(r.index, action, run, results);
      outcome := Some((success, message));
    }
  }
}
