# dcman — a verified model of the Docker Compose service manager

`dcman.py` is a terminal UI. It finds the `docker-compose.yml` /
`docker-compose.yaml` files under a root directory and lists every service of
every compose project in a table with its live status. It also starts, stops,
restarts or toggles the selected service.

This project models the part of `dcman.py` that decides things:

- **The service registry** (`DockerComposeManagerApp.services`) and its status
  state machine:
  - loading a project appends its services with status "loading";
  - a refresh batch writes each fetched status to its own service;
  - a full refresh marks everything "loading", then refreshes everything;
  - an action is gated on "loading", marks its targets "loading", runs its
    command, then re-queries a start's whole project or a stop's or restart's
    one service.
- **The table the registry is shown in**:
  - `rebuild_table` rebuilds it row by row, with the index-to-row-key map;
  - the cursor is clamped after a rebuild;
  - `get_selected_service` reads the selected service off the cursor.
- **The pure decisions of `DockerComposeManager`**:
  - how the status query reads `docker compose ps -q` and `docker inspect`;
  - which command line each action runs, and how its exit is reported;
  - which compose files discovery keeps (none under `.devcontainer`);
  - plus `format_status` and `Service.full_name`.

Every docker command's outcome is a parameter:

- `run: Command -> ProcOutcome` gives each command line and working directory
  its outcome (exited with code, stdout and stderr, or raised).
- `rglob: string -> seq<Path>` gives the files a name pattern matches.
- Each refresh batch is given as `results`, one status per targeted service,
  in the order `asyncio.gather` returns them.

Modules:

| module | file | contents |
|---|---|---|
| `Optional` | `optional.dfy` | `Option` |
| `Text` | `text.dfy` | Python's `str.strip()` over the full `str.isspace` set |
| `Docker` | `docker.dfy` | `get_service_status`, `execute_action`, the `find_compose_files` filter |
| `Services` | `services.dfy` | `Service`, `full_name`, `format_status`, and the registry functions that specify the methods |
| `App` | `app.dfy` | the classes `ServiceList` (the table) and `DockerComposeManagerApp` (registry, row-key map, every state-changing operation) |

`perform_action` is split at its only suspension point that matters:

- `BeginAction`: the gate, the marking and the rebuild;
- `CompleteAction`: the command and the re-query;
- `PerformAction`: the two in sequence.

`BeginAction` therefore states the intermediate state a user sees while the
command runs.

Rebuilding images and showing a service's logs are open TODOs in
`dcman.py` (lines 10-11), so "loading" is the only in-progress status the code
knows and the only one the action gate checks. A command that fails to
complete (missing executable, expired timeout) makes `subprocess.run` raise.
The code turns that into "unknown" for a status query and into an
"Exception: ..." message for an action, and the model does the same through
`Raised`.

## Model

| member | source | states |
|---|---|---|
| Text.Strip | dcman.py:88-101 | `str.strip()`: the result is empty exactly when the input is all whitespace, and otherwise starts and ends with a non-whitespace character |
| Text.StripIsSlice | dcman.py:88-101 | stripping removes only whitespace, and only at the two ends: the result is a slice `s[i..j]` with blank `s[..i]` and `s[j..]` |
| Text.StripIdempotent | dcman.py:91 | stripping the container id or state twice changes nothing further |
| Docker.Parent | dcman.py:279 | `compose_file.parent`: the path without its last part |
| Docker.PsCommand | dcman.py:80-86 | `docker compose ps -q <service>`, run in the project directory |
| Docker.InspectCommand | dcman.py:92-97 | `docker inspect -f {{.State.Status}} <id>`, run in the manager's own directory |
| Docker.GetServiceStatus | dcman.py:77-101 | ps raised → "unknown"; blank container id → "stopped"; otherwise the stripped inspect state, or "unknown" when the inspect raised or printed only whitespace; the status is never blank and never padded |
| Docker.StoppedNeedsNoInspect | dcman.py:88-89 | with a blank container id the inspect command's outcome is irrelevant: the status is "stopped" whatever it would be |
| Docker.ActionArgv | dcman.py:107-114 | a command exists exactly for start, stop and restart; each is a `docker compose` command ending in the service name |
| Docker.ActionArgvInjective | dcman.py:107-112 | two (action, service) pairs with the same command line are the same pair |
| Docker.ExecuteAction | dcman.py:104-129 | unknown action → `(false, "Unknown action: <action>")`; otherwise success exactly when the command, run in the project directory, exits with 0; messages "Successfully <action>ed <svc>", "Error: <stderr>", "Exception: <text>" |
| Docker.UnknownActionRunsNothing | dcman.py:113-114 | an unknown action's result does not depend on any command's outcome (no command is issued) |
| Docker.KeepOutsideDevcontainer | dcman.py:57 | the filter keeps no file under `.devcontainer` and never grows the list; `KeepOutsideDevcontainerMembers` proves it keeps every other file |
| Docker.KeepOutsideDevcontainerMembers | dcman.py:57 | a file is kept exactly when it was found and no path part is `.devcontainer` |
| Docker.FindComposeFiles | dcman.py:51-58 | the `.yml` matches, then the `.yaml` matches, in the order found, filtered; the result holds exactly the found files outside `.devcontainer` |
| Services.Service.FullName | dcman.py:41-44 | `full_name` (defined but never called in dcman.py): the project name, '-', then the service name; `FullNameInjective` proves it identifies the service when the project name contains no '-', and `FullNameCollision` shows two services it confuses otherwise |
| Services.FullNameInjective | dcman.py:41-44 | for project names without '-', `project-name` determines project and service name |
| Services.FormatStatus | dcman.py:328-337 | `format_status`: Rich markup, never shorter than the yellow markup of an empty status; its cases are stated by `FormatStatusColours`, `FormatStatusYellow` and `FormatStatusInjective` |
| Services.FormatStatusColours | dcman.py:330-335 | running is shown as the word in green, stopped in red, loading in cyan |
| Services.FormatStatusYellow | dcman.py:328-337 | the markup starts with `[yellow]` exactly for a status other than running, stopped and loading, and then shows that status verbatim |
| Services.FormatStatusInjective | dcman.py:328-337 | distinct statuses are shown with distinct markup |
| Services.ProjectIndices | dcman.py:366 | the positions of exactly the services of the project, strictly increasing (registry order) |
| Services.ProjectIndicesIgnoreStatus | dcman.py:366 | statuses do not affect which services belong to a project |
| Services.Loaded | dcman.py:275-282 | one service per name, in order, with the project's name, the compose file, its parent directory as project path, and status "loading" |
| Services.ActionTargets | dcman.py:438-445 | a start targets exactly the services with the selected service's project name; stop and restart target exactly the selected service; no target twice |
| Services.ApplyResults | dcman.py:357-358 | the batch loop `service.status = status` over the targets in order: only statuses change, and length and order are kept; `ApplyResultsAt` gives each service's final state |
| Services.ApplyResultsAt | dcman.py:357-358 | after the batch loop, a targeted service has the status of its last occurrence in the batch and is otherwise unchanged; an untargeted one is unchanged |
| Services.ApplyDistinctResults | dcman.py:357-358 | with distinct targets, each targeted service gets its own fetched status, the rest are untouched, and length and order are kept |
| Services.ApplyAllResults | dcman.py:390 | refreshing every service in order gives service i the i-th status |
| Services.MarkedAt | dcman.py:442-445 | the "loading" loop marks exactly the targeted services |
| Services.ApplyResultsOverwrites | dcman.py:462-468 | refreshing the targets overwrites every "loading" placeholder: it ends the same whether or not they were marked |
| Services.MarkedThenApplied | dcman.py:438-468 | marking an action's targets leaves the re-queried targets the same, and the outcome equals re-querying the unmarked registry |
| App.ServiceList.constructor | dcman.py:135-138 | a new row-cursor table: an empty table with the cursor at the top |
| App.DockerComposeManagerApp.constructor | dcman.py:203-208 | an empty registry and an empty row-key map, shown by the new empty table (`Valid()`) |
| App.ServiceList.Clear | dcman.py:313 | the table has no rows and the cursor is at the top; row keys are never reused |
| App.ServiceList.AddRow | dcman.py:299 | `add_row` (here and at line 318): the row is appended under a key never used before; the cursor stays |
| App.ServiceList.MoveCursor | dcman.py:324 | the cursor is clamped to a row of the table |
| App.DockerComposeManagerApp.SelectedIndex | dcman.py:403-414 | on a consistent table a service is selected exactly when the registry is not empty, and it is the one the cursor row shows |
| App.DockerComposeManagerApp.Admit | dcman.py:423-431 | no selection, in progress exactly when the selected service is "loading", otherwise admitted |
| App.DockerComposeManagerApp.ToggleAction | dcman.py:482-498 | nothing for no selection or a "loading" service; "stop" exactly when the selected service is running; "start" for every other status |
| App.DockerComposeManagerApp.RebuildTable | dcman.py:304-326 | row i shows service i, the map sends index i to row i's fresh key, and the cursor returns to its row, clamped to the last row |
| App.DockerComposeManagerApp.AddServiceRow | dcman.py:296-301 | the service's row is appended under a fresh key, the map records that key for its index, and nothing else changes |
| App.DockerComposeManagerApp.AddServicesToTable | dcman.py:292-302 | rows of a batch appended at `start_index` extend the table so that it again shows the whole registry; the rows already there and their map entries are kept, the new rows' keys are fresh, and the cursor stays |
| App.DockerComposeManagerApp.AddProject | dcman.py:268-287 | the new services are appended after the old ones, in order, all "loading", and shown; an empty name list changes nothing |
| App.DockerComposeManagerApp.ApplyStatuses | dcman.py:357-358 | the batch loop yields exactly `ApplyResults` of the old registry |
| App.DockerComposeManagerApp.RefreshServices | dcman.py:339-361 | statuses are applied as `ApplyResults`, nothing else changes, the table is rebuilt and the cursor stays |
| App.DockerComposeManagerApp.RefreshProjectStatus | dcman.py:363-369 | the project's services, in registry order, get the fetched statuses |
| App.DockerComposeManagerApp.LoadProject | dcman.py:257-290 | an empty service list changes nothing; otherwise the services are appended "loading" and then every service of that project name is refreshed |
| App.DockerComposeManagerApp.MarkLoading | dcman.py:440-445 | exactly the targeted services become "loading"; everything else is unchanged |
| App.DockerComposeManagerApp.MarkAllLoading | dcman.py:384-387 | every service is "loading" with nothing else changed, and shown so |
| App.DockerComposeManagerApp.RefreshAll | dcman.py:380-392 | service i ends with the i-th fetched status and is otherwise unchanged; length and order are kept |
| App.DockerComposeManagerApp.BeginAction | dcman.py:421-448 | a rejected action (no selection, or "loading") changes nothing; an admitted start marks the whole project "loading", stop/restart only the target, other services unchanged |
| App.DockerComposeManagerApp.CompleteAction | dcman.py:450-468 | the result is `execute_action` on the selected service; then a start re-queries the whole project and stop/restart only the target |
| App.DockerComposeManagerApp.PerformAction | dcman.py:421-468 | rejected → no change and no command; admitted → the outcome of the command, and every target ends with its own fetched status |

## Left out

- Running `docker` through `subprocess.run`, with its 5 s and 60 s timeouts: external I/O. Each outcome is the parameter `run`, and a timeout is a `Raised` outcome.
- `parse_compose_file` (YAML loading): a foreign library. `LoadProject` takes its result (project name and service names) as parameters, with the compose file; the project path is derived as the compose file's parent, but that the project name is the parent directory's name is not modelled.
- The directory walk of `Path.rglob`: file system I/O. Its matches are the parameter `rglob`; only the `.devcontainer` filter and the order of the two patterns are modelled.
- `load_services_async`: it only sequences `find_compose_files` and `load_project_async` and sets status-bar text, and both of those are modelled.
- Concurrency (`asyncio`, `run_in_executor`, `gather`, `run_worker`): each operation runs as one sequential step, with the gathered statuses as the parameter `results`. Interleavings of concurrent operations are not modelled.
- Status-bar messages, Textual widgets, CSS, key bindings and button handlers, `main` and argument parsing: presentation and CLI plumbing.
- The table's rendering and `scroll_y`: presentation. The table is modelled only by its rows, cursor row and row keys, and row keys are modelled as fresh naturals.
- `refresh_table`: a deprecated synchronous variant of `refresh_all_async`, never called.
- `get_service_row_key`: unused by the rest of the code. The map it reads is modelled, and `RebuildTable` states what it holds.
- Services are dataclass objects shared by reference in the code. Here they are values addressed by their index in the registry. Every list that the code refreshes is drawn from `self.services`, so this index is the object's identity.
