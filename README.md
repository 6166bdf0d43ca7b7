# Portainer stack automation: a Dafny model of its decision rules

`scripts/portainer-automation.py` is a command-line client for the Portainer
REST API. It lists, deploys, updates and deletes Docker Swarm stacks. Most of
it is HTTP plumbing. This project models the decision rules inside it, with
every HTTP reply passed in as a plain value:

- the base URL the client stores (`base_url.rstrip('/')`) and the URLs built from it;
- the client's JWT token, written by `authenticate`;
- endpoint selection (`get_endpoint_id`): by exact name when a non-empty name is
  given, otherwise the first endpoint of Type 1 (Docker) or 2 (Swarm);
- parsing `--env KEY=VALUE` arguments: split at the first `=`, drop entries with no `=`;
- deploy-or-update: update the first stack with the same name on the chosen
  endpoint, otherwise create a new one; the request bodies, with absent env
  lists sent as `[]` and a missing swarm `ID` sent as `""`;
- delete: the first stack with that name on any endpoint, after confirmation;
- the health rule of `validate_deployment`, and the polling loop over it;
- the Type and Status labels shown by `list`, and the exit status of `deploy` and `delete`.

Modules: `Wrappers` (Option, Result), `Search` (the first-match scan every
lookup uses), `Client`, `Env`, `Stacks`, `Health`, `Commands`.

Stateful code is written imperatively. `PortainerClient` is a class whose
`Authenticate` method writes the `token` field. `Env.ParseEnv` is the
appending loop of `cmd_deploy`. `Health.CheckServices` is the loop that clears
the `all_healthy` flag. `ParseEnv` and `CheckServices` are proved against
specification functions: `ParsedEnv` and `ServiceHealthy` respectively. The searches and
mappings are functions.

The timeout loop of `validate_deployment` is modelled as a finite sequence of
poll results, one per poll that fits in the timeout. `ValidateDeployment`
succeeds iff some poll finds the stack healthy. Task and replica counts are
`nat`, as Docker reports them as unsigned. On `nat` the code's test
`running == 0` and the stated rule `running > 0` agree, and `CheckServices`
proves this.

`Stacks.DeleteMayPickStackOnOtherEndpoint` records one behaviour of the
script. `delete` matches on name only, so with two stacks of one name on
endpoints 1 and 2 it picks the one on endpoint 1. It then sends the DELETE
with the selected endpoint's Id, which may be 2. This is the behaviour as
written, and the model keeps it.

## Model

| member | source | states |
|---|---|---|
| Client.StripTrailingSlashes | scripts/portainer-automation.py:50 | the stored URL is a prefix of the input, does not end in '/', and only slashes were removed |
| Client.StripTrailingSlashesUnique | scripts/portainer-automation.py:50 | any split into a prefix not ending in '/' plus a tail of slashes is the stripped URL, so the result is fully determined |
| Client.StripIgnoresTrailingSlashes | scripts/portainer-automation.py:50 | adding any number of trailing slashes to the configured URL stores the same base URL; stripping is idempotent |
| Client.ApiUrl | scripts/portainer-automation.py:67 | a request URL is the base URL followed by "/api/" and the route |
| Client.ApiUrlHasSingleSlashAtJoin | scripts/portainer-automation.py:67 | for any base URL satisfying the client's invariant (not ending in '/', which the constructor establishes by stripping), the seam before "/api/" holds exactly one slash |
| Client.PortainerClient.constructor | scripts/portainer-automation.py:42-54 | a new client stores the stripped URL, the SSL flag, and no token |
| Client.PortainerClient.Authenticate | scripts/portainer-automation.py:56-79 | succeeds iff the reply was decoded; then stores its 'jwt' (absent if missing); on failure the token is unchanged |
| Client.SelectEndpoint | scripts/portainer-automation.py:103-116 | with a non-empty name: succeeds iff an endpoint has that name, giving the Id of the first such, else "not found"; without one: succeeds iff an endpoint has Type 1 or 2, giving the first such Id, else "no valid endpoint" |
| Client.NamedSelectionHasNoFallback | scripts/portainer-automation.py:105-109 | a name that matches nothing fails, even when Docker or Swarm endpoints exist |
| Client.EmptyNameMeansNoName | scripts/portainer-automation.py:105 | an empty name selects exactly as an absent one |
| Client.SwarmId | scripts/portainer-automation.py:131 | a swarm reply without 'ID' gives "" |
| Search.FirstMatch | scripts/portainer-automation.py:106-108 | returns the index of the first element passing the test, or None iff no element passes |
| Env.SplitAtFirstEquals | scripts/portainer-automation.py:358-359 | None iff the entry has no '='; otherwise the key has no '=' and key + "=" + value is the entry |
| Env.SplitAtFirstEqualsUnique | scripts/portainer-automation.py:359 | any key without '=' that recombines into the entry is the split returned, so the value keeps every later '=' |
| Env.ParsedEnv | scripts/portainer-automation.py:355-360 | never more records than arguments; no key holds '=' |
| Env.ParsedEnvAppend | scripts/portainer-automation.py:355-360 | parsing a concatenation is the concatenation of the parses, so records keep argument order |
| Env.ParsedEnvSingle | scripts/portainer-automation.py:358-360 | one argument yields its split if it holds '=', and nothing otherwise |
| Env.ParsedEnvSound | scripts/portainer-automation.py:355-360 | every record recombines into some argument; every argument holding '=' is represented |
| Env.ParsedEnvKeepsAll | scripts/portainer-automation.py:355-360 | when every argument holds '=', there is one record per argument and record i recombines into argument i |
| Env.ParsedEnvDropsAll | scripts/portainer-automation.py:357-358 | arguments without '=' yield no records |
| Env.ParseEnv | scripts/portainer-automation.py:355-360 | the loop computes ParsedEnv of the arguments, and the empty list when `--env` was never given |
| Stacks.ChooseDeployAction | scripts/portainer-automation.py:371-375 | update iff some stack has the name and the chosen endpoint's Id, with the Id of the first such stack; otherwise create |
| Stacks.FindStackToDelete | scripts/portainer-automation.py:420-421 | the first stack with the name, whatever its endpoint; none iff no stack has the name |
| Stacks.DeployUpdateImpliesDeleteFinds | scripts/portainer-automation.py:420-421 | whenever deploy would update a stack, delete finds one of that name |
| Stacks.DeleteIgnoresEndpoint | scripts/portainer-automation.py:420-423 | lists that differ only in endpoint (or other non-name fields) lead delete to the same stack Id |
| Stacks.DeleteMayPickStackOnOtherEndpoint | scripts/portainer-automation.py:420-423 | an instance where deploy updates the stack on endpoint 2 while delete picks the same-named stack on endpoint 1 |
| Stacks.StackTypeLabel | scripts/portainer-automation.py:336 | "Swarm" iff Type is 1, else "Compose" |
| Stacks.StatusLabel | scripts/portainer-automation.py:337 | "Active" iff Status is 1, else "Inactive" |
| Stacks.EnvPayload | scripts/portainer-automation.py:188 | an absent env list is sent as [] and a present one as it is |
| Health.RunningTasks | scripts/portainer-automation.py:299 | a missing ServiceStatus or RunningTasks reads as 0 running tasks |
| Health.DesiredReplicas | scripts/portainer-automation.py:298 | a replicated mode without Replicas wants 0 replicas |
| Health.CheckServices | scripts/portainer-automation.py:289-313 | the flag loop ends true iff every service is healthy (replicated: running >= desired; otherwise running > 0) |
| Health.PollOnce | scripts/portainer-automation.py:282-316 | a poll waits iff there are no services, and reports success iff the stack is healthy |
| Health.ValidateDeployment | scripts/portainer-automation.py:279-321 | validation succeeds iff some poll within the timeout finds the stack healthy (ValidationSucceeds) |
| Health.StackHealthyAppend | scripts/portainer-automation.py:289-314 | a combined service list is healthy iff both non-empty parts are |
| Commands.PlanDeploy | scripts/portainer-automation.py:344-395 | a missing compose file stops first, then an endpoint error; it fails only in those two cases, and otherwise the request targets the selected endpoint, is an update iff a same-named stack exists there, and carries the parsed env list, the compose text, prune = true on update, and the swarm Id on create |
| Commands.DeployExitCode | scripts/portainer-automation.py:397-412 | exit 0 iff a request was planned and accepted, and validation was skipped or some poll found the stack healthy (the condition ValidateDeployment decides); 1 otherwise |
| Commands.ConfirmsDelete | scripts/portainer-automation.py:422 | the answer confirms iff it is one character whose lower-case form is 'y' |
| Commands.PlanDelete | scripts/portainer-automation.py:415-428 | an endpoint error comes first and carries the error selection raised; then not found iff no stack has the name; the DELETE happens iff a stack has the name and `--yes` was given or the answer is y/Y, and targets the first such stack with the selected endpoint |
| Commands.DeleteExitCode | scripts/portainer-automation.py:415-431 | exit 1 iff the endpoint lookup fails, the stack is not found, or the DELETE request fails; cancelling exits 0 |
| Commands.ListRows | scripts/portainer-automation.py:335-338 | one row per stack, in order, with its Id, name and endpoint, and the labels StackTypeLabel and StatusLabel give ("Swarm"/"Compose", "Active"/"Inactive") |

## Left out

- HTTP traffic through `requests.Session`: `get_endpoints`, `get_swarm_id`, `list_stacks`, `get_stack`, `deploy_stack`, `update_stack`, `delete_stack`, `get_stack_services`. Their replies are inputs; success of a request is a boolean.
- The `Authorization` session header and the SSL session setting. They have no logic of their own beyond what `PortainerClient` stores.
- Wall-clock time in `validate_deployment` (`time.time`, `time.sleep`, the 120-second timeout). The polls that fit in the timeout are given as a sequence.
- Console output and table formatting, argparse setup in `main`, and the dispatch on the command name.
- Reading the compose file from disk. Its content is an input, and None stands for a missing file.
- The interactive `input()` prompt. The answer is an input.
- Printing HTTP error bodies.
- JSON values of unexpected types: a boolean `Type` (Python's `True == 1`), floats, or a missing 'Name'/'Id' key (a KeyError). The model types these fields as integers and strings.
- Health.ServiceHealthy: task and replica counts are unsigned. A negative RunningTasks, where the code's `running == 0` and `running > 0` would differ, is not modelled.
- The repository's shell scripts and compose files. They are sequences of Docker CLI calls and are not part of this model.
