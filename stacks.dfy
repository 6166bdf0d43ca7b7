/** Stacks as GET /api/stacks lists them: the searches that `cmd_deploy` and
    `cmd_delete` run over that list, the labels `cmd_list` shows, and the
    request bodies for creating and updating a stack. */
module Stacks {
  import opened Wrappers
  import opened Search
  import opened Env

  /** A stack entry: 'Id' and 'Name' are read with `stack[...]`; 'EndpointId',
      'Type' and 'Status' with `stack.get(...)` and so may be absent. */
  datatype Stack = Stack(
    id: int,
    name: string,
    endpointId: Option<int>,
    stackType: Option<int>,
    status: Option<int>)

  // ---------------------------------------------------------------------
  // Deploy: update the stack of that name on the chosen endpoint, or create
  // ---------------------------------------------------------------------

  function OnEndpointNamed(stackName: string, endpointId: int): Stack -> bool {
    (s: Stack) => s.name == stackName && s.endpointId == Some(endpointId)
  }

  datatype DeployAction = UpdateExisting(stackId: int) | CreateNew

  /** Update iff some stack has this name on this endpoint (an entry without
      'EndpointId' never matches); the stack updated is the first such. */
  function ChooseDeployAction(stacks: seq<Stack>, stackName: string, endpointId: int): (a: DeployAction)
    ensures a.UpdateExisting? <==>
      exists i :: 0 <= i < |stacks| && stacks[i].name == stackName && stacks[i].endpointId == Some(endpointId)
    ensures a.UpdateExisting? ==>
      exists i :: IsFirstMatch(stacks, OnEndpointNamed(stackName, endpointId), i) && a.stackId == stacks[i].id
  {
    match FirstMatch(stacks, OnEndpointNamed(stackName, endpointId))
    case Some(i) => UpdateExisting(stacks[i].id)
    case None => CreateNew
  }

  // ---------------------------------------------------------------------
  // Delete: the first stack of that name, on any endpoint
  // ---------------------------------------------------------------------

  function Named(stackName: string): Stack -> bool {
    (s: Stack) => s.name == stackName
  }

  /** The stack `cmd_delete` acts on: the first with the name, whatever its
      endpoint; None (reported as not found) only when no stack has the name. */
  function FindStackToDelete(stacks: seq<Stack>, stackName: string): (r: Option<Stack>)
    ensures r.None? <==> forall i :: 0 <= i < |stacks| ==> stacks[i].name != stackName
    ensures r.Some? ==> exists i :: IsFirstMatch(stacks, Named(stackName), i) && r.value == stacks[i]
  {
    match FirstMatch(stacks, Named(stackName))
    case Some(i) => Some(stacks[i])
    case None => None
  }

  /** Whenever deploy would update a stack, delete finds a stack of that name. */
  lemma DeployUpdateImpliesDeleteFinds(stacks: seq<Stack>, stackName: string, endpointId: int)
    requires ChooseDeployAction(stacks, stackName, endpointId).UpdateExisting?
    ensures FindStackToDelete(stacks, stackName).Some?
  {
    var i :| 0 <= i < |stacks| && stacks[i].name == stackName && stacks[i].endpointId == Some(endpointId);
    assert Named(stackName)(stacks[i]);
  }

  /** The delete search ignores the endpoint: two lists that agree on every
      Id and name select the same stack Id. */
  lemma DeleteIgnoresEndpoint(stacks: seq<Stack>, others: seq<Stack>, stackName: string)
    requires |stacks| == |others|
    requires forall i :: 0 <= i < |stacks| ==> stacks[i].name == others[i].name && stacks[i].id == others[i].id
    ensures FindStackToDelete(stacks, stackName).Some? <==> FindStackToDelete(others, stackName).Some?
    ensures FindStackToDelete(stacks, stackName).Some? ==>
      FindStackToDelete(stacks, stackName).value.id == FindStackToDelete(others, stackName).value.id
  {
  }

  /** With one stack of the name on endpoint 1 and one on endpoint 2, a deploy
      to endpoint 2 updates the second, while a delete aimed at endpoint 2
      picks the first, which lives on endpoint 1. */
  lemma DeleteMayPickStackOnOtherEndpoint()
    ensures var stacks := [Stack(10, "app", Some(1), None, None), Stack(20, "app", Some(2), None, None)];
      ChooseDeployAction(stacks, "app", 2) == UpdateExisting(20) &&
      FindStackToDelete(stacks, "app") == Some(stacks[0]) &&
      stacks[0].endpointId != Some(2)
  {
    var stacks := [Stack(10, "app", Some(1), None, None), Stack(20, "app", Some(2), None, None)];
    assert !OnEndpointNamed("app", 2)(stacks[0]);
    assert IsFirstMatch(stacks, OnEndpointNamed("app", 2), 1);
    FirstMatchIsUnique(stacks, OnEndpointNamed("app", 2), 1);
  }

  // ---------------------------------------------------------------------
  // Labels shown by `cmd_list`
  // ---------------------------------------------------------------------

  function StackTypeLabel(stackType: Option<int>): (text: string)
    ensures text == "Swarm" <==> stackType == Some(1)
    ensures text == "Swarm" || text == "Compose"
  {
    if stackType == Some(1) then "Swarm" else "Compose"
  }

  function StatusLabel(status: Option<int>): (text: string)
    ensures text == "Active" <==> status == Some(1)
    ensures text == "Active" || text == "Inactive"
  {
    if status == Some(1) then "Active" else "Inactive"
  }

  // ---------------------------------------------------------------------
  // Request bodies
  // ---------------------------------------------------------------------

  /** `env_vars or []`: an absent (or empty) list is sent as an empty one. */
  function EnvPayload(envVars: Option<seq<EnvVar>>): (env: seq<EnvVar>)
    ensures envVars.None? ==> env == []
    ensures envVars.Some? ==> env == envVars.value
  {
    envVars.GetOr([])
  }

  datatype CreatePayload = CreatePayload(name: string, stackFileContent: string, swarmId: string, env: seq<EnvVar>)
  datatype UpdatePayload = UpdatePayload(stackFileContent: string, env: seq<EnvVar>, prune: bool)

  /** POST /api/stacks/create/swarm/string?endpointId=..., or
      PUT /api/stacks/{stackId}?endpointId=... */
  datatype StackRequest =
    | CreateStack(endpointId: int, create: CreatePayload)
    | UpdateStack(stackId: int, endpointId: int, update: UpdatePayload)
}
