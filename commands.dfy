/** The decisions of the `deploy`, `delete` and `list` commands, with every
    HTTP reply, the compose file and the operator's answer passed in as values. */
module Commands {
  import opened Wrappers
  import opened Client
  import opened Env
  import opened Stacks
  import opened Health

  // ---------------------------------------------------------------------
  // deploy
  // ---------------------------------------------------------------------

  /** The arguments of `deploy`; `composeContent` is the compose file's text,
      None when the file does not exist. */
  datatype DeployArgs = DeployArgs(
    stackName: string,
    composeContent: Option<string>,
    env: Option<seq<string>>,
    endpoint: Option<string>,
    noValidate: bool)

  datatype DeployError = ComposeFileNotFound | EndpointError(error: SelectError)

  /** The request `cmd_deploy` sends, or why it stops first. `swarmReplyId` is
      the 'ID' of the swarm query, made only when a stack is created. */
  function PlanDeploy(args: DeployArgs, endpoints: seq<Endpoint>, stacks: seq<Stack>, swarmReplyId: Option<string>): (r: Result<StackRequest, DeployError>)
    ensures r.Failure? <==> args.composeContent.None? || SelectEndpoint(endpoints, args.endpoint).Failure?
    ensures args.composeContent.None? ==> r == Failure(ComposeFileNotFound)
    ensures args.composeContent.Some? && SelectEndpoint(endpoints, args.endpoint).Failure? ==>
      r == Failure(EndpointError(SelectEndpoint(endpoints, args.endpoint).error))
    ensures r.Success? ==>
      args.composeContent.Some? && SelectEndpoint(endpoints, args.endpoint) == Success(r.value.endpointId)
    ensures r.Success? ==>
      (r.value.UpdateStack? <==>
        exists i :: 0 <= i < |stacks| && stacks[i].name == args.stackName && stacks[i].endpointId == Some(r.value.endpointId))
    ensures r.Success? && r.value.UpdateStack? ==>
      ChooseDeployAction(stacks, args.stackName, r.value.endpointId) == UpdateExisting(r.value.stackId) &&
      r.value.update == UpdatePayload(args.composeContent.value, EnvArgs(args.env), true)
    ensures r.Success? && r.value.CreateStack? ==>
      r.value.create == CreatePayload(args.stackName, args.composeContent.value, SwarmId(swarmReplyId), EnvArgs(args.env))
  {
    match args.composeContent
    case None => Failure(ComposeFileNotFound)
    case Some(content) =>
      var envVars := EnvArgs(args.env);
      match SelectEndpoint(endpoints, args.endpoint)
      case Failure(e) => Failure(EndpointError(e))
      case Success(endpointId) =>
        match ChooseDeployAction(stacks, args.stackName, endpointId)
        case UpdateExisting(stackId) =>
          Success(UpdateStack(stackId, endpointId, UpdatePayload(content, EnvPayload(Some(envVars)), true)))
        case CreateNew =>
          Success(CreateStack(endpointId, CreatePayload(args.stackName, content, SwarmId(swarmReplyId), EnvPayload(Some(envVars)))))
  }

  /** Exit status of `deploy`: 0 only when a request was planned, the server
      accepted it, and validation was skipped or one of the `polls` made
      within the timeout found the stack healthy. */
  function DeployExitCode(plan: Result<StackRequest, DeployError>, requestSucceeded: bool, noValidate: bool, polls: seq<seq<Service>>): (code: int)
    ensures code == 0 || code == 1
    ensures code == 0 <==> plan.Success? && requestSucceeded && (noValidate || ValidationSucceeds(polls))
  {
    if plan.Failure? || !requestSucceeded then 1
    else if !noValidate && !ValidationSucceeds(polls) then 1
    else 0
  }

  // ---------------------------------------------------------------------
  // delete
  // ---------------------------------------------------------------------

  /** The lower-case form of an ASCII letter; every other character is kept. */
  function LowerAscii(c: char): char {
    if 'A' <= c <= 'Z' then (c as int + 32) as char else c
  }

  /** `answer.lower() == 'y'`: only "y" and "Y" lower-case to "y". */
  predicate ConfirmsDelete(answer: string): (ok: bool)
    ensures ok <==> |answer| == 1 && LowerAscii(answer[0]) == 'y'
  {
    answer == "y" || answer == "Y"
  }

  datatype DeleteOutcome =
    | EndpointFailed(error: SelectError)
    | NotFound
    | Cancelled
    | DeleteStack(stackId: int, endpointId: int)

  /** What `cmd_delete` does. The endpoint is selected before the search, and
      its failure is not caught. `answer` is the operator's reply, read only
      when `yes` is false. */
  function PlanDelete(stackName: string, endpointName: Option<string>, endpoints: seq<Endpoint>, stacks: seq<Stack>, yes: bool, answer: string): (r: DeleteOutcome)
    ensures r.EndpointFailed? <==> SelectEndpoint(endpoints, endpointName).Failure?
    ensures r.EndpointFailed? ==> r.error == SelectEndpoint(endpoints, endpointName).error
    ensures r.NotFound? <==>
      SelectEndpoint(endpoints, endpointName).Success? &&
      forall i :: 0 <= i < |stacks| ==> stacks[i].name != stackName
    ensures r.Cancelled? ==> !yes && !ConfirmsDelete(answer)
    ensures r.DeleteStack? <==>
      SelectEndpoint(endpoints, endpointName).Success? &&
      (exists i :: 0 <= i < |stacks| && stacks[i].name == stackName) &&
      (yes || ConfirmsDelete(answer))
    ensures r.DeleteStack? ==>
      r.endpointId == SelectEndpoint(endpoints, endpointName).value &&
      exists i :: 0 <= i < |stacks| && stacks[i].name == stackName && r.stackId == stacks[i].id &&
        forall j :: 0 <= j < i ==> stacks[j].name != stackName
  {
    match SelectEndpoint(endpoints, endpointName)
    case Failure(e) => EndpointFailed(e)
    case Success(endpointId) =>
      match FindStackToDelete(stacks, stackName)
      case None => NotFound
      case Some(stack) =>
        if yes || ConfirmsDelete(answer) then DeleteStack(stack.id, endpointId) else Cancelled
  }

  /** Exit status of `delete`: 1 when the stack is not found or an uncaught
      error (endpoint selection, the DELETE request) ends the script. */
  function DeleteExitCode(outcome: DeleteOutcome, requestSucceeded: bool): (code: int)
    ensures code == 0 || code == 1
    ensures code == 1 <==> outcome.EndpointFailed? || outcome.NotFound? || (outcome.DeleteStack? && !requestSucceeded)
  {
    match outcome
    case EndpointFailed(_) => 1
    case NotFound => 1
    case Cancelled => 0
    case DeleteStack(_, _) => if requestSucceeded then 0 else 1
  }

  // ---------------------------------------------------------------------
  // list
  // ---------------------------------------------------------------------

  datatype ListRow = ListRow(id: int, name: string, typeLabel: string, statusLabel: string, endpointId: Option<int>)

  /** The table `cmd_list` prints, one row per stack in the order listed. */
  function ListRows(stacks: seq<Stack>): (rows: seq<ListRow>)
    ensures |rows| == |stacks|
    ensures forall i :: 0 <= i < |rows| ==>
      rows[i].id == stacks[i].id && rows[i].name == stacks[i].name && rows[i].endpointId == stacks[i].endpointId &&
      rows[i].typeLabel == StackTypeLabel(stacks[i].stackType) &&
      rows[i].statusLabel == StatusLabel(stacks[i].status)
  {
    seq(|stacks|, i requires 0 <= i < |stacks| =>
      ListRow(stacks[i].id, stacks[i].name, StackTypeLabel(stacks[i].stackType), StatusLabel(stacks[i].status), stacks[i].endpointId))
  }
}
