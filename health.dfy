/** The health rule of `validate_deployment`: which services of a stack count
    as running, and when the whole stack counts as deployed. */
module Health {
  import opened Wrappers

  /** `Spec.Mode`: a mode with a 'Replicated' key, whose 'Replicas' may be
      absent, or any other mode (global services, jobs). */
  datatype ServiceMode = Replicated(replicas: Option<nat>) | Global

  /** `ServiceStatus`, whose 'RunningTasks' may be absent. */
  datatype ServiceStatus = ServiceStatus(runningTasks: Option<nat>)

  /** A service of the stack; an absent 'Mode' or 'ServiceStatus' reads as an
      empty dictionary. */
  datatype Service = Service(name: string, mode: Option<ServiceMode>, serviceStatus: Option<ServiceStatus>)

  /** `svc.get('ServiceStatus', {}).get('RunningTasks', 0)` */
  function RunningTasks(svc: Service): (n: nat)
    ensures svc.serviceStatus.None? ==> n == 0
    ensures svc.serviceStatus.Some? && svc.serviceStatus.value.runningTasks.None? ==> n == 0
    ensures svc.serviceStatus.Some? && svc.serviceStatus.value.runningTasks.Some? ==>
      n == svc.serviceStatus.value.runningTasks.value
  {
    match svc.serviceStatus
    case None => 0
    case Some(status) => status.runningTasks.GetOr(0)
  }

  predicate IsReplicated(svc: Service) {
    svc.mode.Some? && svc.mode.value.Replicated?
  }

  /** `mode['Replicated'].get('Replicas', 0)` */
  function DesiredReplicas(svc: Service): (n: nat)
    requires IsReplicated(svc)
    ensures svc.mode.value.replicas.None? ==> n == 0
    ensures svc.mode.value.replicas.Some? ==> n == svc.mode.value.replicas.value
  {
    svc.mode.value.replicas.GetOr(0)
  }

  /** A replicated service is healthy when at least the desired number of
      tasks run; any other service when at least one task runs. */
  predicate ServiceHealthy(svc: Service) {
    if IsReplicated(svc) then RunningTasks(svc) >= DesiredReplicas(svc)
    else RunningTasks(svc) > 0
  }

  /** A stack is healthy when it has services and every one is healthy. */
  predicate StackHealthy(services: seq<Service>) {
    |services| > 0 && forall i :: 0 <= i < |services| ==> ServiceHealthy(services[i])
  }

  /** Some poll made within the timeout finds the stack healthy. */
  predicate ValidationSucceeds(polls: seq<seq<Service>>) {
    exists i :: 0 <= i < |polls| && StackHealthy(polls[i])
  }

  /** The loop over services that clears `all_healthy`. */
  method CheckServices(services: seq<Service>) returns (allHealthy: bool)
    ensures allHealthy <==> forall i :: 0 <= i < |services| ==> ServiceHealthy(services[i])
  {
    allHealthy := true;
    var k := 0;
    while k < |services|
      invariant 0 <= k <= |services|
      invariant allHealthy <==> forall i :: 0 <= i < k ==> ServiceHealthy(services[i])
    {
      var svc := services[k];
      var mode := svc.mode.GetOr(Global);
      if mode.Replicated? {
        var desired := mode.replicas.GetOr(0);
        var running := RunningTasks(svc);
        if running < desired {
          allHealthy := false;
        }
      } else {
        var running := RunningTasks(svc);
        if running == 0 {
          allHealthy := false;
        }
      }
      k := k + 1;
    }
  }

  /** What one poll of the stack's services finds. */
  datatype PollResult = NoServicesYet | NotYetHealthy | AllHealthy

  /** One pass of the polling loop body. */
  method PollOnce(services: seq<Service>) returns (p: PollResult)
    ensures p == NoServicesYet <==> |services| == 0
    ensures p == AllHealthy <==> StackHealthy(services)
  {
    if |services| == 0 {
      return NoServicesYet;
    }
    var allHealthy := CheckServices(services);
    p := if allHealthy then AllHealthy else NotYetHealthy;
  }

  /** `validate_deployment` over the service lists returned by the polls that
      fit in its timeout: true at the first healthy poll, false when none is. */
  method ValidateDeployment(polls: seq<seq<Service>>) returns (ok: bool)
    ensures ok <==> ValidationSucceeds(polls)
  {
    var k := 0;
    while k < |polls|
      invariant 0 <= k <= |polls|
      invariant forall i :: 0 <= i < k ==> !StackHealthy(polls[i])
    {
      var p := PollOnce(polls[k]);
      if p == AllHealthy {
        return true;
      }
      k := k + 1;
    }
    return false;
  }

  /** The health of a combined list of services is the health of both parts. */
  lemma {:induction false} StackHealthyAppend(a: seq<Service>, b: seq<Service>)
    requires |a| > 0 && |b| > 0
    ensures StackHealthy(a + b) <==> StackHealthy(a) && StackHealthy(b)
  {
    assert forall i :: 0 <= i < |a| ==> (a + b)[i] == a[i];
    assert forall i :: 0 <= i < |b| ==> (a + b)[|a| + i] == b[i];
  }
}
