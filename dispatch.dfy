/**
 The eviction dispatcher: what the manager does with one eviction signal it
 receives. The condition manager's victim choice and the cluster client are
 collaborators outside this model; the choice is a function of the signal,
 and the client calls are returned in order.
 */
module Dispatch {
  import opened Types

  /** A pod, known to the dispatcher only through its name. */
  datatype Pod = Pod(name: string)

  /** The result of ChooseOnePodToEvict: the chosen pod, whether to evict it
      outright or only label it, the priority for the label, and whether
      choosing failed. */
  datatype Choice = Choice(pod: Pod, isEvict: bool, priority: int, err: bool)

  datatype LabelAction = Add

  /** A call on the cluster client made by the dispatcher. */
  datatype ClientCall = EvictPod(pod: Pod) | LabelPod(pod: Pod, priority: int, action: LabelAction)

  /** Handles one received signal: asks for a victim for the signal's kind
      and, unless that fails, either evicts the victim or labels it with the
      chosen priority. Exactly one attempt, no retry. */
  method EvictOnePod(evictType: Signal, chooseOnePodToEvict: Signal -> Choice)
    returns (calls: seq<ClientCall>)
    ensures |calls| <= 1
    ensures calls == [] <==> chooseOnePodToEvict(evictType).err
    ensures forall c :: c in calls ==> c.pod == chooseOnePodToEvict(evictType).pod
    ensures forall c :: c in calls ==> (c.EvictPod? <==> chooseOnePodToEvict(evictType).isEvict)
    ensures forall c :: c in calls && c.LabelPod? ==>
      c.priority == chooseOnePodToEvict(evictType).priority && c.action == Add
  {
    var choice := chooseOnePodToEvict(evictType);
    if choice.err {
      return [];
    }
    if choice.isEvict {
      calls := [EvictPod(choice.pod)];
    } else {
      calls := [LabelPod(choice.pod, choice.priority, Add)];
    }
  }
}
