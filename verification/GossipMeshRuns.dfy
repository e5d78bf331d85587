/** The inbound bound over whole runs. */
module GossipMeshRuns {
  import opened Common
  import opened GossipState
  import opened GossipSteps
  import opened GossipInvariants
  import opened GossipMeshBounds

  lemma StepKeepsBounded(c: Config, s: Node, e: Event)
    requires c.Usable() && c.Ordered() && Bounded(c, s) && Linked(s) && Admissible(c, s, e)
    ensures Bounded(c, Apply(c, s, e))
  {
    hide BeatTopic, BeatOk;
    assert Allocated(s) by {
      forall h, r | h in s.topics && r in s.topics[h].mesh ensures r in s.objects { assert TopicOk(s, h); }
    }
    match e
    case Subscription(r, h, on, good) => SubscriptionBound(c, s, r, h, on, good);
    case GraftIn(r, h, good) => GraftInBound(c, s, r, h, good);
    case Open(h, po, kept, more) => OpenBound(c, s, h, po, kept, more);
    case Heartbeat(drop, beats) => HeartbeatStepBound(c, s, drop, beats);
    case _ => OtherStepBound(c, s, e);
  }

  /** Main result: the inbound side of every subscribed mesh stays bounded over every run. */
  lemma {:induction false} EveryRunBounded(c: Config, states: seq<Node>, events: seq<Event>, i: nat)
    requires c.Usable() && c.Ordered() && IsRun(c, states, events) && i < |states|
    ensures forall h :: h in states[i].topics && !states[i].topics[h].publishOnly ==>
              |Inbound(states[i].objects, states[i].topics[h].mesh)| <= c.meshHigh + Max(1, c.oppPeers)
  {
    if i > 0 {
      EveryRunBounded(c, states, events, i - 1);
      EveryRunLinked(c, states, events, i - 1);
      StepKeepsBounded(c, states[i - 1], events[i - 1]);
    }
  }
}
