/** The retry loop of the group client (client/src/group_client.rs). Servers, connections and the
    clock are an arbitrary environment; the loop ends because every retry either learns a newer
    epoch, learns a newer term, or uses up one of the picks that are left. */
module GroupClient {
  import opened Options

  datatype Replica = Replica(id: nat, nodeId: nat)

  /** A descriptor sent back with EpochNotMatch; `executable` is the verdict of `is_executable`
      on the request at hand. */
  datatype GroupDesc = GroupDesc(epoch: nat, replicas: seq<Replica>, executable: bool)

  datatype Reply =
    | Success
    | GroupNotFound
    | NotLeader(term: nat, leader: Option<Replica>)
    | Connect
    | Transport
    | EpochNotMatch(desc: GroupDesc)
    | Other

  /** Reply to the n-th RPC, outcome of the n-th attempt to connect, deadline after the n-th RPC. */
  datatype Env = Env(reply: nat -> Reply, connects: nat -> bool, expired: nat -> bool)

  datatype InvokeOpt = InvokeOpt(hasRequest: bool, readOnly: bool, accurateEpoch: bool, ignoreTransportError: bool)

  datatype Outcome = Done | NotAccessable | DeadlineExceeded | Failed | Panicked

  /** One RPC: the node it was sent to, the epoch and term the client knew (-1 for no term), which
      attempt to connect it came from, how many replicas were known, and whether its reply made the
      client's epoch or term grow. */
  datatype Rpc = Rpc(nodeId: nat, epoch: nat, term: int, attempt: nat, known: nat, grew: bool)

  /** A reply that names a leader of a newer term. */
  predicate NewLeader(reply: Reply, term: int) {
    reply.NotLeader? && reply.leader.Some? && term < reply.term
  }

  /** A reply with a newer descriptor, under which the request may be sent again. */
  predicate NewEpoch(reply: Reply, epoch: nat, opt: InvokeOpt) {
    reply.EpochNotMatch? && epoch < reply.desc.epoch && !opt.accurateEpoch && (opt.hasRequest ==> reply.desc.executable)
  }

  /** What the client is left with after the reply to an RPC it learnt from: the leader it was told of, or
      the node it asked with the new epoch, is where the next request goes first. */
  ghost predicate Standing(reply: Reply, rpc: Rpc, opt: InvokeOpt, access: Option<nat>, epoch: nat, term: int) {
    && (NewLeader(reply, rpc.term) ==> access == Some(reply.leader.value.nodeId) && term == reply.term && epoch == rpc.epoch)
    && (NewEpoch(reply, rpc.epoch, opt) ==> access == Some(rpc.nodeId) && epoch == reply.desc.epoch && term == rpc.term)
    && (rpc.grew <==> NewLeader(reply, rpc.term) || NewEpoch(reply, rpc.epoch, opt))
  }

  /** Every RPC but the last is followed by one that acts on its reply: to the leader that was named, or
      to the same node with the new epoch, whenever that node connects. */
  ghost predicate Heeds(trace: seq<Rpc>, env: Env, opt: InvokeOpt) {
    forall k: nat :: k + 1 < |trace| ==> HeedsAt(trace[k], trace[k + 1], env.reply(k), env, opt)
  }

  ghost predicate HeedsAt(rpc: Rpc, next: Rpc, reply: Reply, env: Env, opt: InvokeOpt) {
    && rpc.attempt < next.attempt && env.connects(next.attempt)
    && (NewLeader(reply, rpc.term) ==>
          next.term == reply.term && (env.connects(rpc.attempt + 1) ==> next.nodeId == reply.leader.value.nodeId))
    && (NewEpoch(reply, rpc.epoch, opt) ==>
          next.epoch == reply.desc.epoch && (env.connects(rpc.attempt + 1) ==> next.nodeId == rpc.nodeId))
    && (rpc.grew <==> NewLeader(reply, rpc.term) || NewEpoch(reply, rpc.epoch, opt))
  }

  lemma HeedsExtends(trace: seq<Rpc>, next: Rpc, env: Env, opt: InvokeOpt, access: Option<nat>)
    requires Heeds(trace, env, opt)
    requires trace != [] ==>
               var rpc, n := trace[|trace| - 1], |trace| - 1;
               Standing(env.reply(n), rpc, opt, access, next.epoch, next.term) && rpc.attempt < next.attempt
    requires trace != [] && access.Some? && env.connects(trace[|trace| - 1].attempt + 1) ==> next.nodeId == access.value
    requires env.connects(next.attempt)
    ensures Heeds(trace + [next], env, opt)
  {
    var t := trace + [next];
    forall k: nat | k + 1 < |t| ensures HeedsAt(t[k], t[k + 1], env.reply(k), env, opt) {
      assert t[k] == trace[k];
      if k + 1 < |trace| { assert HeedsAt(trace[k], trace[k + 1], env.reply(k), env, opt); }
    }
  }

  datatype Verdict = Retry | GiveUp | Panic

  /** Replies after which the same request may be sent again. In particular a write that met a
      transport error, which may have been executed, is not. */
  predicate Retryable(reply: Reply, opt: InvokeOpt) {
    match reply
    case GroupNotFound => true
    case NotLeader(_, _) => true
    case Connect => true
    case Transport => opt.ignoreTransportError || (opt.hasRequest && opt.readOnly)
    case EpochNotMatch(desc) => !opt.accurateEpoch && (opt.hasRequest ==> desc.executable)
    case _ => false
  }

  /** No run of RPCs without growth is longer than the number of known replicas plus two. */
  ghost predicate Bounded(trace: seq<Rpc>) {
    forall i, j :: 0 <= i <= j < |trace| && Quiet(trace, i, j) ==> j + 1 - i <= trace[i].known + 2
  }

  /** None of the RPCs in `[i, j)` made the client learn anything. */
  ghost predicate Quiet(trace: seq<Rpc>, i: int, j: int)
    requires 0 <= i && j <= |trace|
  {
    forall k :: i <= k < j ==> !trace[k].grew
  }

  /** What holds of the RPCs sent so far: `start` is the first one after the last growth, since
      when `known` replicas are known. */
  ghost predicate Progress(trace: seq<Rpc>, start: nat, known: nat, low: nat, high: nat) {
    && Bounded(trace) && start <= |trace|
    && (start > 0 ==> trace[start - 1].grew)
    && (forall k :: start <= k < |trace| ==> !trace[k].grew && trace[k].known == known)
    && (forall k :: 0 <= k < |trace| ==> low <= trace[k].epoch <= high)
  }

  lemma ProgressExtends(trace: seq<Rpc>, rpc: Rpc, start: nat, known: nat, low: nat, high: nat, high': nat)
    requires Progress(trace, start, rpc.known, low, high)
    requires |trace| + 1 - start <= rpc.known + 2 && low <= rpc.epoch <= high <= high'
    requires known == rpc.known || rpc.grew
    ensures Progress(trace + [rpc], if rpc.grew then |trace| + 1 else start, known, low, high')
  {
    var t := trace + [rpc];
    forall i, j | 0 <= i <= j < |t| && Quiet(t, i, j) ensures j + 1 - i <= t[i].known + 2 {
      if j < |trace| {
        forall k | i <= k < j ensures !trace[k].grew { assert t[k] == trace[k]; }
        assert Quiet(trace, i, j);
      } else {
        assert start > 0 ==> t[start - 1] == trace[start - 1];
        assert start <= i && t[i] == if i < |trace| then trace[i] else rpc;
      }
    }
  }

  lemma ProgressMeans(trace: seq<Rpc>, start: nat, known: nat, low: nat, high: nat)
    requires Progress(trace, start, known, low, high)
    ensures Bounded(trace) && start <= |trace| && (Quiet(trace, 0, |trace|) ==> start == 0)
    ensures forall k :: 0 <= k < |trace| ==> low <= trace[k].epoch <= high
  {
  }

  /** `picks` names the replicas one after the other, starting at position `from`. */
  ghost predicate InTurn(picks: seq<nat>, from: nat, replicas: seq<Replica>) {
    if replicas == [] then picks == []
    else forall i :: 0 <= i < |picks| ==> picks[i] == replicas[(from + i) % |replicas|].nodeId
  }

  /** Exchanging two positions of a list. */
  function Swap(rs: seq<Replica>, i: nat): (r: seq<Replica>)
    requires i < |rs|
    ensures |r| == |rs| && multiset(r) == multiset(rs) && r[0] == rs[i]
  {
    var r := rs[0 := rs[i]][i := rs[0]];
    SwapIsPermutation(rs, i);
    r
  }

  lemma SwapIsPermutation(rs: seq<Replica>, i: nat)
    requires i < |rs|
    ensures multiset(rs[0 := rs[i]][i := rs[0]]) == multiset(rs)
  {
  }

  function Position(rs: seq<Replica>, nodeId: nat): (i: nat)
    ensures i <= |rs|
    ensures i < |rs| ==> rs[i].nodeId == nodeId
    ensures forall k :: 0 <= k < i ==> rs[k].nodeId != nodeId
  {
    if rs == [] || rs[0].nodeId == nodeId then 0 else 1 + Position(rs[1..], nodeId)
  }

  /** `move_node_to_first_element`. */
  function NodeFirst(rs: seq<Replica>, nodeId: nat): (r: seq<Replica>)
    ensures |r| == |rs| && multiset(r) == multiset(rs)
    ensures (exists i :: 0 <= i < |rs| && rs[i].nodeId == nodeId) ==> r[0].nodeId == nodeId
  {
    var i := Position(rs, nodeId);
    if i < |rs| && i != 0 then Swap(rs, i) else rs
  }

  /** `move_replica_to_first_element`: a leader that was not known is added. */
  function ReplicaFirst(rs: seq<Replica>, replica: Replica): (r: seq<Replica>)
    ensures r != [] && r[0].nodeId == replica.nodeId
    ensures |rs| <= |r| <= |rs| + 1
    ensures (exists i :: 0 <= i < |rs| && rs[i].nodeId == replica.nodeId) ==> multiset(r) == multiset(rs)
    ensures (forall i :: 0 <= i < |rs| ==> rs[i].nodeId != replica.nodeId) ==> multiset(r) == multiset(rs) + multiset{replica}
  {
    var i := Position(rs, replica.nodeId);
    var known := if i < |rs| then rs else rs + [replica];
    if i != 0 then Swap(known, i) else known
  }

  /** Everything servers report stays under these bounds. */
  ghost predicate BoundedEnv(env: Env, maxEpoch: nat, maxTerm: nat) {
    forall n: nat {:trigger env.reply(n)} ::
      && (env.reply(n).EpochNotMatch? ==> env.reply(n).desc.epoch <= maxEpoch)
      && (env.reply(n).NotLeader? ==> env.reply(n).term <= maxTerm)
  }

  lemma ReplyBounded(env: Env, n: nat, maxEpoch: nat, maxTerm: nat)
    requires BoundedEnv(env, maxEpoch, maxTerm)
    ensures env.reply(n).EpochNotMatch? ==> env.reply(n).desc.epoch <= maxEpoch
    ensures env.reply(n).NotLeader? ==> env.reply(n).term <= maxTerm
  {
  }

  lemma NothingSent(rs: seq<Replica>, low: nat)
    ensures Progress([], 0, |rs|, low, low) && InTurn([], 0, rs)
  {
  }

  /** The RPCs sent so far, all answered with something to retry after, and where they leave the client. */
  ghost predicate SoFar(trace: seq<Rpc>, env: Env, opt: InvokeOpt, access: Option<nat>, epoch: nat, term: int, attempts: nat) {
    && Heeds(trace, env, opt)
    && (forall k :: 0 <= k < |trace| ==> Retryable(env.reply(k), opt) && !env.expired(k))
    && (trace != [] ==>
          var rpc, n := trace[|trace| - 1], |trace| - 1;
          Standing(env.reply(n), rpc, opt, access, epoch, term) && attempts == rpc.attempt + 1)
  }

  /** What is said of the whole run at its end, whatever the last reply was. */
  ghost predicate Answered(trace: seq<Rpc>, env: Env, opt: InvokeOpt) {
    && Heeds(trace, env, opt)
    && (forall k :: 0 <= k < |trace| - 1 ==> Retryable(env.reply(k), opt) && !env.expired(k))
    && (forall k :: 0 <= k < |trace| - 1 && env.reply(k) == Transport ==>
          opt.ignoreTransportError || (opt.hasRequest && opt.readOnly))
  }

  lemma SoFarEnds(trace: seq<Rpc>, env: Env, opt: InvokeOpt, access: Option<nat>, epoch: nat, term: int, attempts: nat)
    requires SoFar(trace, env, opt, access, epoch, term, attempts)
    ensures Answered(trace, env, opt) && (trace != [] ==> env.reply(|trace| - 1) != Success)
  {
  }

  lemma OneMore(trace: seq<Rpc>, next: Rpc, env: Env, opt: InvokeOpt, access: Option<nat>, attempts: nat)
    requires SoFar(trace, env, opt, access, next.epoch, next.term, attempts)
    requires attempts <= next.attempt && env.connects(next.attempt)
    requires access.Some? && env.connects(attempts) ==> next.nodeId == access.value
    ensures Answered(trace + [next], env, opt)
    ensures forall access', epoch': nat, term' ::
              Standing(env.reply(|trace|), next, opt, access', epoch', term') && Retryable(env.reply(|trace|), opt)
              && !env.expired(|trace|) ==>
                SoFar(trace + [next], env, opt, access', epoch', term', next.attempt + 1)
  {
    hide Standing;
    HeedsExtends(trace, next, env, opt, access);
    var t := trace + [next];
    assert forall k :: 0 <= k < |trace| ==> t[k] == trace[k];
  }

  lemma NothingHeeded(env: Env, opt: InvokeOpt, access: Option<nat>, epoch: nat, term: int)
    ensures SoFar([], env, opt, access, epoch, term, 0)
  {
  }

  /** The replies after which a request is not sent again. */
  lemma RefusedIff(reply: Reply, opt: InvokeOpt)
    ensures !Retryable(reply, opt) <==>
              || reply.Success? || reply.Other?
              || (reply.Transport? && !opt.ignoreTransportError && !(opt.hasRequest && opt.readOnly))
              || (reply.EpochNotMatch? && (opt.accurateEpoch || (opt.hasRequest && !reply.desc.executable)))
  {
  }

  class Client {
    var epoch: nat
    var leaderState: Option<(nat, nat)>
    var replicas: seq<Replica>
    var accessNode: Option<nat>
    var nextAccess: nat

    constructor (epoch: nat, leaderState: Option<(nat, nat)>, replicas: seq<Replica>, accessNode: Option<nat>)
      ensures this.epoch == epoch && this.leaderState == leaderState && this.replicas == replicas
      ensures this.accessNode == accessNode && nextAccess == 0
    {
      this.epoch, this.leaderState, this.replicas := epoch, leaderState, replicas;
      this.accessNode, nextAccess := accessNode, 0;
    }

    /** Indexing the replicas cannot divide by zero. */
    ghost predicate Valid()
      reads this
    {
      replicas == [] ==> nextAccess > 0
    }

    function Term(): int
      reads this
    {
      if leaderState.Some? then leaderState.value.1 else -1
    }

    /** How many RPCs or attempts to connect are left before giving up. */
    function PicksLeft(): nat
      reads this
    {
      (if accessNode.Some? then 1 else 0) + (if nextAccess <= |replicas| then |replicas| + 1 - nextAccess else 0)
    }

    /** `next_access_node_id`: each replica in turn, and the first one again at the end. */
    method NextAccessNodeId() returns (node: Option<nat>)
      requires Valid()
      modifies this`nextAccess
      ensures Valid()
      ensures old(nextAccess) <= |replicas| ==>
                node == Some(replicas[old(nextAccess) % |replicas|].nodeId) && nextAccess == old(nextAccess) + 1
      ensures old(nextAccess) > |replicas| ==> node == None && nextAccess == old(nextAccess)
    {
      if nextAccess <= |replicas| {
        node := Some(replicas[nextAccess % |replicas|].nodeId);
        nextAccess := nextAccess + 1;
      } else {
        node := None;
      }
    }

    /** `recommend_client`: the cached node first, then the next ones, until one connects. */
    method RecommendClient(env: Env, attempts: nat) returns (node: Option<nat>, attempts': nat, ghost picks: seq<nat>)
      requires Valid()
      modifies this`accessNode, this`nextAccess
      ensures Valid() && attempts <= attempts' && old(nextAccess) <= nextAccess
      ensures old(nextAccess) <= |replicas| + 1 ==> nextAccess <= |replicas| + 1
      ensures accessNode == node
      ensures node.Some? ==> attempts < attempts' && PicksLeft() + (attempts' - attempts) == old(PicksLeft()) + 1
      ensures node.None? ==> nextAccess > |replicas| && PicksLeft() == 0
      ensures |picks| == nextAccess - old(nextAccess) && InTurn(picks, old(nextAccess), replicas)
      ensures node.Some? ==> old(accessNode) == node || (picks != [] && picks[|picks| - 1] == node.value)
      ensures node.Some? ==> env.connects(attempts' - 1)
      ensures forall a :: attempts <= a < (if node.Some? then attempts' - 1 else attempts') ==> !env.connects(a)
      ensures old(accessNode).Some? && env.connects(attempts) ==> node == old(accessNode)
    {
      attempts', picks := attempts, [];
      while true
        invariant Valid() && attempts <= attempts' && old(nextAccess) <= nextAccess
        invariant old(nextAccess) <= |replicas| + 1 ==> nextAccess <= |replicas| + 1
        invariant PicksLeft() + (attempts' - attempts) == old(PicksLeft())
        invariant accessNode.Some? ==> accessNode == old(accessNode) && attempts' == attempts
        invariant accessNode.None? && old(accessNode).Some? ==> attempts < attempts'
        invariant forall a :: attempts <= a < attempts' ==> !env.connects(a)
        invariant |picks| == nextAccess - old(nextAccess) && InTurn(picks, old(nextAccess), replicas)
        decreases PicksLeft()
      {
        var candidate := accessNode;
        if candidate.None? {
          candidate := NextAccessNodeId();
          if candidate.Some? { picks := picks + [candidate.value]; }
        }
        if candidate.None? {
          return None, attempts', picks;
        }
        attempts' := attempts' + 1;
        if env.connects(attempts' - 1) {
          accessNode := candidate;
          return candidate, attempts', picks;
        }
        accessNode := None;
      }
    }

    /** `apply_status`: what one error reply teaches the client. */
    method ApplyStatus(reply: Reply, opt: InvokeOpt) returns (verdict: Verdict, grew: bool)
      requires Valid() && !reply.Success? && accessNode.Some?
      modifies this
      ensures Valid() && old(epoch) <= epoch && old(Term()) <= Term()
      ensures grew <==> old(epoch) < epoch || old(Term()) < Term()
      ensures old(Term()) < Term() <==> NewLeader(reply, old(Term()))
      ensures old(epoch) < epoch <==> NewEpoch(reply, old(epoch), opt)
      ensures old(epoch) < epoch ==>
                && reply.EpochNotMatch? && epoch == reply.desc.epoch && leaderState == old(leaderState)
                && replicas == NodeFirst(reply.desc.replicas, old(accessNode).value)
                && nextAccess == 1 && accessNode == old(accessNode)
      ensures old(Term()) < Term() ==>
                && reply.NotLeader? && reply.leader.Some? && leaderState == Some((reply.leader.value.id, reply.term))
                && epoch == old(epoch) && nextAccess == old(nextAccess)
                && accessNode == Some(reply.leader.value.nodeId)
                && replicas == ReplicaFirst(old(replicas), reply.leader.value)
      ensures !grew ==>
                replicas == old(replicas) && nextAccess == old(nextAccess) && leaderState == old(leaderState)
      ensures verdict == Retry && !grew ==> accessNode == None
      ensures verdict == Retry && reply.EpochNotMatch? ==> grew && reply.desc.epoch > old(epoch)
      ensures verdict == Panic <==>
                reply.EpochNotMatch? && !opt.accurateEpoch && reply.desc.epoch <= old(epoch)
      ensures verdict != Retry ==> !grew
      ensures verdict == Retry ==> Retryable(reply, opt)
      ensures verdict == GiveUp ==> !Retryable(reply, opt)
    {
      verdict, grew := Retry, false;
      match reply
      case GroupNotFound =>
        accessNode := None;
      case NotLeader(term, leader) =>
        accessNode := None;
        // Only a newer term teaches anything.
        if leader.Some? && !(leaderState.Some? && leaderState.value.1 >= term) {
          accessNode := Some(leader.value.nodeId);
          leaderState := Some((leader.value.id, term));
          replicas := ReplicaFirst(replicas, leader.value);
          grew := true;
        }
      case Connect =>
        accessNode := None;
      case Transport =>
        if opt.ignoreTransportError || (opt.hasRequest && opt.readOnly) {
          accessNode := None;
        } else {
          verdict := GiveUp;
        }
      case EpochNotMatch(desc) =>
        if opt.accurateEpoch {
          verdict := GiveUp;
        } else if desc.epoch <= epoch {
          verdict := Panic;
        } else if opt.hasRequest && !desc.executable {
          verdict := GiveUp;
        } else {
          replicas := NodeFirst(desc.replicas, accessNode.value);
          epoch := desc.epoch;
          nextAccess := 1;
          grew := true;
        }
      case Other =>
        verdict := GiveUp;
    }

    /** One round of the loop: pick a node that connects, send the n-th RPC, digest the reply. */
    method Attempt(env: Env, opt: InvokeOpt, attempts: nat, n: nat)
      returns (outcome: Option<Outcome>, rpc: Option<Rpc>, attempts': nat, ghost picks: seq<nat>)
      requires Valid()
      modifies this
      ensures Valid() && old(epoch) <= epoch && old(Term()) <= Term()
      ensures old(epoch) < epoch ==> env.reply(n).EpochNotMatch? && epoch == env.reply(n).desc.epoch
      ensures old(Term()) < Term() ==> env.reply(n).NotLeader? && Term() == env.reply(n).term
      ensures InTurn(picks, old(nextAccess), old(replicas))
      ensures rpc.None? || !rpc.value.grew ==>
                && replicas == old(replicas) && |picks| == nextAccess - old(nextAccess)
                && (old(nextAccess) <= |replicas| + 1 ==> nextAccess <= |replicas| + 1)
      ensures rpc.None? ==> outcome == Some(NotAccessable) && nextAccess > |replicas| && epoch == old(epoch)
      ensures rpc.Some? ==> old(PicksLeft()) > 0 && rpc.value.epoch == old(epoch) && rpc.value.known == |old(replicas)|
      ensures rpc.Some? ==>
                || old(accessNode) == Some(rpc.value.nodeId)
                || (picks != [] && picks[|picks| - 1] == rpc.value.nodeId)
      ensures rpc.Some? ==> (rpc.value.grew <==> old(epoch) < epoch || old(Term()) < Term())
      ensures rpc.Some? && rpc.value.grew ==> outcome.None? && PicksLeft() <= |replicas| + 2
      ensures rpc.Some? && !rpc.value.grew && outcome.None? ==> PicksLeft() < old(PicksLeft())
      ensures outcome == Some(NotAccessable) ==> rpc.None?
      ensures outcome == Some(Done) ==> rpc.Some? && env.reply(n) == Success
      ensures outcome == Some(Failed) ==> rpc.Some? && !Retryable(env.reply(n), opt)
      ensures outcome == Some(Panicked) ==>
                rpc.Some? && env.reply(n).EpochNotMatch? && env.reply(n).desc.epoch <= epoch == old(epoch)
      ensures outcome.None? ==> rpc.Some? && Retryable(env.reply(n), opt)
      ensures outcome != Some(DeadlineExceeded)
      ensures rpc.Some? && env.reply(n) == Success ==> outcome == Some(Done)
      ensures rpc.Some? ==> attempts < attempts' && rpc.value.attempt == attempts' - 1 && rpc.value.term == old(Term())
      ensures rpc.Some? ==> env.connects(rpc.value.attempt)
      ensures old(accessNode).Some? && env.connects(attempts) ==> rpc.Some? && rpc.value.nodeId == old(accessNode).value
      ensures outcome.None? ==> Standing(env.reply(n), rpc.value, opt, accessNode, epoch, Term())
    {
      hide InTurn, Retryable, ReplicaFirst, NodeFirst;
      var node;
      node, attempts', picks := RecommendClient(env, attempts);
      if node.None? {
        return Some(NotAccessable), None, attempts', picks;
      }
      var reply := env.reply(n);
      var sent := Rpc(node.value, epoch, Term(), attempts' - 1, |replicas|, false);
      if reply.Success? {
        return Some(Done), Some(sent), attempts', picks;
      }
      var verdict, grew := ApplyStatus(reply, opt);
      rpc := Some(sent.(grew := grew));
      outcome := match verdict case Retry => None case GiveUp => Some(Failed) case Panic => Some(Panicked);
    }

    /** `invoke_with_opt`. It ends whenever the epochs and terms of the servers are bounded;
        between two growths it sends at most as many RPCs as there are replicas, plus two; and
        when it gives up without having learnt anything, it has picked every replica once, in
        order, and then the first one again. */
    method Invoke(env: Env, opt: InvokeOpt, ghost maxEpoch: nat, ghost maxTerm: nat)
      returns (outcome: Outcome, trace: seq<Rpc>, ghost picks: seq<nat>)
      requires replicas != []
      requires epoch <= maxEpoch && Term() <= maxTerm && BoundedEnv(env, maxEpoch, maxTerm)
      modifies this
      ensures Bounded(trace)
      ensures forall k :: 0 <= k < |trace| ==> old(epoch) <= trace[k].epoch <= epoch <= maxEpoch
      ensures outcome == NotAccessable && Quiet(trace, 0, |trace|) ==>
                |picks| == |old(replicas)| + 1 && InTurn(picks, 0, old(replicas))
      ensures Answered(trace, env, opt)
      ensures outcome == Failed ==> trace != [] && !Retryable(env.reply(|trace| - 1), opt)
      ensures outcome == Done <==> trace != [] && env.reply(|trace| - 1) == Success
      ensures outcome == Panicked ==>
                trace != [] && env.reply(|trace| - 1).EpochNotMatch? && env.reply(|trace| - 1).desc.epoch <= epoch
      ensures outcome == DeadlineExceeded ==> trace != [] && env.expired(|trace| - 1)
    {
      hide Progress, Bounded, InTurn, BoundedEnv, SoFar, Answered, Standing, Retryable, Quiet;
      nextAccess := 0;
      trace, picks := [], [];
      NothingSent(replicas, epoch);
      NothingHeeded(env, opt, accessNode, epoch, Term());
      var attempts := 0;
      ghost var start: nat := 0;   // first RPC after the last growth
      while true
        invariant Valid() && old(epoch) <= epoch <= maxEpoch && Term() <= maxTerm
        invariant Progress(trace, start, |replicas|, old(epoch), epoch) && start <= |trace|
        invariant |trace| - start + PicksLeft() <= |replicas| + 2
        invariant SoFar(trace, env, opt, accessNode, epoch, Term(), attempts)
        invariant start == 0 ==> replicas == old(replicas) && nextAccess <= |replicas| + 1
        invariant start == 0 ==> |picks| == nextAccess && InTurn(picks, 0, replicas)
        decreases maxEpoch - epoch, maxTerm - Term(), PicksLeft()
      {
        ghost var from, earlier, rs, sent := nextAccess, picks, replicas, epoch;
        ghost var access, started := accessNode, attempts;
        ReplyBounded(env, |trace|, maxEpoch, maxTerm);
        SoFarEnds(trace, env, opt, accessNode, epoch, Term(), attempts);
        var result, rpc, attempts', ps := Attempt(env, opt, attempts, |trace|);
        attempts := attempts';
        picks := picks + ps;
        if start == 0 { TurnsJoin(earlier, ps, from, rs); }
        if rpc.Some? {
          ProgressExtends(trace, rpc.value, start, |replicas|, old(epoch), sent, epoch);
          OneMore(trace, rpc.value, env, opt, access, started);
          trace := trace + [rpc.value];
          start := if rpc.value.grew then |trace| else start;
        }
        ProgressMeans(trace, start, |replicas|, old(epoch), epoch);
        if result.Some? {
          return result.value, trace, picks;
        }
        if env.expired(|trace| - 1) {
          return DeadlineExceeded, trace, picks;
        }
      }
    }

    lemma TurnsJoin(a: seq<nat>, b: seq<nat>, from: nat, rs: seq<Replica>)
      requires InTurn(a, 0, rs) && |a| == from && InTurn(b, from, rs)
      ensures InTurn(a + b, 0, rs)
    {
    }
  }
}
