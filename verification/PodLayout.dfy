/** Packing a dp x tp x pp world onto pods, and what the NodeManagers make of the result. */
module PodLayout {
  datatype Result<+T> = Ok(value: T) | Rejected

  /** Pods per instance, NPUs per pod, and nodes per data-parallel group. */
  datatype Layout = Layout(pods: nat, npus: nat, nnodes: nat)

  /** _infer_pod_layout; tensor parallelism stays within a node, pipeline parallelism may span nodes. */
  function InferPodLayout(dp: nat, tp: nat, cards: nat, pp: nat): Result<Layout>
    requires cards > 0
  {
    var perDp := tp * pp;
    var world := dp * perDp;
    if tp > cards then Rejected
    else if perDp > cards && perDp % cards != 0 then Rejected
    else
      var nnodes := if perDp > cards then perDp / cards else 1;
      if world <= cards then Ok(Layout(1, world, nnodes))
      else if world % cards != 0 then Rejected
      else Ok(Layout(world / cards, cards, nnodes))
  }

  /** _apply_cross_node_engine_config: the keys are set only where the script left them out. */
  function EmitCrossNode(engine: map<string, nat>, dp: nat, nnodes: nat, masterPort: nat): Result<map<string, nat>> {
    if nnodes > 1 && dp > 1 then Rejected
    else if nnodes > 1 then Ok(map["nnodes" := nnodes, "master-port" := masterPort] + engine)
    else Ok(engine)
  }

  function Times(a: nat, b: nat): nat {
    a * b
  }

  function Share(n: nat, d: nat): nat
    requires d > 0
  {
    n / d
  }

  /** The NodeManager's per-node device count for one data-parallel group. */
  function LocalWorldSize(nnodes: nat, pcp: nat, tp: nat, pp: nat): Result<nat> {
    var spanning, perDp := Times(pcp, pp), Times(Times(pcp, tp), pp);
    if nnodes > 1 && spanning > 1 then
      if spanning % nnodes != 0 then Rejected else Ok(Share(perDp, nnodes))
    else Ok(perDp)
  }

  /** _generate_endpoint_ports, in multi-endpoint mode: how many endpoints one pod serves; a zero divisor raises. */
  function EndpointNum(dp: nat, devices: nat, local: nat): Result<nat> {
    if devices < local || dp < 1 || local == 0 then Rejected
    else Ok(if dp < devices / local then dp else devices / local)
  }

  // ---------------------------------------------------------------- arithmetic

  lemma DivMod(n: nat, d: nat)
    requires d > 0
    ensures n == (n / d) * d + n % d && 0 <= n % d < d
  {
  }

  lemma QuotientExact(q: nat, d: nat)
    requires d > 0
    ensures (q * d) / d == q && (q * d) % d == 0
  {
    DivMod(q * d, d);
    var k, r := q * d / d, q * d % d;
    assert (q - k) * d == r;
    if q - k >= 1 {
      MulMono(1, q - k, d);
    } else if q - k <= -1 {
      MulMono(q - k, -1, d);
    }
  }

  lemma MulMono(a: int, b: int, c: nat)
    requires a <= b
    ensures a * c <= b * c
  {
  }

  lemma MulCancel(a: nat, b: nat, c: nat)
    requires c > 0 && a * c == b * c
    ensures a == b
  {
    if a < b {
      MulMono(a + 1, b, c);
    } else if b < a {
      MulMono(b + 1, a, c);
    }
  }

  lemma MulAssoc(a: nat, b: nat, c: nat)
    ensures (a * b) * c == a * (b * c)
  {
  }

  // ---------------------------------------------------------------- which worlds are packed

  /** Pods of equal size that hold the whole world: one pod, or any number of full nodes. */
  ghost predicate IsLayout(world: nat, cards: nat, pods: nat, npus: nat) {
    pods > 0 && pods * npus == world && npus <= cards && (pods == 1 || npus == cards)
  }

  /** A group of tp * pp devices fits on a node or fills a number of them. */
  ghost predicate GroupFits(perDp: nat, cards: nat, nodes: nat) {
    nodes > 0 && (if nodes == 1 then perDp <= cards else perDp == nodes * cards)
  }

  /** There is at most one such layout. */
  lemma LayoutUnique(world: nat, cards: nat, pods: nat, npus: nat)
    requires cards > 0 && IsLayout(world, cards, pods, npus)
    ensures if world <= cards then pods == 1 && npus == world else npus == cards && pods == world / cards && pods > 1
    ensures world > cards ==> world % cards == 0
  {
    if pods != 1 {
      QuotientExact(pods, cards);
      MulMono(2, pods, cards);
    }
  }

  lemma LayoutExists(world: nat, cards: nat)
    requires cards > 0 && (world <= cards || world % cards == 0)
    ensures if world <= cards then IsLayout(world, cards, 1, world) else IsLayout(world, cards, world / cards, cards)
  {
    DivMod(world, cards);
  }

  lemma GroupNodes(perDp: nat, cards: nat, nodes: nat)
    requires cards > 0 && GroupFits(perDp, cards, nodes)
    ensures nodes == if perDp <= cards then 1 else perDp / cards
    ensures perDp <= cards || perDp % cards == 0
  {
    if nodes > 1 {
      QuotientExact(nodes, cards);
      MulMono(2, nodes, cards);
    }
  }

  lemma GroupNodesExist(perDp: nat, cards: nat)
    requires cards > 0 && (perDp <= cards || perDp % cards == 0)
    ensures GroupFits(perDp, cards, if perDp <= cards then 1 else perDp / cards)
  {
    DivMod(perDp, cards);
    if perDp > cards && perDp / cards <= 1 {
      MulMono(perDp / cards, 1, cards);
    }
  }

  /**
    A world is packed if and only if it can be: tensor parallelism stays within a node, a group fits on a node or fills
    whole ones, and pods of equal size hold the world exactly.  The result is that layout, the only one there is, with
    one pod exactly when the world fits on a node.
   */
  lemma LayoutExactly(dp: nat, tp: nat, cards: nat, pp: nat)
    requires cards > 0
    ensures InferPodLayout(dp, tp, cards, pp).Ok? <==>
              && tp <= cards
              && (exists nodes :: GroupFits(tp * pp, cards, nodes))
              && (exists pods, npus :: IsLayout(dp * (tp * pp), cards, pods, npus))
    ensures InferPodLayout(dp, tp, cards, pp).Ok? ==>
              var l := InferPodLayout(dp, tp, cards, pp).value;
              && GroupFits(tp * pp, cards, l.nnodes)
              && (l.pods == 1 <==> dp * (tp * pp) <= cards)
              && forall pods, npus :: IsLayout(dp * (tp * pp), cards, pods, npus) <==> pods == l.pods && npus == l.npus
  {
    var perDp := tp * pp;
    var world := dp * perDp;
    if perDp <= cards || perDp % cards == 0 {
      GroupNodesExist(perDp, cards);
    }
    if world <= cards || world % cards == 0 {
      LayoutExists(world, cards);
    }
    hide IsLayout, GroupFits;
    forall nodes | GroupFits(perDp, cards, nodes)
      ensures perDp <= cards || perDp % cards == 0
    {
      GroupNodes(perDp, cards, nodes);
    }
    forall pods, npus | IsLayout(world, cards, pods, npus)
      ensures if world <= cards then pods == 1 && npus == world else npus == cards && pods == world / cards && pods > 1
      ensures world <= cards || world % cards == 0
    {
      LayoutUnique(world, cards, pods, npus);
    }
  }

  /** One full node is packed as one pod. */
  lemma FullNodePacked(cards: nat)
    requires cards > 0
    ensures InferPodLayout(1, cards, cards, 1) == Ok(Layout(1, cards, 1))
  {
  }

  // ---------------------------------------------------------------- what a NodeManager makes of it

  /** As many endpoints as dp asks for and the devices allow; the pod is refused when they allow none. */
  lemma EndpointNumExactly(dp: nat, devices: nat, local: nat)
    ensures EndpointNum(dp, devices, local).Ok? <==> local > 0 && dp >= 1 && local <= devices
    ensures EndpointNum(dp, devices, local).Ok? ==>
              var n := EndpointNum(dp, devices, local).value;
              && 1 <= n <= dp && n * local <= devices
              && forall m: nat :: m <= dp && m * local <= devices ==> m <= n
  {
    if EndpointNum(dp, devices, local).Ok? {
      var q, n := devices / local, EndpointNum(dp, devices, local).value;
      DivMod(devices, local);
      MulMono(n, q, local);
      forall m: nat | m <= dp && m * local <= devices ensures m <= n {
        if m > q {
          MulMono(q + 1, m, local);
        }
      }
    }
  }

  /** Spanning nodes, the parallel ranks that may span must divide evenly; then the nodes' shares make up the group. */
  lemma LocalWorldExactly(nnodes: nat, pcp: nat, tp: nat, pp: nat)
    ensures !(nnodes > 1 && pcp * pp > 1) ==> LocalWorldSize(nnodes, pcp, tp, pp) == Ok(pcp * tp * pp)
    ensures nnodes > 1 && pcp * pp > 1 ==>
              (LocalWorldSize(nnodes, pcp, tp, pp).Ok? <==> exists k: nat :: pcp * pp == k * nnodes)
    ensures nnodes > 1 && pcp * pp > 1 && LocalWorldSize(nnodes, pcp, tp, pp).Ok? ==>
              LocalWorldSize(nnodes, pcp, tp, pp).value * nnodes == pcp * tp * pp
  {
    if nnodes > 1 && pcp * pp > 1 {
      DivMod(pcp * pp, nnodes);
      if k: nat :| pcp * pp == k * nnodes {
        QuotientExact(k, nnodes);
        var n := k * tp;
        assert pcp * tp * pp == (pcp * pp) * tp == (k * nnodes) * tp == n * nnodes;
        QuotientExact(n, nnodes);
      } else if pcp * pp % nnodes == 0 {
        assert pcp * pp == (pcp * pp / nnodes) * nnodes;
      }
    }
  }

  /** Keys the script set stay as they are; the two keys are added only where a group spans nodes. */
  lemma EmitExactly(engine: map<string, nat>, dp: nat, nnodes: nat, masterPort: nat)
    ensures EmitCrossNode(engine, dp, nnodes, masterPort).Ok? <==> nnodes <= 1 || dp <= 1
    ensures EmitCrossNode(engine, dp, nnodes, masterPort).Ok? ==>
              var e := EmitCrossNode(engine, dp, nnodes, masterPort).value;
              && e.Keys == engine.Keys + (if nnodes > 1 then {"nnodes", "master-port"} else {})
              && (forall k :: k in engine ==> e[k] == engine[k])
              && (nnodes > 1 && "nnodes" !in engine ==> e["nnodes"] == nnodes)
              && (nnodes > 1 && "master-port" !in engine ==> e["master-port"] == masterPort)
  {
  }

  // ---------------------------------------------------------------- packing

  /** No NPU is lost or invented: the pods together have exactly the world's devices. */
  lemma PackingConserves(dp: nat, tp: nat, cards: nat, pp: nat)
    requires cards > 0 && InferPodLayout(dp, tp, cards, pp).Ok?
    ensures var l := InferPodLayout(dp, tp, cards, pp).value; l.pods * l.npus == dp * (tp * pp)
  {
    DivMod(dp * (tp * pp), cards);
  }

  /** Endpoints over all pods of an instance with one node per group. */
  function TotalEndpoints(dp: nat, tp: nat, pp: nat, l: Layout): nat {
    var n := EndpointNum(dp, l.npus, tp * pp);
    if n.Ok? then l.pods * n.value else 0
  }

  lemma SinglePodTotal(dp: nat, perDp: nat)
    requires perDp > 0 && dp > 0
    ensures EndpointNum(dp, dp * perDp, perDp) == Ok(dp)
  {
    QuotientExact(dp, perDp);
    MulMono(1, dp, perDp);
  }

  /** Over several full nodes, rounding down loses endpoints exactly when a group does not divide the node. */
  lemma ManyPodsTotal(dp: nat, perDp: nat, cards: nat, pods: nat)
    requires 0 < perDp <= cards && pods * cards == dp * perDp && pods > 0
    ensures pods * (cards / perDp) <= dp
    ensures pods * (cards / perDp) == dp <==> cards % perDp == 0
  {
    var e, r := cards / perDp, cards % perDp;
    DivMod(cards, perDp);
    assert pods * cards == pods * (e * perDp) + pods * r;
    MulAssoc(pods, e, perDp);
    assert (dp - pods * e) * perDp == pods * r;
    if r == 0 {
      MulCancel(dp, pods * e, perDp);
    } else {
      MulMono(1, pods, r);
      if dp - pods * e <= 0 {
        MulMono(dp - pods * e, 0, perDp);
      }
    }
  }

  lemma FewerThanDp(dp: nat, perDp: nat, cards: nat, pods: nat)
    requires 0 < perDp <= cards && pods * cards == dp * perDp && pods > 0 && cards < dp * perDp
    ensures cards / perDp < dp && 1 <= cards / perDp
  {
    DivMod(cards, perDp);
    var e := cards / perDp;
    if dp <= e {
      MulMono(dp, e, perDp);
    }
    if e < 1 {
      MulMono(e, 0, perDp);
    }
  }

  /** With one node per group, a group fits on a node. */
  lemma OneNodeFits(dp: nat, tp: nat, cards: nat, pp: nat)
    requires cards > 0 && tp > 0 && pp > 0
    requires InferPodLayout(dp, tp, cards, pp).Ok? && InferPodLayout(dp, tp, cards, pp).value.nnodes == 1
    ensures 0 < tp * pp <= cards
  {
    MulMono(1, pp, tp);
    DivMod(tp * pp, cards);
  }

  /**
    The pods' endpoints add up to dp, which is what the controller waits for, exactly when the instance is one pod or
    a data-parallel group divides a node.
   */
  lemma EndpointsMatchExactly(dp: nat, tp: nat, cards: nat, pp: nat)
    requires cards > 0 && dp > 0 && tp > 0 && pp > 0
    requires InferPodLayout(dp, tp, cards, pp).Ok? && InferPodLayout(dp, tp, cards, pp).value.nnodes == 1
    ensures var l := InferPodLayout(dp, tp, cards, pp).value;
            && tp * pp > 0
            && (TotalEndpoints(dp, tp, pp, l) == dp <==> l.pods == 1 || cards % (tp * pp) == 0)
            && TotalEndpoints(dp, tp, pp, l) <= dp
            && EndpointNum(dp, l.npus, tp * pp).Ok? && EndpointNum(dp, l.npus, tp * pp).value >= 1
  {
    var l, perDp := InferPodLayout(dp, tp, cards, pp).value, tp * pp;
    OneNodeFits(dp, tp, cards, pp);
    PackingConserves(dp, tp, cards, pp);
    if dp * perDp <= cards {
      SinglePodTotal(dp, perDp);
    } else {
      DivMod(dp * perDp, cards);
      assert l.pods != 1;
      ManyPodsTotal(dp, perDp, cards, l.pods);
      FewerThanDp(dp, perDp, cards, l.pods);
    }
  }

  // ---------------------------------------------------------------- cross-node groups

  /** tp divides a node exactly when the emitted node count divides the pipeline. */
  lemma NodeCountDivides(tp: nat, pp: nat, cards: nat, nnodes: nat)
    requires tp > 0 && pp > 0 && cards > 0 && nnodes > 0 && nnodes * cards == tp * pp
    ensures pp % nnodes == 0 <==> cards % tp == 0
  {
    if cards % tp == 0 {
      var c := cards / tp;
      DivMod(cards, tp);
      assert nnodes * (c * tp) == pp * tp;
      MulAssoc(nnodes, c, tp);
      MulCancel(nnodes * c, pp, tp);
      QuotientExact(c, nnodes);
    }
    if pp % nnodes == 0 {
      var c := pp / nnodes;
      DivMod(pp, nnodes);
      assert cards * nnodes == tp * (c * nnodes);
      MulAssoc(tp, c, nnodes);
      MulCancel(cards, tp * c, nnodes);
      QuotientExact(c, tp);
    }
  }

  /**
    A single group that spans nodes: the layout has one pod per node, and the NodeManager accepts the emitted node
    count, finding exactly the pod's NPUs per node, when and only when tp divides the cards of a node.
   */
  lemma CrossNodeAcceptedExactly(tp: nat, cards: nat, pp: nat, engine: map<string, nat>, masterPort: nat)
    requires cards > 0 && tp > 0 && pp > 0 && tp * pp > cards && "nnodes" !in engine
    requires InferPodLayout(1, tp, cards, pp).Ok?
    ensures var l := InferPodLayout(1, tp, cards, pp).value;
            && l.pods == l.nnodes > 1 && l.npus == cards
            && EmitCrossNode(engine, 1, l.nnodes, masterPort).Ok?
            && EmitCrossNode(engine, 1, l.nnodes, masterPort).value["nnodes"] == l.nnodes
            && (LocalWorldSize(l.nnodes, 1, tp, pp).Ok? <==> cards % tp == 0)
            && (cards % tp == 0 ==> LocalWorldSize(l.nnodes, 1, tp, pp) == Ok(l.npus))
  {
    var l := InferPodLayout(1, tp, cards, pp).value;
    DivMod(tp * pp, cards);
    assert l.nnodes * cards == tp * pp;
    if l.nnodes <= 1 {
      MulMono(l.nnodes, 1, cards);
    }
    NodeCountDivides(tp, pp, cards, l.nnodes);
    assert pp > 1;
    QuotientExact(cards, l.nnodes);
    assert cards * l.nnodes == 1 * tp * pp;
  }

  /** Six-way tensor parallelism on eight-card nodes is packed but not accepted. */
  lemma UnevenTensorParallelRejected()
    ensures InferPodLayout(1, 6, 8, 4) == Ok(Layout(3, 8, 3))
    ensures LocalWorldSize(3, 1, 6, 4) == Rejected
  {
  }
}
