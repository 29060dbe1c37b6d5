/** The task-order resolver: collects the task elements and the sequence-flow graph of a BPMN
    document, finds the start event, and lists the tasks in breadth-first order from it. */
module BpmnProcessor {
  import opened Wrappers
  import opened Seqs
  import opened Strings
  import opened Bpmn

  /** The activity tags collected as tasks, in the order their maps are merged. */
  const TaskTags: seq<ActivityTag> := [Task, UserTask, ManualTask, ServiceTask, ScriptTask]

  /** The gateway tags the traversal passes through. */
  const GatewayTags: seq<GatewayTag> := [ExclusiveGateway, ParallelGateway, InclusiveGateway, EventBasedGateway]

  /** The value stored for a task: its `name` unless that is blank, else its `id`. */
  function DisplayName(e: TaskElement): string
  {
    if IsBlank(e.name) then e.id else e.name
  }

  /** No later element with tag `tag` has the id of `elems[i]`. */
  ghost predicate LastWithId(elems: seq<TaskElement>, tag: ActivityTag, i: int)
    requires 0 <= i < |elems|
  {
    forall j :: i < j < |elems| && elems[j].tag == tag ==> elems[j].id != elems[i].id
  }

  /** `extractTasks(tagName)`: id to display name for the elements with tag `tag`; when two
      elements share an id, the later one in document order wins (`associate`). */
  function ExtractTasks(elems: seq<TaskElement>, tag: ActivityTag): map<string, string>
  {
    if elems == [] then map[]
    else
      var init, e := elems[..|elems| - 1], elems[|elems| - 1];
      var m := ExtractTasks(init, tag);
      if e.tag == tag then m[e.id := DisplayName(e)] else m
  }

  /** An id is a key of `extractTasks(tag)` exactly when some element with that tag has it. */
  lemma {:induction false} ExtractTasksKeys(elems: seq<TaskElement>, tag: ActivityTag, id: string)
    ensures id in ExtractTasks(elems, tag) <==> exists i :: 0 <= i < |elems| && elems[i].tag == tag && elems[i].id == id
  {
    if elems != [] {
      var n := |elems| - 1;
      var init := elems[..n];
      ExtractTasksKeys(init, tag, id);
      if id in ExtractTasks(elems, tag) && !(elems[n].tag == tag && elems[n].id == id) {
        var i :| 0 <= i < |init| && init[i].tag == tag && init[i].id == id;
        assert elems[i] == init[i];
      }
      if exists i :: 0 <= i < |elems| && elems[i].tag == tag && elems[i].id == id {
        var i :| 0 <= i < |elems| && elems[i].tag == tag && elems[i].id == id;
        if i < n {
          assert init[i] == elems[i];
        }
      }
    }
  }

  /** The last element with a given id and tag supplies that id's display name. */
  lemma {:induction false} ExtractTasksNames(elems: seq<TaskElement>, tag: ActivityTag, i: int)
    requires 0 <= i < |elems| && elems[i].tag == tag && LastWithId(elems, tag, i)
    ensures elems[i].id in ExtractTasks(elems, tag) && ExtractTasks(elems, tag)[elems[i].id] == DisplayName(elems[i])
  {
    var n := |elems| - 1;
    if i < n {
      var init := elems[..n];
      assert init[i] == elems[i];
      assert LastWithId(init, tag, i) by {
        forall j | i < j < |init| && init[j].tag == tag
          ensures init[j].id != init[i].id
        {
          assert init[j] == elems[j];
        }
      }
      ExtractTasksNames(init, tag, i);
    }
  }

  /** The position of a task tag in `TaskTags` (the merge order); -1 for a tag that is not collected. */
  function Rank(t: ActivityTag): (r: int)
    ensures -1 <= r < |TaskTags|
    ensures r >= 0 ==> TaskTags[r] == t
    ensures r == -1 <==> t !in TaskTags
  {
    match t
    case Task => 0
    case UserTask => 1
    case ManualTask => 2
    case ServiceTask => 3
    case ScriptTask => 4
    case OtherActivity(_) => -1
  }

  /** Some element carries `id` and one of the collected task tags. */
  predicate IsCollectedTask(elems: seq<TaskElement>, id: string)
  {
    exists i :: 0 <= i < |elems| && Rank(elems[i].tag) >= 0 && elems[i].id == id
  }

  /** `elems[j]` carries the id of `elems[i]` and its entry is written after that of `elems[i]`: its
      tag comes later in `TaskTags`, or it has the same tag and comes later in the document. */
  ghost predicate Supersedes(elems: seq<TaskElement>, j: int, i: int)
    requires 0 <= i < |elems| && 0 <= j < |elems|
  {
    && elems[j].id == elems[i].id
    && (Rank(elems[j].tag) > Rank(elems[i].tag) || (elems[j].tag == elems[i].tag && j > i))
  }

  /** An element has the `k`-th task tag exactly when its rank is `k`. */
  lemma RankOfTag(k: int, t: ActivityTag)
    requires 0 <= k < |TaskTags|
    ensures t == TaskTags[k] <==> Rank(t) == k
  {
  }

  /** The task map after merging the maps of the first `k` task tags. */
  function MergedUpTo(elems: seq<TaskElement>, k: nat): map<string, string>
    requires k <= |TaskTags|
  {
    if k == 0 then map[] else MergedUpTo(elems, k - 1) + ExtractTasks(elems, TaskTags[k - 1])
  }

  /** After `k` merges, an id is a key exactly when an element of one of the first `k` tags has it. */
  lemma {:induction false} MergedKeys(elems: seq<TaskElement>, k: nat, id: string)
    requires k <= |TaskTags|
    ensures id in MergedUpTo(elems, k) <==>
              exists i :: 0 <= i < |elems| && 0 <= Rank(elems[i].tag) < k && elems[i].id == id
  {
    if k > 0 {
      var prev, added := MergedUpTo(elems, k - 1), ExtractTasks(elems, TaskTags[k - 1]);
      assert MergedUpTo(elems, k) == prev + added;
      MergedKeys(elems, k - 1, id);
      ExtractTasksKeys(elems, TaskTags[k - 1], id);
      if id in prev + added {
        if id !in prev {
          var i :| 0 <= i < |elems| && elems[i].tag == TaskTags[k - 1] && elems[i].id == id;
          RankOfTag(k - 1, elems[i].tag);
        }
      }
      if exists i :: 0 <= i < |elems| && 0 <= Rank(elems[i].tag) < k && elems[i].id == id {
        var i :| 0 <= i < |elems| && 0 <= Rank(elems[i].tag) < k && elems[i].id == id;
        RankOfTag(k - 1, elems[i].tag);
        if Rank(elems[i].tag) == k - 1 {
          assert id in added;
        } else {
          assert id in prev;
        }
      }
    }
  }

  /** After `k` merges, an element of one of the first `k` tags that no element of those tags
      supersedes has its display name stored under its id. */
  lemma {:induction false} MergedName(elems: seq<TaskElement>, k: nat, i: int)
    requires k <= |TaskTags| && 0 <= i < |elems| && 0 <= Rank(elems[i].tag) < k
    requires forall j :: 0 <= j < |elems| && Rank(elems[j].tag) < k ==> !Supersedes(elems, j, i)
    ensures elems[i].id in MergedUpTo(elems, k) && MergedUpTo(elems, k)[elems[i].id] == DisplayName(elems[i])
  {
    if Rank(elems[i].tag) == k - 1 {
      MergedNameOfLastTag(elems, k, i);
    } else {
      MergedName(elems, k - 1, i);
      MergedNameKept(elems, k, i);
    }
  }

  /** An element of the `k`-th merged tag that none supersedes is written by that merge. */
  lemma MergedNameOfLastTag(elems: seq<TaskElement>, k: nat, i: int)
    requires 0 < k <= |TaskTags| && 0 <= i < |elems| && Rank(elems[i].tag) == k - 1
    requires forall j :: 0 <= j < |elems| && Rank(elems[j].tag) < k ==> !Supersedes(elems, j, i)
    ensures elems[i].id in MergedUpTo(elems, k) && MergedUpTo(elems, k)[elems[i].id] == DisplayName(elems[i])
  {
    var tag := TaskTags[k - 1];
    RankOfTag(k - 1, elems[i].tag);
    forall j | i < j < |elems| && elems[j].tag == tag
      ensures elems[j].id != elems[i].id
    {
      RankOfTag(k - 1, elems[j].tag);
      assert !Supersedes(elems, j, i);
    }
    assert LastWithId(elems, tag, i);
    ExtractTasksNames(elems, tag, i);
  }

  /** An element of an earlier tag that none supersedes keeps its name through the `k`-th merge. */
  lemma MergedNameKept(elems: seq<TaskElement>, k: nat, i: int)
    requires 0 < k <= |TaskTags| && 0 <= i < |elems| && 0 <= Rank(elems[i].tag) < k - 1
    requires forall j :: 0 <= j < |elems| && Rank(elems[j].tag) < k ==> !Supersedes(elems, j, i)
    requires elems[i].id in MergedUpTo(elems, k - 1)
    ensures elems[i].id in MergedUpTo(elems, k) && MergedUpTo(elems, k)[elems[i].id] == MergedUpTo(elems, k - 1)[elems[i].id]
  {
    var tag := TaskTags[k - 1];
    forall j | 0 <= j < |elems| && elems[j].tag == tag
      ensures elems[j].id != elems[i].id
    {
      RankOfTag(k - 1, elems[j].tag);
      assert !Supersedes(elems, j, i);
    }
    ExtractTasksKeys(elems, tag, elems[i].id);
  }

  /** `extractAllTasks`: the maps of the five task tags merged in `TaskTags` order (`putAll`). The
      keys are the ids of the collected task elements; the name kept for an id is the display name
      of the element written last, that is of the one no other element supersedes. */
  method ExtractAllTasks(elems: seq<TaskElement>) returns (tasks: map<string, string>)
    ensures forall id :: id in tasks <==> IsCollectedTask(elems, id)
    ensures forall i ::
              (0 <= i < |elems| && Rank(elems[i].tag) >= 0 &&
               (forall j :: 0 <= j < |elems| ==> !Supersedes(elems, j, i))) ==>
              elems[i].id in tasks && tasks[elems[i].id] == DisplayName(elems[i])
  {
    tasks := map[];
    for k := 0 to |TaskTags|
      invariant tasks == MergedUpTo(elems, k)
    {
      tasks := tasks + ExtractTasks(elems, TaskTags[k]);
    }
    forall id
      ensures id in tasks <==> IsCollectedTask(elems, id)
    {
      MergedKeys(elems, |TaskTags|, id);
    }
    forall i | 0 <= i < |elems| && Rank(elems[i].tag) >= 0 && (forall j :: 0 <= j < |elems| ==> !Supersedes(elems, j, i))
      ensures elems[i].id in tasks && tasks[elems[i].id] == DisplayName(elems[i])
    {
      MergedName(elems, |TaskTags|, i);
    }
  }

  // ---------------------------------------------------------------------------------------------
  // The sequence-flow graph.

  /** The result of `groupBy`: source id to its target ids, with the keys in first-appearance order
      (Kotlin's insertion-ordered map). */
  datatype FlowMap = FlowMap(keys: seq<string>, targets: map<string, seq<string>>)

  /** The `sourceRef`s of the flows, in document order. */
  function Sources(flows: seq<SequenceFlow>): (r: seq<string>)
    ensures |r| == |flows| && forall i :: 0 <= i < |flows| ==> r[i] == flows[i].sourceRef
  {
    seq(|flows|, i requires 0 <= i < |flows| => flows[i].sourceRef)
  }

  /** The `targetRef`s of the flows leaving `src`, in document order, duplicates kept. */
  function TargetsOf(flows: seq<SequenceFlow>, src: string): seq<string>
  {
    if flows == [] then []
    else
      var f := flows[|flows| - 1];
      TargetsOf(flows[..|flows| - 1], src) + (if f.sourceRef == src then [f.targetRef] else [])
  }

  /** A target listed under `src` is the target of some flow leaving `src`, and conversely. */
  lemma {:induction false} TargetsOfMembership(flows: seq<SequenceFlow>, src: string, dst: string)
    ensures dst in TargetsOf(flows, src) <==>
              exists i :: 0 <= i < |flows| && flows[i].sourceRef == src && flows[i].targetRef == dst
  {
    if flows != [] {
      var init := flows[..|flows| - 1];
      TargetsOfMembership(init, src, dst);
      assert forall i :: 0 <= i < |init| ==> init[i] == flows[i];
      if exists i :: 0 <= i < |flows| && flows[i].sourceRef == src && flows[i].targetRef == dst {
        var i :| 0 <= i < |flows| && flows[i].sourceRef == src && flows[i].targetRef == dst;
        if i < |init| {
          assert init[i] == flows[i];
        }
      }
    }
  }

  /** One step of `groupBy`: the target of `f` is appended under its source, and a source seen for
      the first time becomes the last key. */
  function AddFlow(g: FlowMap, f: SequenceFlow): FlowMap
  {
    if f.sourceRef in g.targets then
      FlowMap(g.keys, g.targets[f.sourceRef := g.targets[f.sourceRef] + [f.targetRef]])
    else
      FlowMap(g.keys + [f.sourceRef], g.targets[f.sourceRef := [f.targetRef]])
  }

  /** `extractSequenceFlows`: the flows grouped by `sourceRef`; the keys are the distinct sources in
      order of first appearance and each key holds exactly the targets of its flows, in document
      order, duplicates kept. */
  function ExtractSequenceFlows(flows: seq<SequenceFlow>): (g: FlowMap)
    ensures g.keys == Distinct(Sources(flows))
    ensures forall k :: k in g.targets <==> k in g.keys
    ensures forall k :: k in g.targets ==> g.targets[k] == TargetsOf(flows, k)
  {
    if flows == [] then FlowMap([], map[])
    else
      var init, f := flows[..|flows| - 1], flows[|flows| - 1];
      var g := ExtractSequenceFlows(init);
      assert flows == init + [f];
      GroupStep(init, f, g, flows);
      AddFlow(g, f)
  }

  /** Adding one flow `f` to a grouping of `init` gives the grouping of `flows`, which is
      `init + [f]`. */
  lemma GroupStep(init: seq<SequenceFlow>, f: SequenceFlow, g: FlowMap, flows: seq<SequenceFlow>)
    requires flows == init + [f]
    requires g.keys == Distinct(Sources(init))
    requires forall k :: k in g.targets <==> k in g.keys
    requires forall k :: k in g.targets ==> g.targets[k] == TargetsOf(init, k)
    ensures AddFlow(g, f).keys == Distinct(Sources(flows))
    ensures forall k :: k in AddFlow(g, f).targets <==> k in AddFlow(g, f).keys
    ensures forall k :: k in AddFlow(g, f).targets ==> AddFlow(g, f).targets[k] == TargetsOf(flows, k)
  {
    SourcesSnoc(init, f);
    DistinctSnoc(Sources(init), f.sourceRef);
    forall k
      ensures k in AddFlow(g, f).targets <==> k in AddFlow(g, f).keys
      ensures k in AddFlow(g, f).targets ==> AddFlow(g, f).targets[k] == TargetsOf(flows, k)
    {
      GroupStepAt(init, f, g, k);
    }
  }

  /** `GroupStep` for one key. */
  lemma GroupStepAt(init: seq<SequenceFlow>, f: SequenceFlow, g: FlowMap, k: string)
    requires g.keys == Distinct(Sources(init))
    requires forall k :: k in g.targets <==> k in g.keys
    requires forall k :: k in g.targets ==> g.targets[k] == TargetsOf(init, k)
    ensures k in AddFlow(g, f).targets <==> k in AddFlow(g, f).keys
    ensures k in AddFlow(g, f).targets ==> AddFlow(g, f).targets[k] == TargetsOf(init + [f], k)
  {
    TargetsOfSnoc(init, f, k);
    if k == f.sourceRef && k !in g.targets {
      NotASourceHasNoTargets(init, k);
    }
  }

  /** The sources of `init + [f]`. */
  lemma SourcesSnoc(init: seq<SequenceFlow>, f: SequenceFlow)
    ensures Sources(init + [f]) == Sources(init) + [f.sourceRef]
  {
  }

  /** The targets under `k` of `init + [f]`. */
  lemma TargetsOfSnoc(init: seq<SequenceFlow>, f: SequenceFlow, k: string)
    ensures TargetsOf(init + [f], k) == TargetsOf(init, k) + (if f.sourceRef == k then [f.targetRef] else [])
  {
    assert (init + [f])[..|init|] == init;
  }

  lemma {:induction false} NotASourceHasNoTargets(flows: seq<SequenceFlow>, src: string)
    requires src !in Sources(flows)
    ensures TargetsOf(flows, src) == []
  {
    if flows != [] {
      var init := flows[..|flows| - 1];
      assert Sources(flows)[..|flows| - 1] == Sources(init);
      assert Sources(flows)[|flows| - 1] == flows[|flows| - 1].sourceRef;
      NotASourceHasNoTargets(init, src);
    }
  }

  /** The successors of `a` in the flow graph (none when `a` has no outgoing flow). */
  function Succ(g: FlowMap, a: string): seq<string>
  {
    if a in g.targets then g.targets[a] else []
  }

  // ---------------------------------------------------------------------------------------------
  // The start event.

  /** `firstOrNull { it in starts }` over `keys`. */
  function FirstIn(keys: seq<string>, starts: set<string>): (r: Option<string>)
    ensures r.None? <==> forall i :: 0 <= i < |keys| ==> keys[i] !in starts
    ensures r.Some? ==> r.value in starts && r.value in keys
    ensures r.Some? ==>
              exists i :: 0 <= i < |keys| && keys[i] == r.value && forall j :: 0 <= j < i ==> keys[j] !in starts
  {
    if keys == [] then None
    else if keys[0] in starts then Some(keys[0])
    else
      var r := FirstIn(keys[1..], starts);
      assert r.Some? ==> exists i :: 0 <= i < |keys| && keys[i] == r.value && forall j :: 0 <= j < i ==> keys[j] !in starts by {
        if r.Some? {
          var i :| 0 <= i < |keys[1..]| && keys[1..][i] == r.value && forall j :: 0 <= j < i ==> keys[1..][j] !in starts;
          assert keys[i + 1] == r.value;
          assert forall j :: 0 <= j < i + 1 ==> keys[j] !in starts by {
            forall j | 0 <= j < i + 1
              ensures keys[j] !in starts
            {
              if j > 0 {
                assert keys[j] == keys[1..][j - 1];
              }
            }
          }
        }
      }
      r
  }

  /** `findStartTask`: the first key of the flow map that is the id of a `startEvent`, or none. */
  function FindStartTask(startEvents: set<string>, g: FlowMap): Option<string>
  {
    FirstIn(g.keys, startEvents)
  }

  /** When there is no start node, no sequence flow leaves a start event. */
  lemma {:induction false} NoStartTaskMeansNoStartFlow(startEvents: set<string>, flows: seq<SequenceFlow>)
    ensures FindStartTask(startEvents, ExtractSequenceFlows(flows)).None? ==>
              forall i :: 0 <= i < |flows| ==> flows[i].sourceRef !in startEvents
  {
    var keys := ExtractSequenceFlows(flows).keys;
    var srcs := Sources(flows);
    if FirstIn(keys, startEvents).None? {
      forall i | 0 <= i < |flows|
        ensures flows[i].sourceRef !in startEvents
      {
        assert srcs[i] in keys;
      }
    }
  }

  /** When there is a start node, some sequence flow leaves a start event. */
  lemma {:induction false} StartTaskMeansStartFlow(startEvents: set<string>, flows: seq<SequenceFlow>)
    ensures FindStartTask(startEvents, ExtractSequenceFlows(flows)).Some? ==>
              exists i :: 0 <= i < |flows| && flows[i].sourceRef in startEvents
  {
    var keys := ExtractSequenceFlows(flows).keys;
    var r := FirstIn(keys, startEvents);
    if r.Some? {
      KeyIsSource(flows, keys, r.value);
    }
  }

  /** Every key of the flow map is the `sourceRef` of some sequence flow. */
  lemma {:induction false} KeyIsSource(flows: seq<SequenceFlow>, keys: seq<string>, k: string)
    requires keys == Distinct(Sources(flows)) && k in keys
    ensures exists i :: 0 <= i < |flows| && flows[i].sourceRef == k
  {
    var srcs := Sources(flows);
    assert k in srcs;
    var i :| 0 <= i < |srcs| && srcs[i] == k;
    assert flows[i].sourceRef == k;
  }

  /** There is no start node exactly when no sequence flow leaves a start event. */
  lemma NoStartTaskIffNoStartFlow(startEvents: set<string>, flows: seq<SequenceFlow>)
    ensures FindStartTask(startEvents, ExtractSequenceFlows(flows)).None? <==>
              forall i :: 0 <= i < |flows| ==> flows[i].sourceRef !in startEvents
  {
    NoStartTaskMeansNoStartFlow(startEvents, flows);
    StartTaskMeansStartFlow(startEvents, flows);
  }

  /** The start node is the `sourceRef` of the first sequence flow in document order that leaves a
      start event. */
  lemma {:induction false} StartTaskIsFirstStartFlow(startEvents: set<string>, flows: seq<SequenceFlow>)
    requires FindStartTask(startEvents, ExtractSequenceFlows(flows)).Some?
    ensures var s := FindStartTask(startEvents, ExtractSequenceFlows(flows)).value;
            && s in startEvents
            && exists i :: 0 <= i < |flows| && flows[i].sourceRef == s &&
                 forall j :: 0 <= j < i ==> flows[j].sourceRef !in startEvents
  {
    FirstKeyIsFirstSource(flows, ExtractSequenceFlows(flows).keys, startEvents);
  }

  /** The first of the distinct sources that is in `starts` is the source of the first flow whose
      source is in `starts`. */
  lemma {:induction false} FirstKeyIsFirstSource(flows: seq<SequenceFlow>, keys: seq<string>, starts: set<string>)
    requires keys == Distinct(Sources(flows)) && FirstIn(keys, starts).Some?
    ensures exists i :: 0 <= i < |flows| && flows[i].sourceRef == FirstIn(keys, starts).value &&
              forall j :: 0 <= j < i ==> flows[j].sourceRef !in starts
  {
    var srcs := Sources(flows);
    var r := FirstIn(keys, starts);
    var k :| 0 <= k < |keys| && keys[k] == r.value && forall j :: 0 <= j < k ==> keys[j] !in starts;
    DistinctKeepsFirstMatch(srcs, starts, k);
    var i :| 0 <= i < |srcs| && srcs[i] == keys[k] && forall j :: 0 <= j < i ==> srcs[j] !in starts;
    assert flows[i].sourceRef == r.value;
  }

  // ---------------------------------------------------------------------------------------------
  // Reachability and the breadth-first traversal.

  /** `p` is a walk along sequence flows. */
  ghost predicate IsPath(g: FlowMap, p: seq<string>)
  {
    |p| >= 1 && forall i :: 0 <= i < |p| - 1 ==> p[i + 1] in Succ(g, p[i])
  }

  /** `t` can be reached from `s` by following sequence flows. */
  ghost predicate Reachable(g: FlowMap, s: string, t: string)
  {
    exists p :: IsPath(g, p) && p[0] == s && p[|p| - 1] == t
  }

  lemma ReachableStep(g: FlowMap, s: string, a: string, b: string)
    requires Reachable(g, s, a) && b in Succ(g, a)
    ensures Reachable(g, s, b)
  {
    var p :| IsPath(g, p) && p[0] == s && p[|p| - 1] == a;
    var q := p + [b];
    forall i | 0 <= i < |q| - 1
      ensures q[i + 1] in Succ(g, q[i])
    {
      if i < |p| - 1 {
        assert q[i] == p[i] && q[i + 1] == p[i + 1];
      }
    }
    assert IsPath(g, q);
  }

  /** A set that holds `s` and every successor of its members holds everything reachable from `s`. */
  lemma {:induction false} ClosedSetHoldsReachable(g: FlowMap, s: string, closed: set<string>, t: string)
    requires s in closed
    requires forall v, w :: v in closed && w in Succ(g, v) ==> w in closed
    requires Reachable(g, s, t)
    ensures t in closed
  {
    var p :| IsPath(g, p) && p[0] == s && p[|p| - 1] == t;
    var n := 0;
    while n < |p| - 1
      invariant 0 <= n < |p| && p[n] in closed
    {
      assert p[n + 1] in Succ(g, p[n]);
      n := n + 1;
    }
  }

  /** The id is that of a recognised gateway element (`isGateway`). */
  predicate IsGateway(gateways: seq<GatewayElement>, id: string)
  {
    exists i :: 0 <= i < |gateways| && gateways[i].tag in GatewayTags && gateways[i].id == id
  }

  /** Every node a sequence flow can lead to, and the start node. */
  ghost function Universe(g: FlowMap, start: string): set<string>
  {
    {start} + set k, j | k in g.targets && 0 <= j < |g.targets[k]| :: g.targets[k][j]
  }

  /** Every successor of a visited node is visited or still queued. */
  ghost predicate Closed(g: FlowMap, visited: set<string>, queue: seq<string>)
  {
    forall v, w :: v in visited && w in Succ(g, v) ==> w in visited || w in queue
  }

  /** Every node in `nodes` is reachable from `start` and lies in its universe. */
  ghost predicate Discovered(g: FlowMap, start: string, nodes: set<string>)
  {
    forall v :: v in nodes ==> v in Universe(g, start) && Reachable(g, start, v)
  }

  /** Every queued node is reachable from `start` and lies in its universe. */
  ghost predicate QueueDiscovered(g: FlowMap, start: string, queue: seq<string>)
  {
    forall v :: v in queue ==> v in Universe(g, start) && Reachable(g, start, v)
  }

  /** The successors of a discovered node are discovered. */
  lemma SuccessorsDiscovered(g: FlowMap, start: string, current: string)
    requires current in Universe(g, start) && Reachable(g, start, current)
    ensures QueueDiscovered(g, start, Succ(g, current))
  {
    forall w | w in Succ(g, current)
      ensures w in Universe(g, start) && Reachable(g, start, w)
    {
      ReachableStep(g, start, current, w);
      var j :| 0 <= j < |g.targets[current]| && g.targets[current][j] == w;
    }
  }

  /** Dequeuing a node that is already visited keeps the visited set closed. */
  lemma SkipKeepsClosed(g: FlowMap, visited: set<string>, current: string, rest: seq<string>)
    requires Closed(g, visited, [current] + rest) && current in visited
    ensures Closed(g, visited, rest)
  {
  }

  /** Visiting a node and queuing its successors keeps the visited set closed. */
  lemma VisitKeepsClosed(g: FlowMap, visited: set<string>, current: string, rest: seq<string>)
    requires Closed(g, visited, [current] + rest)
    ensures Closed(g, visited + {current}, rest + Succ(g, current))
  {
  }

  /** What the traversal keeps true between iterations: everything visited or queued was
      discovered from `start`, `start` is visited or at the head of the queue, and the visited set
      is closed up to the queue. */
  ghost predicate Traversal(g: FlowMap, start: string, visited: set<string>, queue: seq<string>)
  {
    && Discovered(g, start, visited)
    && QueueDiscovered(g, start, queue)
    && (start in visited || (queue != [] && queue[0] == start))
    && Closed(g, visited, queue)
  }

  /** Dequeuing an already visited node keeps the traversal invariant. */
  lemma SkipStep(g: FlowMap, start: string, visited: set<string>, current: string, rest: seq<string>)
    requires Traversal(g, start, visited, [current] + rest) && current in visited
    ensures Traversal(g, start, visited, rest)
  {
    SkipKeepsClosed(g, visited, current, rest);
    assert forall v :: v in rest ==> v in [current] + rest;
  }

  /** Visiting a dequeued node and queuing its successors keeps the traversal invariant. */
  lemma VisitStep(g: FlowMap, start: string, visited: set<string>, current: string, rest: seq<string>)
    requires Traversal(g, start, visited, [current] + rest)
    ensures Traversal(g, start, visited + {current}, rest + Succ(g, current))
  {
    assert current in [current] + rest;
    assert forall v :: v in rest ==> v in [current] + rest;
    SuccessorsDiscovered(g, start, current);
    VisitKeepsClosed(g, visited, current, rest);
  }

  /** The emitted order holds exactly the visited task keys that are not gateways. */
  ghost predicate OrderOfVisited(order: seq<string>, visited: set<string>, tasks: map<string, string>,
                                 gateways: seq<GatewayElement>)
  {
    forall t :: t in order <==> t in visited && t in tasks && !IsGateway(gateways, t)
  }

  /** Visiting a new node and emitting it when it is a task key and not a gateway keeps the order
      matching the visited set, each id once. */
  lemma OrderStep(order: seq<string>, visited: set<string>, tasks: map<string, string>,
                  gateways: seq<GatewayElement>, current: string)
    requires OrderOfVisited(order, visited, tasks, gateways) && NoDuplicates(order)
    requires current !in visited
    ensures var emitted := if !IsGateway(gateways, current) && current in tasks then order + [current] else order;
            OrderOfVisited(emitted, visited + {current}, tasks, gateways) && NoDuplicates(emitted)
  {
  }

  /** `determineTaskOrder`: a breadth-first traversal from `start` over the flow graph with a
      visited set; tasks are emitted when first dequeued, gateways and other nodes only pass the
      traversal on. The result lists, once each, exactly the reachable ids that are task keys and
      not gateways. */
  method DetermineTaskOrder(tasks: map<string, string>, g: FlowMap, gateways: seq<GatewayElement>, start: string)
    returns (order: seq<string>)
    ensures forall t :: t in order <==> Reachable(g, start, t) && t in tasks && !IsGateway(gateways, t)
    ensures NoDuplicates(order)
  {
    order := [];
    var visited: set<string> := {};
    var queue := [start];
    ghost var universe := Universe(g, start);
    assert IsPath(g, [start]);
    while queue != []
      invariant Traversal(g, start, visited, queue)
      invariant OrderOfVisited(order, visited, tasks, gateways)
      invariant NoDuplicates(order)
      decreases |universe - visited|, |queue|
    {
      var current := queue[0];
      ghost var rest := queue[1..];
      assert queue == [current] + rest;
      queue := queue[1..];
      if current in visited {
        SkipStep(g, start, visited, current, rest);
        continue;
      }
      assert current in universe;
      assert universe - (visited + {current}) < universe - visited;
      VisitStep(g, start, visited, current, rest);
      OrderStep(order, visited, tasks, gateways, current);
      visited := visited + {current};
      if IsGateway(gateways, current) {
        queue := queue + Succ(g, current);
        continue;
      }
      if current in tasks {
        order := order + [current];
      }
      queue := queue + Succ(g, current);
    }
    TraversalCoversReachable(g, start, visited);
  }

  /** When the queue runs dry, the visited set is exactly what is reachable from `start`. */
  lemma TraversalCoversReachable(g: FlowMap, start: string, visited: set<string>)
    requires start in visited && Closed(g, visited, []) && Discovered(g, start, visited)
    ensures forall t :: t in visited <==> Reachable(g, start, t)
  {
    forall t | Reachable(g, start, t)
      ensures t in visited
    {
      ClosedSetHoldsReachable(g, start, visited, t);
    }
  }

  /** The error `loadTaskOrder` raises (`error(...)` throws an `IllegalStateException`). */
  datatype BpmnError = IllegalState(message: string)

  /** `loadTaskOrder` on a loaded document: fails when no sequence flow leaves a start event, and
      otherwise lists, once each, the collected tasks that are reachable from the start node and
      are not gateways. */
  method LoadTaskOrder(doc: Document) returns (r: Result<seq<string>, BpmnError>)
    ensures r.Failure? <==> forall i :: 0 <= i < |doc.sequenceFlows| ==> doc.sequenceFlows[i].sourceRef !in doc.startEvents
    ensures r.Failure? ==> r.error == IllegalState("No valid start task found in BPMN")
    ensures r.Success? ==>
              var g := ExtractSequenceFlows(doc.sequenceFlows);
              var start := FindStartTask(doc.startEvents, g);
              && start.Some?
              && NoDuplicates(r.value)
              && forall t :: t in r.value <==>
                   Reachable(g, start.value, t) && IsCollectedTask(doc.activities, t) && !IsGateway(doc.gateways, t)
  {
    var tasks := ExtractAllTasks(doc.activities);
    var g := ExtractSequenceFlows(doc.sequenceFlows);
    var start := FindStartTask(doc.startEvents, g);
    NoStartTaskIffNoStartFlow(doc.startEvents, doc.sequenceFlows);
    if start.None? {
      return Failure(IllegalState("No valid start task found in BPMN"));
    }
    var order := DetermineTaskOrder(tasks, g, doc.gateways, start.value);
    return Success(order);
  }
}
