/** The Sankey synthesiser: turns the task order and the per-task material requirements into the
    nodes and links of a Sankey diagram. */
module SankeyService {
  import opened Wrappers
  import opened Seqs
  import opened Strings
  import opened Materials
  import opened Sankey

  // ---------------------------------------------------------------------------------------------
  // Ordering the nodes: `sortedBy` on the colour, a stable sort.

  /** No node is followed by one of a smaller colour. */
  ghost predicate SortedByColor(s: seq<SankeyNode>)
  {
    forall i, j :: 0 <= i < j < |s| ==> !StrLess(s[j].color, s[i].color)
  }

  /** The nodes of colour `c`, in order. */
  function WithColor(s: seq<SankeyNode>, c: string): (r: seq<SankeyNode>)
    ensures forall x :: x in r ==> x in s && x.color == c
  {
    if s == [] then []
    else (if s[0].color == c then [s[0]] else []) + WithColor(s[1..], c)
  }

  /** Puts `x` after every node whose colour is not greater than its own. */
  function Insert(x: SankeyNode, s: seq<SankeyNode>): seq<SankeyNode>
  {
    if s == [] then [x]
    else if StrLess(x.color, s[0].color) then [x] + s
    else [s[0]] + Insert(x, s[1..])
  }

  /** `sortedBy { it.color }`: a stable insertion sort. */
  function SortByColor(s: seq<SankeyNode>): seq<SankeyNode>
  {
    if s == [] then [] else Insert(s[|s| - 1], SortByColor(s[..|s| - 1]))
  }

  /** A sequence without nodes of colour `c` has none to filter. */
  lemma {:induction false} WithColorNone(s: seq<SankeyNode>, c: string)
    requires forall i :: 0 <= i < |s| ==> s[i].color != c
    ensures WithColor(s, c) == []
  {
    if s != [] {
      WithColorNone(s[1..], c);
    }
  }

  /** In a sorted sequence no node has a colour smaller than that of the first node. */
  lemma SortedHeadIsLeast(s: seq<SankeyNode>, c: string)
    requires SortedByColor(s) && s != [] && StrLess(c, s[0].color)
    ensures WithColor(s, c) == []
  {
    StrLessIrreflexive(c);
    StrLessIrreflexive(s[0].color);
    forall i | 0 <= i < |s|
      ensures s[i].color != c
    {
      StrLessBeforeNotLess(c, s[0].color, s[i].color);
    }
    WithColorNone(s, c);
  }

  /** Inserting adds exactly `x`. */
  lemma {:induction false} InsertMultiset(x: SankeyNode, s: seq<SankeyNode>)
    ensures multiset(Insert(x, s)) == multiset(s) + multiset{x}
  {
    if s != [] && !StrLess(x.color, s[0].color) {
      InsertMultiset(x, s[1..]);
      assert s == [s[0]] + s[1..];
    }
  }

  /** Inserting into a sorted sequence keeps it sorted. */
  lemma {:induction false} InsertSorted(x: SankeyNode, s: seq<SankeyNode>)
    requires SortedByColor(s)
    ensures SortedByColor(Insert(x, s))
  {
    if s == [] {
    } else if StrLess(x.color, s[0].color) {
      PrependSmaller(x, s);
    } else {
      InsertSorted(x, s[1..]);
      InsertMultiset(x, s[1..]);
      PrependNotGreater(s[0], Insert(x, s[1..]), x, s[1..]);
    }
  }

  /** A node of smaller colour than the head of a sorted sequence may go in front. */
  lemma PrependSmaller(x: SankeyNode, s: seq<SankeyNode>)
    requires SortedByColor(s) && s != [] && StrLess(x.color, s[0].color)
    ensures SortedByColor([x] + s)
  {
    var r := [x] + s;
    StrLessIrreflexive(s[0].color);
    forall j | 1 <= j < |r|
      ensures !StrLess(r[j].color, x.color)
    {
      assert r[j] == s[j - 1];
      StrLessBeforeNotLess(x.color, s[0].color, r[j].color);
      StrLessAsymmetric(x.color, r[j].color);
    }
    assert forall i, j :: 1 <= i < j < |r| ==> r[i] == s[i - 1] && r[j] == s[j - 1];
  }

  /** The head of a sorted sequence may go in front of the sorted sequence that holds the rest of
      it and one node `x` not smaller than the head. */
  lemma PrependNotGreater(h: SankeyNode, u: seq<SankeyNode>, x: SankeyNode, t: seq<SankeyNode>)
    requires SortedByColor([h] + t) && SortedByColor(u)
    requires multiset(u) == multiset(t) + multiset{x} && !StrLess(x.color, h.color)
    ensures SortedByColor([h] + u)
  {
    var r := [h] + u;
    forall j | 1 <= j < |r|
      ensures !StrLess(r[j].color, h.color)
    {
      assert r[j] == u[j - 1];
      assert r[j] in multiset(u);
      if r[j] != x {
        assert r[j] in t;
        var k :| 0 <= k < |t| && t[k] == r[j];
        assert ([h] + t)[0] == h && ([h] + t)[k + 1] == r[j];
        assert !StrLess(([h] + t)[k + 1].color, ([h] + t)[0].color);
      }
    }
    assert forall i, j :: 1 <= i < j < |r| ==> r[i] == u[i - 1] && r[j] == u[j - 1];
  }

  /** Inserting into a sorted sequence puts `x` after every node of its colour. */
  lemma {:induction false} InsertWithColor(x: SankeyNode, s: seq<SankeyNode>, c: string)
    requires SortedByColor(s)
    ensures WithColor(Insert(x, s), c) == WithColor(s, c) + (if x.color == c then [x] else [])
  {
    if s == [] {
    } else if StrLess(x.color, s[0].color) {
      assert ([x] + s)[1..] == s;
      SortedHeadIsLeast(s, x.color);
    } else {
      var t := s[1..];
      InsertWithColor(x, t, c);
      assert ([s[0]] + Insert(x, t))[1..] == Insert(x, t);
    }
  }

  /** The nodes of colour `c` in a sequence grown at the end. */
  lemma {:induction false} WithColorSnoc(s: seq<SankeyNode>, x: SankeyNode, c: string)
    ensures WithColor(s + [x], c) == WithColor(s, c) + (if x.color == c then [x] else [])
  {
    if s != [] {
      assert (s + [x])[1..] == s[1..] + [x];
      WithColorSnoc(s[1..], x, c);
    }
  }

  /** The sort yields a sorted permutation of its input that keeps the input order among the nodes
      of each colour. */
  lemma {:induction false} SortByColorProperties(s: seq<SankeyNode>)
    ensures SortedByColor(SortByColor(s))
    ensures multiset(SortByColor(s)) == multiset(s)
    ensures forall c :: WithColor(SortByColor(s), c) == WithColor(s, c)
  {
    if s != [] {
      var init, x := s[..|s| - 1], s[|s| - 1];
      SortByColorProperties(init);
      InsertSorted(x, SortByColor(init));
      InsertMultiset(x, SortByColor(init));
      assert s == init + [x];
      forall c
        ensures WithColor(SortByColor(s), c) == WithColor(s, c)
      {
        InsertWithColor(x, SortByColor(init), c);
        WithColorSnoc(init, x, c);
      }
    }
  }

  // ---------------------------------------------------------------------------------------------
  // Classifying the materials.

  /** All requirements of all tasks, in order (`flatMap { it.requirements }`). */
  function AllRequirements(reqs: seq<TaskMaterialRequirements>): seq<MaterialRequirement>
  {
    if reqs == [] then [] else reqs[0].requirements + AllRequirements(reqs[1..])
  }

  /** A requirement is among all requirements exactly when some task lists it. */
  lemma {:induction false} AllRequirementsMembership(reqs: seq<TaskMaterialRequirements>, x: MaterialRequirement)
    ensures x in AllRequirements(reqs) <==> exists k :: 0 <= k < |reqs| && x in reqs[k].requirements
  {
    if reqs != [] {
      AllRequirementsMembership(reqs[1..], x);
      assert forall k :: 1 <= k < |reqs| ==> reqs[k] == reqs[1..][k - 1];
      if exists k :: 0 <= k < |reqs| && x in reqs[k].requirements {
        var k :| 0 <= k < |reqs| && x in reqs[k].requirements;
        if k > 0 {
          assert x in reqs[1..][k - 1].requirements;
        }
      }
    }
  }

  /** ASCII lower-casing of one character. */
  function LowerChar(c: char): char
  {
    if 'A' <= c <= 'Z' then (c as int + 32) as char else c
  }

  /** `lowercase()`, on the ASCII letters. */
  function Lowercase(s: string): (r: string)
    ensures |r| == |s| && forall i :: 0 <= i < |s| ==> r[i] == LowerChar(s[i])
  {
    seq(|s|, i requires 0 <= i < |s| => LowerChar(s[i]))
  }

  /** The material type names an intermediate product: `lowercase().trim() == "intermediate"`. */
  predicate IsIntermediateType(t: string)
  {
    Trim(Lowercase(t)) == "intermediate"
  }

  /** The distinct (name, type) pairs of the requirements. */
  function NameTypePairs(rs: seq<MaterialRequirement>): seq<(string, string)>
  {
    Distinct(seq(|rs|, i requires 0 <= i < |rs| => (rs[i].materialName, rs[i].materialType)))
  }

  /** The names of the pairs whose type the classifier `isIntermediate` accepts (`want`) or
      rejects (`!want`), in order. */
  function NamesOfKind(pairs: seq<(string, string)>, isIntermediate: string -> bool, want: bool): (r: seq<string>)
    ensures forall n :: n in r <==> exists i :: 0 <= i < |pairs| && pairs[i].0 == n && isIntermediate(pairs[i].1) == want
  {
    if pairs == [] then []
    else
      var rest := NamesOfKind(pairs[1..], isIntermediate, want);
      assert forall i :: 1 <= i < |pairs| ==> pairs[i] == pairs[1..][i - 1];
      (if isIntermediate(pairs[0].1) == want then [pairs[0].0] else []) + rest
  }

  /** The `partition` of the material names under a classifier of types: the distinct names used
      with an accepted type, and the distinct names used with a rejected type. */
  function PartitionBy(reqs: seq<TaskMaterialRequirements>, isIntermediate: string -> bool): (seq<string>, seq<string>)
  {
    var pairs := NameTypePairs(AllRequirements(reqs));
    (Distinct(NamesOfKind(pairs, isIntermediate, true)), Distinct(NamesOfKind(pairs, isIntermediate, false)))
  }

  /** The partition the synthesiser uses: intermediate names and the other names. */
  function Partition(reqs: seq<TaskMaterialRequirements>): (seq<string>, seq<string>)
  {
    PartitionBy(reqs, IsIntermediateType)
  }

  /** Under any classifier, a name is in a part exactly when some requirement uses it with a type
      of that part. */
  lemma PartitionByMembership(reqs: seq<TaskMaterialRequirements>, isIntermediate: string -> bool, name: string, want: bool)
    ensures name in (if want then PartitionBy(reqs, isIntermediate).0 else PartitionBy(reqs, isIntermediate).1) <==>
              exists r :: r in AllRequirements(reqs) && r.materialName == name && isIntermediate(r.materialType) == want
  {
    var rs := AllRequirements(reqs);
    var raw := seq(|rs|, i requires 0 <= i < |rs| => (rs[i].materialName, rs[i].materialType));
    var pairs := NameTypePairs(rs);
    assert forall p :: p in pairs <==> p in raw;
    if name in NamesOfKind(pairs, isIntermediate, want) {
      var i :| 0 <= i < |pairs| && pairs[i].0 == name && isIntermediate(pairs[i].1) == want;
      assert pairs[i] in raw;
      var k :| 0 <= k < |raw| && raw[k] == pairs[i];
      assert rs[k] in rs;
    }
    if exists r :: r in rs && r.materialName == name && isIntermediate(r.materialType) == want {
      var r :| r in rs && r.materialName == name && isIntermediate(r.materialType) == want;
      var k :| 0 <= k < |rs| && rs[k] == r;
      assert raw[k] in pairs;
      var i :| 0 <= i < |pairs| && pairs[i] == raw[k];
    }
  }

  /** Both lists are free of duplicates; a name is in the first exactly when some requirement uses
      it with an intermediate type, and in the second exactly when some requirement uses it with
      another type (so a name can be in both). */
  lemma PartitionMembership(reqs: seq<TaskMaterialRequirements>, name: string)
    ensures NoDuplicates(Partition(reqs).0) && NoDuplicates(Partition(reqs).1)
    ensures name in Partition(reqs).0 <==>
              exists r :: r in AllRequirements(reqs) && r.materialName == name && IsIntermediateType(r.materialType)
    ensures name in Partition(reqs).1 <==>
              exists r :: r in AllRequirements(reqs) && r.materialName == name && !IsIntermediateType(r.materialType)
  {
    PartitionByMembership(reqs, IsIntermediateType, name, true);
    PartitionByMembership(reqs, IsIntermediateType, name, false);
  }

  // ---------------------------------------------------------------------------------------------
  // The nodes.

  /** `firstOrNull { it.materialName == name }?.materialType`. */
  function FirstTypeOf(rs: seq<MaterialRequirement>, name: string): (r: Option<string>)
    ensures r.None? <==> forall i :: 0 <= i < |rs| ==> rs[i].materialName != name
    ensures r.Some? ==>
              exists i :: 0 <= i < |rs| && rs[i].materialName == name && rs[i].materialType == r.value &&
                          forall j :: 0 <= j < i ==> rs[j].materialName != name
  {
    if rs == [] then None
    else if rs[0].materialName == name then Some(rs[0].materialType)
    else
      var r := FirstTypeOf(rs[1..], name);
      assert forall i :: 1 <= i < |rs| ==> rs[i] == rs[1..][i - 1];
      assert r.Some? ==> exists i :: 0 <= i < |rs| && rs[i].materialName == name && rs[i].materialType == r.value &&
                                      forall j :: 0 <= j < i ==> rs[j].materialName != name by {
        if r.Some? {
          var i :| 0 <= i < |rs[1..]| && rs[1..][i].materialName == name && rs[1..][i].materialType == r.value &&
                   (forall j :: 0 <= j < i ==> rs[1..][j].materialName != name);
          assert rs[i + 1] == rs[1..][i];
          assert forall j :: 1 <= j < i + 1 ==> rs[j] == rs[1..][j - 1];
        }
      }
      r
  }

  /** The node of a material: labelled and identified by its name, coloured by the type of the first
      requirement carrying that name (`"default"` if none does). */
  function MaterialNode(all: seq<MaterialRequirement>, name: string): SankeyNode
  {
    var color := match FirstTypeOf(all, name) case Some(t) => t case None => "default";
    SankeyNode(name, name, color)
  }

  /** The node of the finished product, the sink of the diagram. */
  const FinishedGoodNode: SankeyNode := SankeyNode("Finished Good", "endEvent", "endEvent")

  /** The node of a task: no label, identified by the task id. */
  function TaskNode(taskId: string): SankeyNode
  {
    SankeyNode("", taskId, "task")
  }

  /** The material nodes (one per name in `others`, the non-intermediate names), the finished-good
      node, and one node per task of the task order, before sorting. */
  function Nodes(taskOrder: seq<string>, all: seq<MaterialRequirement>, others: seq<string>): seq<SankeyNode>
  {
    seq(|others|, i requires 0 <= i < |others| => MaterialNode(all, others[i]))
    + [FinishedGoodNode]
    + seq(|taskOrder|, i requires 0 <= i < |taskOrder| => TaskNode(taskOrder[i]))
  }

  /** Under any classifier, every name of either part is the name of some requirement. */
  lemma PartitionNamesAreUsed(reqs: seq<TaskMaterialRequirements>, isIntermediate: string -> bool, name: string, want: bool)
    requires name in (if want then PartitionBy(reqs, isIntermediate).0 else PartitionBy(reqs, isIntermediate).1)
    ensures exists k :: 0 <= k < |AllRequirements(reqs)| && AllRequirements(reqs)[k].materialName == name
  {
    PartitionByMembership(reqs, isIntermediate, name, want);
    var r :| r in AllRequirements(reqs) && r.materialName == name && isIntermediate(r.materialType) == want;
    var k :| 0 <= k < |AllRequirements(reqs)| && AllRequirements(reqs)[k] == r;
  }

  /** A material node always takes its colour from a requirement: the `"default"` fallback is never
      used, because every non-intermediate name comes from some requirement. */
  lemma MaterialNodeColor(reqs: seq<TaskMaterialRequirements>, name: string)
    requires name in Partition(reqs).1
    ensures FirstTypeOf(AllRequirements(reqs), name).Some?
    ensures MaterialNode(AllRequirements(reqs), name).color == FirstTypeOf(AllRequirements(reqs), name).value
  {
    PartitionNamesAreUsed(reqs, IsIntermediateType, name, false);
  }

  /** The node list position by position: the material nodes, the finished-good node, the task
      nodes. */
  lemma NodesAt(taskOrder: seq<string>, all: seq<MaterialRequirement>, others: seq<string>)
    ensures var nodes := Nodes(taskOrder, all, others);
            && |nodes| == |others| + 1 + |taskOrder|
            && (forall i :: 0 <= i < |others| ==> nodes[i] == MaterialNode(all, others[i]))
            && nodes[|others|] == FinishedGoodNode
            && (forall i :: 0 <= i < |taskOrder| ==> nodes[|others| + 1 + i] == TaskNode(taskOrder[i]))
  {
  }

  /** The node ids are exactly the non-intermediate material names, `endEvent` and the task ids,
      and there is one node per material name, one finished-good node and one node per task. */
  lemma NodeIds(taskOrder: seq<string>, all: seq<MaterialRequirement>, others: seq<string>, id: string)
    ensures (exists n :: n in Nodes(taskOrder, all, others) && n.id == id) <==>
              id in others || id == "endEvent" || id in taskOrder
    ensures |Nodes(taskOrder, all, others)| == |others| + 1 + |taskOrder|
  {
    var nodes := Nodes(taskOrder, all, others);
    NodesAt(taskOrder, all, others);
    if id in others {
      var i :| 0 <= i < |others| && others[i] == id;
      assert nodes[i] in nodes && nodes[i].id == id;
    }
    if id in taskOrder {
      var i :| 0 <= i < |taskOrder| && taskOrder[i] == id;
      assert nodes[|others| + 1 + i] in nodes && nodes[|others| + 1 + i].id == id;
    }
    assert nodes[|others|] in nodes;
    if exists n :: n in nodes && n.id == id {
      var n :| n in nodes && n.id == id;
      var i :| 0 <= i < |nodes| && nodes[i] == n;
      if i < |others| {
        assert others[i] in others;
      } else if i > |others| {
        assert taskOrder[i - |others| - 1] in taskOrder;
      }
    }
  }

  // ---------------------------------------------------------------------------------------------
  // The links.

  /** The requirement lists of the tasks in the task order (`filter { it.taskId in taskOrder }`),
      in their own order. */
  function Entries(reqs: seq<TaskMaterialRequirements>, taskOrder: seq<string>): (r: seq<TaskMaterialRequirements>)
    ensures forall e :: e in r <==> e in reqs && e.taskId in taskOrder
  {
    if reqs == [] then []
    else
      assert forall e :: e in reqs <==> e == reqs[0] || e in reqs[1..];
      (if reqs[0].taskId in taskOrder then [reqs[0]] else []) + Entries(reqs[1..], taskOrder)
  }

  /** The filter works entry by entry: it distributes over concatenation, and (`EntriesSingle`)
      keeps a single entry exactly when its task is in the task order. These two facts determine
      it, so it keeps the requirements-list order and drops only the entries of other tasks. */
  lemma {:induction false} EntriesAppend(a: seq<TaskMaterialRequirements>, b: seq<TaskMaterialRequirements>, taskOrder: seq<string>)
    ensures Entries(a + b, taskOrder) == Entries(a, taskOrder) + Entries(b, taskOrder)
  {
    if a == [] {
      assert a + b == b;
    } else {
      assert (a + b)[0] == a[0] && (a + b)[1..] == a[1..] + b;
      EntriesAppend(a[1..], b, taskOrder);
    }
  }

  /** A single entry is kept exactly when its task is in the task order. */
  lemma EntriesSingle(e: TaskMaterialRequirements, taskOrder: seq<string>)
    ensures Entries([e], taskOrder) == if e.taskId in taskOrder then [e] else []
  {
    assert [e][1..] == [];
  }

  /** The link of one requirement of task `target`: from the material itself, or, for an
      intermediate material, from `prev`, the task whose entry was handled before. */
  function LinkFor(r: MaterialRequirement, target: string, prev: string, intermediates: seq<string>): SankeyLink
  {
    SankeyLink(
      r.materialName,
      if r.materialName in intermediates then prev else r.materialName,
      target,
      r.requiredQuantity,
      r.unitOfMeasurement)
  }

  /** The links of one entry, one per requirement, in order. */
  function EntryLinks(e: TaskMaterialRequirements, prev: string, intermediates: seq<string>): (r: seq<SankeyLink>)
    ensures |r| == |e.requirements|
    ensures forall j :: 0 <= j < |r| ==> r[j] == LinkFor(e.requirements[j], e.taskId, prev, intermediates)
  {
    seq(|e.requirements|, j requires 0 <= j < |e.requirements| => LinkFor(e.requirements[j], e.taskId, prev, intermediates))
  }

  /** The links of the entries, where `prev` is the task of the entry handled before the first one
      and each entry becomes the `prev` of the next. */
  function ChainedLinks(entries: seq<TaskMaterialRequirements>, prev: string, intermediates: seq<string>): seq<SankeyLink>
  {
    if entries == [] then []
    else EntryLinks(entries[0], prev, intermediates) + ChainedLinks(entries[1..], entries[0].taskId, intermediates)
  }

  /** The inner `forEach` of the link construction: adds the links of one entry, in order. */
  method AddEntryLinks(links: seq<SankeyLink>, taskReq: TaskMaterialRequirements, previousTask: string, intermediates: seq<string>)
    returns (links': seq<SankeyLink>)
    ensures links' == links + EntryLinks(taskReq, previousTask, intermediates)
  {
    links' := links;
    for j := 0 to |taskReq.requirements|
      invariant links' == links + EntryLinks(taskReq, previousTask, intermediates)[..j]
    {
      var requirement := taskReq.requirements[j];
      var materialName := requirement.materialName;
      var link := SankeyLink(
        materialName,
        if materialName in intermediates then previousTask else materialName,
        taskReq.taskId,
        requirement.requiredQuantity,
        requirement.unitOfMeasurement);
      links' := links' + [link];
      assert EntryLinks(taskReq, previousTask, intermediates)[..j + 1]
          == EntryLinks(taskReq, previousTask, intermediates)[..j] + [link];
    }
    assert EntryLinks(taskReq, previousTask, intermediates)[..|taskReq.requirements|]
        == EntryLinks(taskReq, previousTask, intermediates);
  }

  /** The link construction of `generateSankeyData`: `previousTask` starts as `""` and becomes the
      task of each entry once its links are added. */
  method BuildLinks(reqs: seq<TaskMaterialRequirements>, taskOrder: seq<string>, intermediates: seq<string>)
    returns (links: seq<SankeyLink>)
    ensures links == ChainedLinks(Entries(reqs, taskOrder), "", intermediates)
  {
    var entries := Entries(reqs, taskOrder);
    links := [];
    var previousTask := "";
    assert entries[0..] == entries;
    for k := 0 to |entries|
      invariant links + ChainedLinks(entries[k..], previousTask, intermediates) == ChainedLinks(entries, "", intermediates)
    {
      var taskReq := entries[k];
      ghost var before := links;
      links := AddEntryLinks(links, taskReq, previousTask, intermediates);
      ChainedLinksStep(entries, k, previousTask, intermediates, before, links);
      previousTask := taskReq.taskId;
    }
    assert entries[|entries|..] == [];
  }

  /** Adding the links of the `k`-th entry and moving `prev` to its task leaves the links still to
      come, and so the whole chain, unchanged. */
  lemma ChainedLinksStep(entries: seq<TaskMaterialRequirements>, k: nat, prev: string, intermediates: seq<string>,
                         before: seq<SankeyLink>, after: seq<SankeyLink>)
    requires k < |entries|
    requires after == before + EntryLinks(entries[k], prev, intermediates)
    ensures after + ChainedLinks(entries[k + 1..], entries[k].taskId, intermediates)
         == before + ChainedLinks(entries[k..], prev, intermediates)
  {
    assert entries[k..][0] == entries[k] && entries[k..][1..] == entries[k + 1..];
  }

  /** The task handled before the `k`-th entry: `""` for the first. */
  function PrevTask(entries: seq<TaskMaterialRequirements>, k: nat): string
    requires k < |entries|
  {
    if k == 0 then "" else entries[k - 1].taskId
  }

  /** All links of the entries from the `k`-th on, each entry with its `PrevTask`. */
  function LinksFrom(entries: seq<TaskMaterialRequirements>, k: nat, intermediates: seq<string>): seq<SankeyLink>
    requires k <= |entries|
    decreases |entries| - k
  {
    if k == |entries| then []
    else EntryLinks(entries[k], PrevTask(entries, k), intermediates) + LinksFrom(entries, k + 1, intermediates)
  }

  /** The chained links are the links of each entry in turn, an intermediate material of entry `k`
      flowing from the task of entry `k - 1` (from `""` for the first entry). */
  lemma {:induction false} ChainedLinksByPosition(entries: seq<TaskMaterialRequirements>, k: nat, intermediates: seq<string>)
    requires k <= |entries|
    ensures ChainedLinks(entries[k..], if k == 0 then "" else entries[k - 1].taskId, intermediates)
         == LinksFrom(entries, k, intermediates)
    decreases |entries| - k
  {
    if k < |entries| {
      ChainedLinksByPosition(entries, k + 1, intermediates);
      assert entries[k..][1..] == entries[k + 1..];
    }
  }

  /** Every chained link goes to the task of an entry, carries a requirement of that entry (its
      material, quantity and unit), and comes from the material itself, or, for an intermediate
      material, from `prev` or the task of an entry. */
  lemma {:induction false} ChainedLinkEnds(entries: seq<TaskMaterialRequirements>, prev: string, intermediates: seq<string>)
    ensures forall l :: l in ChainedLinks(entries, prev, intermediates) ==>
              && (exists k, j :: 0 <= k < |entries| && 0 <= j < |entries[k].requirements| &&
                   l.target == entries[k].taskId && l.material == entries[k].requirements[j].materialName &&
                   l.value == entries[k].requirements[j].requiredQuantity &&
                   l.unit == entries[k].requirements[j].unitOfMeasurement)
              && (l.material !in intermediates ==> l.source == l.material)
              && (l.material in intermediates ==> l.source == prev || exists k :: 0 <= k < |entries| && l.source == entries[k].taskId)
  {
    if entries != [] {
      var e := entries[0];
      ChainedLinkEnds(entries[1..], e.taskId, intermediates);
      forall l | l in ChainedLinks(entries, prev, intermediates)
        ensures exists k, j :: 0 <= k < |entries| && 0 <= j < |entries[k].requirements| &&
                  l.target == entries[k].taskId && l.material == entries[k].requirements[j].materialName &&
                  l.value == entries[k].requirements[j].requiredQuantity &&
                  l.unit == entries[k].requirements[j].unitOfMeasurement
        ensures l.material in intermediates ==> l.source == prev || exists k :: 0 <= k < |entries| && l.source == entries[k].taskId
      {
        if l in EntryLinks(e, prev, intermediates) {
          var j :| 0 <= j < |e.requirements| && EntryLinks(e, prev, intermediates)[j] == l;
          assert l.target == entries[0].taskId;
        } else {
          assert l in ChainedLinks(entries[1..], e.taskId, intermediates);
          var k, j :| 0 <= k < |entries[1..]| && 0 <= j < |entries[1..][k].requirements| &&
                      l.target == entries[1..][k].taskId && l.material == entries[1..][k].requirements[j].materialName &&
                      l.value == entries[1..][k].requirements[j].requiredQuantity &&
                      l.unit == entries[1..][k].requirements[j].unitOfMeasurement;
          assert entries[1..][k] == entries[k + 1];
          if l.material in intermediates && l.source != e.taskId {
            var k' :| 0 <= k' < |entries[1..]| && l.source == entries[1..][k'].taskId;
            assert entries[1..][k'] == entries[k' + 1];
          }
        }
      }
    }
  }

  /** The number of requirements of the entries. */
  function RequirementCount(entries: seq<TaskMaterialRequirements>): nat
  {
    if entries == [] then 0 else |entries[0].requirements| + RequirementCount(entries[1..])
  }

  /** Exactly one link per requirement. */
  lemma {:induction false} ChainedLinksCount(entries: seq<TaskMaterialRequirements>, prev: string, intermediates: seq<string>)
    ensures |ChainedLinks(entries, prev, intermediates)| == RequirementCount(entries)
  {
    if entries != [] {
      ChainedLinksCount(entries[1..], entries[0].taskId, intermediates);
    }
  }

  // ---------------------------------------------------------------------------------------------
  // The finished good.

  /** Some requirement list belongs to `taskId` (`any { it.taskId == taskId }`). */
  predicate HasEntry(reqs: seq<TaskMaterialRequirements>, taskId: string)
  {
    exists k :: 0 <= k < |reqs| && reqs[k].taskId == taskId
  }

  /** `taskOrder[i]` has a requirement list and no later task of the order has one. */
  ghost predicate LastConsuming(taskOrder: seq<string>, reqs: seq<TaskMaterialRequirements>, i: int)
    requires 0 <= i < |taskOrder|
  {
    HasEntry(reqs, taskOrder[i]) && forall j :: i < j < |taskOrder| ==> !HasEntry(reqs, taskOrder[j])
  }

  /** `findLastMaterialConsumingTask`: the last task of the task order that has a requirement list
      (even an empty one), or none when no task has one. */
  function FindLastMaterialConsumingTask(taskOrder: seq<string>, reqs: seq<TaskMaterialRequirements>): (r: Option<string>)
    ensures r.None? <==> forall i :: 0 <= i < |taskOrder| ==> !HasEntry(reqs, taskOrder[i])
    ensures r.Some? ==> exists i :: 0 <= i < |taskOrder| && taskOrder[i] == r.value && LastConsuming(taskOrder, reqs, i)
  {
    if taskOrder == [] then None
    else
      var n := |taskOrder| - 1;
      var last := taskOrder[n];
      if HasEntry(reqs, last) then
        assert LastConsuming(taskOrder, reqs, n);
        Some(last)
      else
        var init := taskOrder[..n];
        var r := FindLastMaterialConsumingTask(init, reqs);
        assert forall i :: 0 <= i < n ==> init[i] == taskOrder[i];
        assert r.Some? ==> exists i :: 0 <= i < |taskOrder| && taskOrder[i] == r.value && LastConsuming(taskOrder, reqs, i) by {
          if r.Some? {
            var i :| 0 <= i < n && init[i] == r.value && LastConsuming(init, reqs, i);
            assert LastConsuming(taskOrder, reqs, i);
          }
        }
        r
  }

  /** The link from the last material-consuming task to the finished good. */
  function FinishLink(taskId: string): SankeyLink
  {
    SankeyLink("Finished Good", taskId, "endEvent", 1.0, None)
  }

  // ---------------------------------------------------------------------------------------------
  // The diagram.

  /** The diagram for a task order and the per-task requirements: the sorted nodes, the chained
      links, and the finishing link when some task of the order has a requirement list. */
  function SankeyDataOf(taskOrder: seq<string>, reqs: seq<TaskMaterialRequirements>): SankeyData
  {
    var parts := Partition(reqs);
    var chained := ChainedLinks(Entries(reqs, taskOrder), "", parts.0);
    SankeyData(
      SortByColor(Nodes(taskOrder, AllRequirements(reqs), parts.1)),
      match FindLastMaterialConsumingTask(taskOrder, reqs)
      case Some(t) => chained + [FinishLink(t)]
      case None => chained)
  }

  /** `generateSankeyData`, given the task order and the extracted requirements. */
  method GenerateSankeyData(taskOrder: seq<string>, listTaskRequirements: seq<TaskMaterialRequirements>)
    returns (data: SankeyData)
    ensures data == SankeyDataOf(taskOrder, listTaskRequirements)
  {
    var (intermediateMaterialRequirements, materialRequirements) := Partition(listTaskRequirements);
    var nodes := Nodes(taskOrder, AllRequirements(listTaskRequirements), materialRequirements);
    var links := BuildLinks(listTaskRequirements, taskOrder, intermediateMaterialRequirements);
    var lastMaterialConsumingTask := FindLastMaterialConsumingTask(taskOrder, listTaskRequirements);
    if lastMaterialConsumingTask.Some? {
      links := links + [FinishLink(lastMaterialConsumingTask.value)];
    }
    data := SankeyData(SortByColor(nodes), links);
  }

  /** A material name that is not an intermediate one belongs to a material node. */
  lemma NonIntermediateNameIsOther(reqs: seq<TaskMaterialRequirements>, k: nat, j: nat)
    requires k < |reqs| && j < |reqs[k].requirements|
    requires reqs[k].requirements[j].materialName !in Partition(reqs).0
    ensures reqs[k].requirements[j].materialName in Partition(reqs).1
  {
    var r := reqs[k].requirements[j];
    AllRequirementsMembership(reqs, r);
    PartitionMembership(reqs, r.materialName);
  }

  /** A node of the unsorted list is a node of the diagram. */
  lemma SortedNodesKeepIds(nodes: seq<SankeyNode>, id: string)
    requires exists n :: n in nodes && n.id == id
    ensures exists n :: n in SortByColor(nodes) && n.id == id
  {
    var n :| n in nodes && n.id == id;
    SortByColorProperties(nodes);
    assert n in multiset(SortByColor(nodes));
  }

  /** Every link of the diagram goes to a node of the diagram, and comes from a material node, from
      a task of the task order, or from the empty sentinel `""` (the first intermediate link). */
  lemma LinksResolve(taskOrder: seq<string>, reqs: seq<TaskMaterialRequirements>)
    ensures var d := SankeyDataOf(taskOrder, reqs);
            forall l :: l in d.links ==>
              && (exists n :: n in d.nodes && n.id == l.target)
              && (l.source in Partition(reqs).1 || l.source in taskOrder || l.source == "")
  {
    var d := SankeyDataOf(taskOrder, reqs);
    var parts := Partition(reqs);
    var entries := Entries(reqs, taskOrder);
    var unsorted := Nodes(taskOrder, AllRequirements(reqs), parts.1);
    var chained := ChainedLinks(entries, "", parts.0);
    ChainedLinkEnds(entries, "", parts.0);
    forall l | l in d.links
      ensures exists n :: n in d.nodes && n.id == l.target
      ensures l.source in parts.1 || l.source in taskOrder || l.source == ""
    {
      if l in chained {
        var k, j :| 0 <= k < |entries| && 0 <= j < |entries[k].requirements| &&
                    l.target == entries[k].taskId && l.material == entries[k].requirements[j].materialName &&
                    l.value == entries[k].requirements[j].requiredQuantity;
        assert entries[k] in entries;
        NodeIds(taskOrder, AllRequirements(reqs), parts.1, l.target);
        SortedNodesKeepIds(unsorted, l.target);
        if l.material !in parts.0 {
          var m :| 0 <= m < |reqs| && reqs[m] == entries[k];
          NonIntermediateNameIsOther(reqs, m, j);
        } else if l.source != "" {
          var k' :| 0 <= k' < |entries| && l.source == entries[k'].taskId;
          assert entries[k'] in entries;
        }
      } else {
        var t := FindLastMaterialConsumingTask(taskOrder, reqs).value;
        assert l == FinishLink(t);
        NodeIds(taskOrder, AllRequirements(reqs), parts.1, "endEvent");
        SortedNodesKeepIds(unsorted, "endEvent");
      }
    }
  }

  /** One link per requirement of the task-order entries, plus the finishing link exactly when a
      task of the task order has a requirement list; that link is the `Finished Good` link of value
      1 and no unit, from the last such task to `endEvent`. */
  lemma LinkCountAndFinish(taskOrder: seq<string>, reqs: seq<TaskMaterialRequirements>)
    ensures var d := SankeyDataOf(taskOrder, reqs);
            var sinks := exists i :: 0 <= i < |taskOrder| && HasEntry(reqs, taskOrder[i]);
            && |d.links| == RequirementCount(Entries(reqs, taskOrder)) + (if sinks then 1 else 0)
            && (sinks ==>
                  && d.links[|d.links| - 1] == SankeyLink("Finished Good", d.links[|d.links| - 1].source, "endEvent", 1.0, None)
                  && exists i :: 0 <= i < |taskOrder| && taskOrder[i] == d.links[|d.links| - 1].source &&
                                 HasEntry(reqs, taskOrder[i]) &&
                                 forall j :: i < j < |taskOrder| ==> !HasEntry(reqs, taskOrder[j]))
  {
    ChainedLinksCount(Entries(reqs, taskOrder), "", Partition(reqs).0);
  }

  /** The nodes of the diagram are the constructed nodes sorted by colour, stably. */
  lemma NodesOrder(taskOrder: seq<string>, reqs: seq<TaskMaterialRequirements>)
    ensures var d := SankeyDataOf(taskOrder, reqs);
            var unsorted := Nodes(taskOrder, AllRequirements(reqs), Partition(reqs).1);
            && SortedByColor(d.nodes)
            && multiset(d.nodes) == multiset(unsorted)
            && forall c :: WithColor(d.nodes, c) == WithColor(unsorted, c)
  {
    SortByColorProperties(Nodes(taskOrder, AllRequirements(reqs), Partition(reqs).1));
  }
}
