# PRiME MaterialFlow core, modelled in Dafny

This project models the three chained transformations in the Kotlin backend of PRiME MaterialFlow. Together they turn a BPMN 2.0 process document into the node/link graph of a Sankey diagram of material flows.

- **Task order** (`BpmnProcessor`):
  - It collects the task elements of the five activity kinds and their display names.
  - It groups the sequence flows by source.
  - It picks the first flow source that is a start event.
  - It then runs a breadth-first traversal. The traversal emits each reachable task id once, in first-visit order. It passes through gateways and other nodes without emitting them.
  - If no flow source is a start event, loading fails with `No valid start task found in BPMN`.
- **Requirement extraction** (`MaterialService`):
  - It normalises the text of each text annotation in the order the code gives. This replaces the `&nbsp;` entity and no-break spaces by a space, then deletes byte-order marks, turns CR LF into LF and strips trailing blanks from lines. Deleting byte-order marks last can form a new `&nbsp;`; "## Findings" records this, and `CleanInputText` is the reordered cleaner that avoids it.
  - It parses the text with a JSON-then-YAML policy.
  - It folds the associations: each association appends its annotation's requirement list to the task its `targetRef` names.
- **Flow synthesis** (`SankeyService`):
  - It partitions material names into intermediate and other materials.
  - It builds one node per other material, one "Finished Good" sink node and one node per task.
  - It builds one link per requirement, in requirements-list order. An intermediate material is chained from the previously processed task through the `previousTask` accumulator.
  - It adds one link from the last material-consuming task to the sink.
  - Finally it sorts the nodes stably by their third field.

Files:

- `Wrappers.dfy`: `Option` and `Result`.
- `Seqs.dfy`: Kotlin's `distinct()`.
- `Strings.dfy`: Kotlin's `isWhitespace`, `trim`, `trimEnd`, `replace`, `lines` and `joinToString`, on `seq<char>`, with their lemmas.
- `Bpmn.dfy`: the BPMN document as an element index:
  - task and gateway elements;
  - start-event ids;
  - sequence flows;
  - text annotations;
  - associations.
- `Materials.dfy` and `Sankey.dfy`: the records of `model/MaterialRequirement.kt` and `model/Sankey.kt`.
- `BpmnProcessor.dfy`, `MaterialService.dfy` and `SankeyService.dfy`: the three services.

Some parts of the source update state in loops:
- the `putAll` loop of `extractAllTasks`;
- the breadth-first traversal;
- the annotation map of the first pass;
- the `getOrPut`/`addAll` fold;
- the `previousTask` link builder.

Each of these is a `method` with a `while` or `for` loop. It is proved against a function that specifies it, and the lemmas are proved about those functions. The pure pipelines are functions.

## Model

| member | source | states |
|---|---|---|
| BpmnProcessor.ExtractTasksKeys | src/main/kotlin/de/ur/operational/BpmnProcessor.kt:61-67 | An id is a key of the map for one tag iff some element of that tag has that id. |
| BpmnProcessor.ExtractTasksNames | src/main/kotlin/de/ur/operational/BpmnProcessor.kt:63-66 | The last element of the tag with a given id supplies that id's value (`associate`). The value is the element's name when that name is not blank, otherwise its id. |
| BpmnProcessor.Rank | src/main/kotlin/de/ur/operational/BpmnProcessor.kt:52 | Gives the position of an activity tag in the fixed list `task, userTask, manualTask, serviceTask, scriptTask`, or -1 exactly when the tag is not a task kind. |
| BpmnProcessor.MergedKeys | src/main/kotlin/de/ur/operational/BpmnProcessor.kt:50-56 | After the maps of the first k task tags are merged, an id is a key iff some element whose tag is among those k has it. |
| BpmnProcessor.MergedName | src/main/kotlin/de/ur/operational/BpmnProcessor.kt:50-56 | After the first k task tags are merged, an element among them that no later-merged element supersedes supplies its id's display name. |
| BpmnProcessor.ExtractAllTasks | src/main/kotlin/de/ur/operational/BpmnProcessor.kt:50-56 | An id is in the task map iff some element of one of the five task kinds has it. An element that no later-collected element supersedes (a later tag in the list, or the same tag later in the document) supplies its display name, so `putAll` makes the last one win. |
| BpmnProcessor.TargetsOfMembership | src/main/kotlin/de/ur/operational/BpmnProcessor.kt:75 | A target is grouped under a source iff some flow goes from that source to that target. |
| BpmnProcessor.ExtractSequenceFlows | src/main/kotlin/de/ur/operational/BpmnProcessor.kt:72-76 | The keys are the distinct sourceRefs in first-appearance order. Each key maps to the targetRefs of its flows in document order, duplicates kept (`groupBy`). |
| BpmnProcessor.GroupStep | src/main/kotlin/de/ur/operational/BpmnProcessor.kt:72-76 | Adding one more flow to the grouping of the flows before it gives the grouping of all of them: keys are the distinct sources, and each key holds its targets in order. |
| BpmnProcessor.NotASourceHasNoTargets | src/main/kotlin/de/ur/operational/BpmnProcessor.kt:104-112 | A node that is no flow's source has no successors, so the `?.let` adds nothing to the queue. |
| BpmnProcessor.FirstIn | src/main/kotlin/de/ur/operational/BpmnProcessor.kt:86 | Gives None iff no key is in the set. Otherwise gives the first key in order that is in the set (`firstOrNull`). |
| BpmnProcessor.NoStartTaskMeansNoStartFlow | src/main/kotlin/de/ur/operational/BpmnProcessor.kt:81-87 | If no start task is found, then no sequence flow has a start event as its source. |
| BpmnProcessor.StartTaskMeansStartFlow | src/main/kotlin/de/ur/operational/BpmnProcessor.kt:81-87 | If a start task is found, then some sequence flow has a start event as its source. |
| BpmnProcessor.KeyIsSource | src/main/kotlin/de/ur/operational/BpmnProcessor.kt:72-76 | Every key of the flow grouping is the sourceRef of some flow. |
| BpmnProcessor.NoStartTaskIffNoStartFlow | src/main/kotlin/de/ur/operational/BpmnProcessor.kt:81-87 | `findStartTask` gives null exactly when no sequence flow leaves a start event. |
| BpmnProcessor.StartTaskIsFirstStartFlow | src/main/kotlin/de/ur/operational/BpmnProcessor.kt:81-87 | The start task found is a start event and the source of some flow. Every flow that comes before it in the document has a source that is not a start event. |
| BpmnProcessor.FirstKeyIsFirstSource | src/main/kotlin/de/ur/operational/BpmnProcessor.kt:81-87 | The first distinct source in a set is the source of the first flow, in document order, whose source is in that set. |
| BpmnProcessor.ReachableStep | src/main/kotlin/de/ur/operational/BpmnProcessor.kt:104-112 | A successor of a reachable node is reachable. |
| BpmnProcessor.ClosedSetHoldsReachable | src/main/kotlin/de/ur/operational/BpmnProcessor.kt:97-113 | A set that holds the start node and is closed under successors holds every node reachable from the start. |
| BpmnProcessor.SuccessorsDiscovered | src/main/kotlin/de/ur/operational/BpmnProcessor.kt:104-112 | Everything enqueued after a reachable node is itself reachable and within the finite set of flow endpoints. |
| BpmnProcessor.SkipKeepsClosed | src/main/kotlin/de/ur/operational/BpmnProcessor.kt:100-101 | Dropping an already-visited head of the queue keeps every successor of a visited node either visited or queued. |
| BpmnProcessor.VisitKeepsClosed | src/main/kotlin/de/ur/operational/BpmnProcessor.kt:100-112 | Visiting the head and enqueueing its successors keeps every successor of a visited node either visited or queued. |
| BpmnProcessor.SkipStep | src/main/kotlin/de/ur/operational/BpmnProcessor.kt:100-101 | Dropping an already-visited queue head keeps the traversal invariant: everything visited or queued is reachable, and the visited set is closed up to the queue. |
| BpmnProcessor.VisitStep | src/main/kotlin/de/ur/operational/BpmnProcessor.kt:100-112 | Visiting the queue head and enqueueing its successors keeps the traversal invariant. |
| BpmnProcessor.OrderStep | src/main/kotlin/de/ur/operational/BpmnProcessor.kt:102-111 | Visiting a new node, and emitting it when it is a task and not a gateway, keeps the order equal to the visited non-gateway tasks, each once. |
| BpmnProcessor.DetermineTaskOrder | src/main/kotlin/de/ur/operational/BpmnProcessor.kt:92-115 | A node is in the order iff three things hold: it is reachable from the start by sequence flows, it is a key of the task map, and it is not a gateway. No id appears twice. The loop terminates on cyclic graphs, because the pair (unvisited flow endpoints, queue length) decreases. |
| BpmnProcessor.TraversalCoversReachable | src/main/kotlin/de/ur/operational/BpmnProcessor.kt:99-113 | When the queue is empty, the visited set is exactly the set of nodes reachable from the start. |
| BpmnProcessor.LoadTaskOrder | src/main/kotlin/de/ur/operational/BpmnProcessor.kt:20-37 | Fails iff no sequence flow leaves a start event, and the error is `IllegalState("No valid start task found in BPMN")`. On success, the result holds no duplicates. A node is in the result iff it is reachable from the start task, is a collected task of one of the five kinds, and is not a gateway. |
| MaterialService.CleanInputTextAsWritten | src/main/kotlin/de/ur/operational/MaterialService.kt:104-108 | The cleaner the extraction uses, in the replacement order of the code. Its output contains no U+00A0, no U+FEFF and no carriage return. Every line of the output is empty or ends in a non-whitespace character. |
| MaterialService.AsWrittenPipeline | src/main/kotlin/de/ur/operational/MaterialService.kt:104-108 | For any trimmed text put through the replacements in the code's order and then the line normalisation, the output has no U+00A0, no U+FEFF and no CR, and no line ends in whitespace. |
| MaterialService.CleanInputTextAsWrittenLeavesEntity | src/main/kotlin/de/ur/operational/MaterialService.kt:104-108 | With the replacement order as written, the input `&nb` U+FEFF `sp;` is cleaned to the literal `&nbsp;`, so the output still contains the entity (see Findings). |
| MaterialService.CleanInputText | src/main/kotlin/de/ur/operational/MaterialService.kt:104-108 | The corrected cleaner of "## Findings", which deletes U+FEFF first. Its output contains no U+00A0, no U+FEFF, no carriage return and no `&nbsp;`. Every line of the output is empty or ends in a non-whitespace character. |
| MaterialService.CleanedPipeline | src/main/kotlin/de/ur/operational/MaterialService.kt:104-108 | For any trimmed text put through the corrected replacement order and the line normalisation, the output has no U+00A0, no U+FEFF, no CR and no `&nbsp;`, and no line ends in whitespace. |
| MaterialService.CleanInputTextAgreesWithoutByteOrderMark | src/main/kotlin/de/ur/operational/MaterialService.kt:106-107 | On every text without U+FEFF, the corrected cleaner and the cleaner as written give the same result. |
| MaterialService.ParseMaterialRequirements | src/main/kotlin/de/ur/operational/MaterialService.kt:113-127 | The JSON result is returned whenever JSON succeeds, and the YAML result only after a JSON failure. The result is a failure iff both parsers fail. The failure is `IllegalArgument` carrying both parser messages in the fixed wording. |
| MaterialService.LastWins | src/main/kotlin/de/ur/operational/MaterialService.kt:54-70 | A key is in the map iff some entry with that key holds a value. The last such entry's value wins. |
| MaterialService.LastWinsStep | src/main/kotlin/de/ur/operational/MaterialService.kt:54-70 | Taking one more entry either overwrites its key with the entry's value or, when the entry holds no value, leaves the map unchanged. |
| MaterialService.AnnotationRequirementsDomain | src/main/kotlin/de/ur/operational/MaterialService.kt:57-75 | An annotation id is a key of the annotation map iff some annotation with that id has text that cleans and parses. |
| MaterialService.AnnotationRequirementsValue | src/main/kotlin/de/ur/operational/MaterialService.kt:57-75 | The last annotation with an id whose text parses supplies that id's requirements. |
| MaterialService.AnnotationRequirementsMeaning | src/main/kotlin/de/ur/operational/MaterialService.kt:57-75 | An annotation id is in the map iff some annotation with that id has a text that is cleaned and then parsed successfully. An annotation without text, or whose text fails both parsers, contributes nothing. The last successful annotation with an id supplies its requirements. |
| MaterialService.ParseAnnotations | src/main/kotlin/de/ur/operational/MaterialService.kt:54-75 | The map filled annotation by annotation equals the specified annotation map. |
| MaterialService.ContributingTargetsMembership | src/main/kotlin/de/ur/operational/MaterialService.kt:78-87 | A task receives an entry iff some association has a parsed annotation as its sourceRef and the task as its targetRef. Only the sourceRef is looked up. |
| MaterialService.RequirementsForMembership | src/main/kotlin/de/ur/operational/MaterialService.kt:78-87 | A requirement is in a task's list iff it belongs to the list of some parsed annotation that an association leads from to that task. |
| MaterialService.NotContributedHasNothing | src/main/kotlin/de/ur/operational/MaterialService.kt:83-85 | A task that no contributing association targets gets no requirements. |
| MaterialService.GroupByTask | src/main/kotlin/de/ur/operational/MaterialService.kt:78-87 | The fold's keys are the contributing targets, without duplicates, in order of first contributing association. Each task's list is the concatenation, in association order, of the lists of its associated annotations. |
| MaterialService.ToTaskList | src/main/kotlin/de/ur/operational/MaterialService.kt:90-92 | Gives one `TaskMaterialRequirements` per grouped task, in key order, each carrying that task's accumulated list. |
| MaterialService.ExtractMaterialRequirements | src/main/kotlin/de/ur/operational/MaterialService.kt:33-99 | A failed load gives the empty list. Otherwise there is one entry per distinct contributing target, in first-contribution order, and each entry carries that task's concatenated requirements. |
| MaterialService.ExtractedTasks | src/main/kotlin/de/ur/operational/MaterialService.kt:79-92 | No task id occurs twice in the result. A task occurs iff some association leads to it from an annotation id whose text parses, even when the parsed list is empty. |
| SankeyService.WithColor | src/main/kotlin/de/ur/operational/SankeyService.kt:76 | Keeps only nodes of the given sort key, all drawn from the input. |
| SankeyService.SortByColorProperties | src/main/kotlin/de/ur/operational/SankeyService.kt:76 | The node sort gives a list ordered by the third field and a permutation of the input. It is stable: the nodes sharing a key keep their relative order. |
| SankeyService.AllRequirementsMembership | src/main/kotlin/de/ur/operational/SankeyService.kt:24 | A requirement is in the flattened list iff some entry lists it. |
| SankeyService.NamesOfKind | src/main/kotlin/de/ur/operational/SankeyService.kt:23-29 | A name is listed iff some (name, type) pair carries it with a type of the wanted kind. |
| SankeyService.PartitionByMembership | src/main/kotlin/de/ur/operational/SankeyService.kt:23-29 | For any type classifier, a name is in the wanted half iff some requirement with that name has a type the classifier puts on that side. |
| SankeyService.PartitionNamesAreUsed | src/main/kotlin/de/ur/operational/SankeyService.kt:23-29 | Every name in either half of the partition is the name of some requirement. |
| SankeyService.PartitionMembership | src/main/kotlin/de/ur/operational/SankeyService.kt:23-29 | Both name lists are duplicate-free. A name is intermediate iff some requirement with that name has a type whose lowercase-trimmed form is `intermediate`. A name is other iff some requirement with that name has another type. A name may be in both lists. |
| SankeyService.FirstTypeOf | src/main/kotlin/de/ur/operational/SankeyService.kt:33-34 | Gives None iff no requirement has the name. Otherwise gives the type of the first requirement with that name. |
| SankeyService.MaterialNodeColor | src/main/kotlin/de/ur/operational/SankeyService.kt:32-36 | For every other-material name, a requirement with that name exists. The node's third field is the first such requirement's type, so the `"default"` fallback is never used. |
| SankeyService.NodeIds | src/main/kotlin/de/ur/operational/SankeyService.kt:40-44 | A node id exists iff it is an other-material name, `endEvent` or a task-order id. There are \|others\| + 1 + \|taskOrder\| nodes. |
| SankeyService.Entries | src/main/kotlin/de/ur/operational/SankeyService.kt:49 | An entry is kept iff its task id is in the task order. |
| SankeyService.EntriesAppend | src/main/kotlin/de/ur/operational/SankeyService.kt:49 | The filter distributes over concatenation. Together with `EntriesSingle` this determines it: it keeps the requirements-list order and drops only the entries of tasks outside the task order. |
| SankeyService.EntriesSingle | src/main/kotlin/de/ur/operational/SankeyService.kt:49 | A single entry is kept exactly when its task id is in the task order. |
| SankeyService.AddEntryLinks | src/main/kotlin/de/ur/operational/SankeyService.kt:50-62 | The inner loop appends exactly the entry's links to those built so far. |
| SankeyService.ChainedLinksStep | src/main/kotlin/de/ur/operational/SankeyService.kt:49-63 | Appending one entry's links and advancing `previousTask` to its task id leaves the links of the remaining entries to complete the same chain. |
| SankeyService.BuildLinks | src/main/kotlin/de/ur/operational/SankeyService.kt:47-65 | The link list built with the `previousTask` accumulator (starting at `""`) equals the chained links of the filtered entries. |
| SankeyService.ChainedLinksByPosition | src/main/kotlin/de/ur/operational/SankeyService.kt:48-63 | Gives an independent per-position reading of the accumulator. The links of the k-th filtered entry use, as previous task, the task id of the (k-1)-th filtered entry, or `""` for the first. Tasks without an entry never change it. |
| SankeyService.ChainedLinkEnds | src/main/kotlin/de/ur/operational/SankeyService.kt:51-60 | Every link comes from some requirement of some entry. Its target is that entry's task, and its material, value and unit are copied from the requirement. A non-intermediate link's source is the material name. An intermediate link's source is the initial previous task or an entry's task id. |
| SankeyService.ChainedLinksCount | src/main/kotlin/de/ur/operational/SankeyService.kt:49-62 | Exactly one link is built per requirement of each filtered entry. |
| SankeyService.FindLastMaterialConsumingTask | src/main/kotlin/de/ur/operational/SankeyService.kt:81-87 | Gives None iff no task-order id has an entry. Otherwise gives an id that has an entry, where every later task-order id has none. |
| SankeyService.GenerateSankeyData | src/main/kotlin/de/ur/operational/SankeyService.kt:17-79 | The diagram built step by step equals the specified diagram: sorted nodes, then chained links plus the optional finishing link. |
| SankeyService.NonIntermediateNameIsOther | src/main/kotlin/de/ur/operational/SankeyService.kt:23-29 | A required material name that is not intermediate is an other-material name, and so has a node. |
| SankeyService.SortedNodesKeepIds | src/main/kotlin/de/ur/operational/SankeyService.kt:76 | Sorting keeps every node id. |
| SankeyService.LinksResolve | src/main/kotlin/de/ur/operational/SankeyService.kt:32-76 | Every link target is the id of a node of the diagram. Every link source is one of three things: an other-material name, a task-order id, or the sentinel `""`. |
| SankeyService.LinkCountAndFinish | src/main/kotlin/de/ur/operational/SankeyService.kt:47-73 | The diagram has one link per requirement of each filtered entry, plus one link exactly when some task-order id has an entry. That last link is the `Finished Good` link from the last such task to `endEvent`, with value 1 and no unit. |
| SankeyService.NodesOrder | src/main/kotlin/de/ur/operational/SankeyService.kt:32-76 | The diagram's nodes are a permutation of the material nodes, the sink node and the task nodes. They are ordered by the third field, and within one key they keep that original order. |

## Left out

- XML/DOM loading is not part of this model: `File.exists`, `DocumentBuilderFactory` and `getElementsByTagNameNS` (src/main/kotlin/de/ur/operational/BpmnProcessor.kt:21-22,42-45; src/main/kotlin/de/ur/operational/MaterialService.kt:38-51). The document comes in as an element index (`Bpmn.Document`), so the missing-file `require` is not modelled.
- Jackson decoding is not modelled. The JSON and YAML readers are parameters (`Parsers`), two partial functions from text to a `Result`.
- Logging, `printStackTrace` and the `runCatching`/`getOrThrow` rethrow are left out. The catch-all of `extractMaterialRequirements` appears only as "load failed (`None`) gives the empty list". Exceptions that could arise between parsing and the fold are not modelled.
- `requiredQuantity` and the link `value` are `Number` in the source. The model uses `real`, which is only copied.
- The `@JsonInclude(NON_NULL)` serialisation of `model/Sankey.kt` is left out.
- `Controller.kt`, `ModelService.kt`, `OperationalApplication.kt`, the cockpit plug-in scripts and the build configuration are not part of this model. They are HTTP routing, a wrapper with a fixed path, Spring bootstrap, UI code and configuration.
- SankeyService.GenerateSankeyData: the source obtains the task order with `modelService.loadTaskOrder(bpmnPath)` (SankeyService.kt:19), but `ModelService.loadTaskOrder` takes no argument. The model therefore takes the task order and the requirement list as parameters.
- SankeyService.SortByColorProperties: the source sorts by `it.type`, which `SankeyNode` does not have. The model sorts by the third field, `color`, which the service fills with the node category.
- SankeyService.SortByColorProperties: keys are compared lexicographically by code point. Kotlin's `String.compareTo` compares UTF-16 code units, which differs only for characters outside the Basic Multilingual Plane.
- SankeyService.Lowercase: lower-cases ASCII letters only. For the comparison with `intermediate` this is exact. The only non-ASCII character whose lowercase form is ASCII is the Kelvin sign, which lowercases to `k`, and `intermediate` has no `k`.
- BpmnProcessor.DetermineTaskOrder: states which ids the order contains and that each appears once. It does not state each id's breadth-first position, although the method body follows the source's queue discipline step by step.
- BpmnProcessor.LoadTaskOrder: inherits that gap. It states which ids the result holds, each once, but not their breadth-first order.
- BpmnProcessor.ExtractAllTasks: the display names are collected as the source collects them, but the traversal only uses the map's keys, so no contract follows the names any further.
- Three behaviours of the code are modelled as the code has them:
  - An association counts only when its `sourceRef` is a parsed annotation. The reverse direction is never tried.
  - The first intermediate link's source is `""`, which is not a node id.
  - `previousTask` advances after every filtered entry in requirements-list order, not in task order.

## Findings

| source | as written | input that shows it | evidently intended | confidence | as-written member | corrected member |
|---|---|---|---|---|---|---|
| src/main/kotlin/de/ur/operational/MaterialService.kt:106 | U+FEFF is removed after `&nbsp;` has been replaced, so removing it can join the pieces of a new `&nbsp;` | the annotation text `&nb` U+FEFF `sp;` is cleaned to `&nbsp;` | no `&nbsp;` survives cleaning, so U+FEFF is removed before the entity is replaced | not executed | MaterialService.CleanInputTextAsWrittenLeavesEntity | MaterialService.CleanInputText |

The extraction (`MaterialService.Decoded`, `MaterialService.ParseAnnotations`) cleans with `CleanInputTextAsWritten`, so the model keeps the program's behaviour on such text. `MaterialService.CleanInputTextAgreesWithoutByteOrderMark` proves that the two cleaners agree on every text without U+FEFF.
