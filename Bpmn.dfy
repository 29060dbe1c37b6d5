/** The element index of a BPMN 2.0 process document: the elements of the BPMN model namespace the
    core reads, each list in document order. Loading the XML into this index is not modelled. */
module Bpmn {
  import opened Wrappers

  /** The tag of an activity element. The five named tags are the ones the task-order resolver
      collects; any other activity tag (`sendTask`, `subProcess`, ...) is carried as `OtherActivity`. */
  datatype ActivityTag = Task | UserTask | ManualTask | ServiceTask | ScriptTask | OtherActivity(tagName: string)

  /** An activity element: its `id` and `name` attributes (an absent attribute reads as ""). */
  datatype TaskElement = TaskElement(id: string, tag: ActivityTag, name: string)

  /** The tag of a gateway element; `complexGateway` and the like are `OtherGateway`. */
  datatype GatewayTag = ExclusiveGateway | ParallelGateway | InclusiveGateway | EventBasedGateway | OtherGateway(tagName: string)

  datatype GatewayElement = GatewayElement(id: string, tag: GatewayTag)

  /** A `sequenceFlow` element: its `sourceRef` and `targetRef` attributes. */
  datatype SequenceFlow = SequenceFlow(sourceRef: string, targetRef: string)

  /** A `textAnnotation` element: its `id` and the text content of its first `text` child, if any. */
  datatype TextAnnotation = TextAnnotation(id: string, text: Option<string>)

  /** An `association` element: its `sourceRef` and `targetRef` attributes. */
  datatype Association = Association(sourceRef: string, targetRef: string)

  /** The whole index: activities, gateways, the set of ids of the `startEvent` elements, sequence
      flows, text annotations and associations. */
  datatype Document = Document(
    activities: seq<TaskElement>,
    gateways: seq<GatewayElement>,
    startEvents: set<string>,
    sequenceFlows: seq<SequenceFlow>,
    annotations: seq<TextAnnotation>,
    associations: seq<Association>)
}
