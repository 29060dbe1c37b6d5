/** The records of the Sankey diagram handed to the cockpit plugin. */
module Sankey {
  import opened Wrappers

  /** A diagram node: its label, its id (what links refer to) and its colour category. */
  datatype SankeyNode = SankeyNode(name: string, id: string, color: string)

  /** A flow of `value` units of `material` from the node `source` to the node `target`. */
  datatype SankeyLink = SankeyLink(material: string, source: string, target: string, value: real, unit: Option<string>)

  /** The whole diagram. */
  datatype SankeyData = SankeyData(nodes: seq<SankeyNode>, links: seq<SankeyLink>)
}
