/** The shape of a decoded YAML document the configuration code inspects:
    the kind, the tag, the scalar text and the children of each node. The
    decoder itself is not part of this model. */
module Yaml {
  datatype Kind = DocumentNode | SequenceNode | MappingNode | ScalarNode | AliasNode

  /** A node of the document tree. A mapping node's content alternates keys
      and values; `tag` is the node's short tag, such as "!!str" or "!!map". */
  datatype Node = Node(kind: Kind, tag: string, value: string, content: seq<Node>)

  /** The decoder produces mapping nodes with a value for every key. */
  predicate WellFormed(n: Node) {
    && (n.kind == MappingNode ==> |n.content| % 2 == 0)
    && forall i :: 0 <= i < |n.content| ==> WellFormed(n.content[i])
  }

  function ScalarNodeOf(tag: string, value: string): Node {
    Node(ScalarNode, tag, value, [])
  }
}
