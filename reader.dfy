/**
 * The view of the XML pull reader that the formatter uses: each node the reader stops at has a
 * structural type, a tag name and the attributes of the element, looked up by exact name.
 */
module Reader {
  import opened Wrappers

  /** The node types the reader reports (element start, element end, and everything else). */
  datatype NodeType = Element | EndElement | Text | Whitespace | Comment | OtherNode

  datatype Node = Node(nodeType: NodeType, name: string, attributes: map<string, string>)

  /** `node.attribute(name)`: the value, or nothing when the element does not carry it. */
  function Attribute(node: Node, key: string): (r: Option<string>)
    ensures r.Some? <==> key in node.attributes
    ensures r.Some? ==> r.value == node.attributes[key]
  {
    if key in node.attributes then Some(node.attributes[key]) else None
  }
}
