/**
  The XML input as the loader sees it: the nodes an `XmlReader` reports one
  `Read()` at a time, each with its kind, its name and its attributes.
  Tokenising the text into nodes is done by the XML library and is not part of
  this model.
 */
module XmlNodes {
  import opened Wrappers

  /** The node kinds `XmlReader.Read()` can stop on. */
  datatype NodeType =
    | Element | EndElement | Text | CDATA | EntityReference | EndEntity
    | ProcessingInstruction | Comment | DocumentType | Whitespace
    | SignificantWhitespace | XmlDeclaration

  datatype Node = Node(nodeType: NodeType, name: string, attributes: map<string, string>)

  /** `XmlReader.GetAttribute(name)`: the attribute's value, or null (None) when the node has no such attribute. */
  function GetAttribute(node: Node, name: string): (r: Option<string>)
    ensures r.Some? <==> name in node.attributes
    ensures r.Some? ==> r.value == node.attributes[name]
  {
    if name in node.attributes then Some(node.attributes[name]) else None
  }
}
