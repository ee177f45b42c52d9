/**
 The already-parsed XML tree the translator reads. Only what the translator
 asks of an element is kept: its element name, the value of its `name`
 attribute (empty when the attribute is missing) and its children in
 document order. A text node is a node with an empty element name.
 */
module Documents {

  datatype Node = Node(name: string, nameAttr: string, children: seq<Node>)

  /** What the XML library returns for a missing child: no name, no
      attributes, no children. */
  const EmptyNode := Node("", "", [])

  /** The first child called `name` (`xml_node::child`), or the empty node. */
  function ChildNamed(n: Node, name: string): (r: Node)
    ensures r == EmptyNode || r in n.children
    ensures r != EmptyNode ==> r.name == name
    ensures forall i :: 0 <= i < |n.children| && n.children[i].name == name ==> r.name == name
    ensures forall i :: 0 <= i < |n.children| && n.children[i].name == name && n.children[i] != r ==>
      exists j :: 0 <= j < i && n.children[j] == r
  {
    FirstNamed(n.children, name)
  }

  function FirstNamed(nodes: seq<Node>, name: string): (r: Node)
    ensures r == EmptyNode || r in nodes
    ensures r != EmptyNode ==> r.name == name
    ensures forall i :: 0 <= i < |nodes| && nodes[i].name == name ==> r.name == name
    ensures forall i :: 0 <= i < |nodes| && nodes[i].name == name && nodes[i] != r ==>
      exists j :: 0 <= j < i && nodes[j] == r
  {
    if nodes == [] then EmptyNode
    else if nodes[0].name == name then nodes[0]
    else
      var r := FirstNamed(nodes[1..], name);
      assert forall i :: 1 <= i < |nodes| ==> nodes[i] == nodes[1..][i - 1];
      r
  }
}
