/** The caller-authored tree handed to the lazy markup renderer: element,
    attribute and text builders, and the markup text such a tree stands for. */
module XmlBuilders {

  import opened Results

  /** One information item builder. An element owns its attributes and its
      child nodes in declaration order; names are rendered literally, the
      namespace URI is carried but never rendered (the caller declares the
      `xmlns` attributes it needs). */
  datatype Node =
    | Element(prefix: string, localName: string, namespaceUri: string,
              attributes: seq<Node>, childNodes: seq<Node>)
    | Attribute(prefix: string, localName: string, namespaceUri: string, value: string)
    | Text(value: string)

  predicate HasAttributes(n: Node) {
    n.Element? && |n.attributes| > 0
  }

  predicate HasChildNodes(n: Node) {
    n.Element? && |n.childNodes| > 0
  }

  /** What the builder interfaces guarantee by typing: the attributes of an
      element are attribute builders, its child nodes are element or text
      builders, all the way down. */
  predicate WellFormed(n: Node)
    decreases n
  {
    match n
    case Element(_, _, _, attributes, childNodes) =>
      (forall i :: 0 <= i < |attributes| ==> attributes[i].Attribute?) &&
      (forall i :: 0 <= i < |childNodes| ==> !childNodes[i].Attribute? && WellFormed(childNodes[i]))
    case _ => true
  }

  /** `prefix:local` when the prefix is not empty, the bare local name otherwise. */
  function QualifiedName(prefix: string, localName: string): string {
    if prefix == "" then localName else prefix + ":" + localName
  }

  function NameOf(n: Node): string
    requires !n.Text?
  {
    QualifiedName(n.prefix, n.localName)
  }

  /** The markup a node stands for: attributes as ` name="value"`, text
      verbatim, and an element as its start tag followed either by ` />`
      when it has no child node or by `>`, its children and its end tag.
      Nothing is escaped. */
  function Render(n: Node): string
    decreases n, 1
  {
    match n
    case Attribute(prefix, localName, _, value) =>
      " " + QualifiedName(prefix, localName) + "=\"" + value + "\""
    case Text(value) => value
    case Element(prefix, localName, _, attributes, childNodes) =>
      "<" + QualifiedName(prefix, localName) + RenderAll(attributes) +
      (if childNodes == [] then " />"
       else ">" + RenderAll(childNodes) + "</" + QualifiedName(prefix, localName) + ">")
  }

  /** The markup of a sequence of sibling nodes, in order. */
  function RenderAll(ns: seq<Node>): string
    decreases ns, 0
  {
    if ns == [] then "" else Render(ns[0]) + RenderAll(ns[1..])
  }

  /** The document a possibly absent root stands for: nothing for a null root. */
  function RenderRoot(root: Option<Node>): string {
    match root
    case None => ""
    case Some(n) => Render(n)
  }
}
