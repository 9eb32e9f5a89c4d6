/** The slice of a JDOM document tree the theme operations touch: an element
    with a name, an attribute map, an ordered content list of text nodes and
    child elements, and a link to its parent element. */
module Dom {
  import opened Wrappers

  /** One entry of an element's content list. */
  datatype Content = Text(text: string) | Child(element: Element)

  class Element {
    const name: string
    var attributes: map<string, string>
    var content: seq<Content>
    var parentElement: Element?

    /** `new Element(name)`: no attributes, no content, no parent. */
    constructor (name: string)
      ensures this.name == name
      ensures attributes == map[] && content == [] && parentElement == null
    {
      this.name := name;
      attributes := map[];
      content := [];
      parentElement := null;
    }

    /** `getAttributeValue`: the attribute's value, or null when it is not set. */
    function GetAttributeValue(attribute: string): (r: Option<string>)
      reads this
      ensures r.Some? <==> attribute in attributes
      ensures r.Some? ==> r.value == attributes[attribute]
    {
      if attribute in attributes then Some(attributes[attribute]) else None
    }

    /** `setAttribute`: adds the attribute or replaces its value. */
    method SetAttribute(attribute: string, value: string)
      modifies this
      ensures attributes == old(attributes)[attribute := value]
      ensures content == old(content) && parentElement == old(parentElement)
    {
      attributes := attributes[attribute := value];
    }

    /** `removeAttribute`: drops the attribute if it is set. */
    method RemoveAttribute(attribute: string)
      modifies this
      ensures attributes == old(attributes) - {attribute}
      ensures content == old(content) && parentElement == old(parentElement)
    {
      attributes := attributes - {attribute};
    }

    /** `addContent(index, text)`: inserts a text node before position `index`. */
    method AddTextAt(index: nat, text: string)
      requires index <= |content|
      modifies this
      ensures content == old(content)[..index] + [Text(text)] + old(content)[index..]
      ensures attributes == old(attributes) && parentElement == old(parentElement)
    {
      content := content[..index] + [Text(text)] + content[index..];
    }

    /** `addContent(index, child)`: inserts a parentless element before
        position `index` and makes this element its parent. */
    method AddChildAt(index: nat, child: Element)
      requires index <= |content|
      requires child.parentElement == null && child != this
      modifies this, child
      ensures content == old(content)[..index] + [Child(child)] + old(content)[index..]
      ensures attributes == old(attributes) && parentElement == old(parentElement)
      ensures child.parentElement == this
      ensures child.attributes == old(child.attributes) && child.content == old(child.content)
    {
      content := content[..index] + [Child(child)] + content[index..];
      child.parentElement := this;
    }
  }
}
