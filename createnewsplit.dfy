/** The operations that add a new split image (`hsplit`, `vsplit`, `grid`
    and the like): an element of the given tag with a fresh name, a unit
    rectangle and, when asked for, zeroed split positions. */
module CreateNewSplitOp {
  import opened Wrappers
  import opened Dom
  import opened CreateChild
  import JavaText

  /** The action ID: "opNewNode" followed by the tag name with its first
      character upper-cased. An empty tag name has no first character. */
  function ActionID(tagName: string): (r: Result<string>)
    ensures tagName == [] ==> r == Err(IndexOutOfBounds)
    ensures tagName != [] ==> r.Ok? && |r.value| == |tagName| + 9 && r.value[..9] == "opNewNode"
    ensures tagName != [] ==> r.Ok? && r.value[9] == JavaText.ToUpperAscii(tagName[0]) && r.value[10..] == tagName[1..]
  {
    if tagName == [] then Err(IndexOutOfBounds)
    else
      var id := "opNewNode" + [JavaText.ToUpperAscii(tagName[0])] + tagName[1..];
      assert id[10..] == tagName[1..];
      Ok(id)
  }

  /** The attributes of the new element, in the order `execute` sets them. */
  function SplitAttributes(timestamp: int, splitx: bool, splity: bool): (m: map<string, string>)
    ensures m.Keys == {"name", "x", "y", "width", "height"}
      + (if splitx then {"splitx"} else {}) + (if splity then {"splity"} else {})
    ensures m["name"] == "new" + JavaText.IntToString(timestamp)
    ensures m["x"] == "0" && m["y"] == "0" && m["width"] == "1" && m["height"] == "1"
    ensures splitx ==> m["splitx"] == "0,0"
    ensures splity ==> m["splity"] == "0,0"
  {
    var base := map["name" := "new" + JavaText.IntToString(timestamp), "x" := "0", "y" := "0", "width" := "1", "height" := "1"];
    var withX := if splitx then base["splitx" := "0,0"] else base;
    if splity then withX["splity" := "0,0"] else withX
  }

  class CreateNewSplit {
    const op: CreateChildOperation
    const tagName: string
    const splitx: bool
    const splity: bool

    constructor (target: Element, tagName: string, splitx: bool, splity: bool)
      requires ActionID(tagName).Ok?
      ensures fresh(op) && op.target == target && op.actionID == ActionID(tagName).value && op.refreshes == 0
      ensures this.tagName == tagName && this.splitx == splitx && this.splity == splity
    {
      op := new CreateChildOperation(ActionID(tagName).value, target);
      this.tagName := tagName;
      this.splitx := splitx;
      this.splity := splity;
    }

    /** `execute`: builds the element (its name made from `timestamp`, the
        `System.nanoTime()` reading) and adds it once through `addChild`. */
    method Execute(timestamp: int) returns (e: Element)
      modifies op, op.target
      ensures fresh(e) && e.name == tagName && e.content == []
      ensures e.attributes == SplitAttributes(timestamp, splitx, splity)
      ensures e.parentElement == op.target
      ensures op.target.content == WithChild(old(op.target.content), CreateIndentation(old(BaseIndentation(op.target))), e)
      ensures op.target.attributes == old(op.target.attributes) && op.target.parentElement == old(op.target.parentElement)
      ensures op.refreshes == old(op.refreshes) + 1
    {
      e := NewSplitElement(timestamp);
      op.AddChild(e);
    }

    /** The element `execute` builds, by successive `setAttribute` calls. */
    method NewSplitElement(timestamp: int) returns (e: Element)
      ensures fresh(e) && e.name == tagName && e.content == [] && e.parentElement == null
      ensures e.attributes == SplitAttributes(timestamp, splitx, splity)
    {
      e := new Element(tagName);
      e.SetAttribute("name", "new" + JavaText.IntToString(timestamp));
      e.SetAttribute("x", "0");
      e.SetAttribute("y", "0");
      e.SetAttribute("width", "1");
      e.SetAttribute("height", "1");
      if splitx {
        e.SetAttribute("splitx", "0,0");
      }
      if splity {
        e.SetAttribute("splity", "0,0");
      }
    }
  }
}
