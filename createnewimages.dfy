/** The "new images" operation: it asks for one PNG file and adds an
    `images` element referring to it at a chosen position. */
module CreateNewImagesOp {
  import opened Wrappers
  import opened Dom

  /** A value handed to an operation by the parameter dialog. */
  datatype Object = Null | Str(s: string) | Other(typeName: string)

  /** A parameter the dialog asks for: a file, with its file-name filter. */
  datatype Parameter = FileParameter(name: string, extension: string)

  /** One `addChild(element, pos)` request handed to the tree node. */
  datatype AddedChild = AddedChild(element: Element, pos: int)

  /** The checks of `executeAt`: exactly one parameter, which is either null
      (no file) or a string (the file name); anything else is refused. */
  function FileOf(parameter: seq<Object>): (r: Result<Option<string>>)
    ensures |parameter| != 1 ==> r == Err(IllegalArgument("Wrong number of arguments"))
    ensures |parameter| == 1 && parameter[0].Other? ==> r == Err(IllegalArgument("PNG file not specified"))
    ensures |parameter| == 1 && parameter[0].Null? ==> r == Ok(None)
    ensures |parameter| == 1 && parameter[0].Str? ==> r == Ok(Some(parameter[0].s))
  {
    if |parameter| != 1 then Err(IllegalArgument("Wrong number of arguments"))
    else match parameter[0]
      case Null => Ok(None)
      case Str(s) => Ok(Some(s))
      case Other(_) => Err(IllegalArgument("PNG file not specified"))
  }

  class CreateNewImages {
    const actionID: string
    /** The DOM element of the tree node the operation belongs to. */
    const target: Element
    /** The `addChild(element, pos)` calls made so far. */
    var added: seq<AddedChild>

    constructor (target: Element)
      ensures actionID == "opNewNodeImages" && this.target == target && added == []
    {
      actionID := "opNewNodeImages";
      this.target := target;
      added := [];
    }

    /** `getParameter`: one parameter, a PNG file. */
    function GetParameter(): (r: seq<Parameter>)
      ensures |r| == 1 && r[0].name == "PNG file" && r[0].extension == ".png"
    {
      [FileParameter("PNG file", ".png")]
    }

    /** `executeAt`: validates the parameters, builds a fresh `images`
        element whose `file` attribute is the given name (absent for null)
        and hands it to `addChild` at position `pos`. */
    method ExecuteAt(parameter: seq<Object>, pos: int) returns (r: Result<Element>)
      modifies this
      ensures FileOf(parameter).Err? ==> r == Err(FileOf(parameter).error) && added == old(added)
      ensures FileOf(parameter).Ok? ==> r.Ok? && fresh(r.value)
      ensures FileOf(parameter).Ok? ==> r.value.name == "images" && r.value.content == []
      ensures FileOf(parameter).Ok? ==>
        r.value.attributes == (if FileOf(parameter).value.Some? then map["file" := FileOf(parameter).value.value] else map[])
      ensures FileOf(parameter).Ok? ==> added == old(added) + [AddedChild(r.value, pos)]
    {
      if |parameter| != 1 {
        return Err(IllegalArgument("Wrong number of arguments"));
      }
      var e := new Element("images");
      if !parameter[0].Null? {
        if !parameter[0].Str? {
          return Err(IllegalArgument("PNG file not specified"));
        }
        var pngFile := parameter[0].s;
        e.SetAttribute("file", pngFile);
      }
      added := added + [AddedChild(e, pos)];
      return Ok(e);
    }
  }
}
