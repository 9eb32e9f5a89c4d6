/** The common part of the "create a child node" theme operations: how deep
    to indent the new element, where in the parent's content to put it, and
    the indentation text that goes in front of it. */
module CreateChild {
  import opened Wrappers
  import opened Dom
  import JavaText

  /** `String.lastIndexOf(c)`: the last position holding `c`, or -1 when there is none. */
  function LastIndexOf(s: string, c: char): (r: int)
    ensures -1 <= r < |s|
    ensures r >= 0 ==> s[r] == c
    ensures forall j :: r < j < |s| ==> s[j] != c
  {
    if s == [] then -1
    else if s[|s| - 1] == c then |s| - 1
    else LastIndexOf(s[..|s| - 1], c)
  }

  predicate IsLineBreak(c: char) {
    c == '\n' || c == '\r'
  }

  /** The indentation computed from the text node in front of an element:
      its length minus the later of its last '\n' and last '\r', plus 3. */
  function IndentAfter(text: string): int {
    |text| - JavaText.Max(LastIndexOf(text, '\n'), LastIndexOf(text, '\r')) + 3
  }

  /** The column at which a text ends: the number of characters after its last line break. */
  function Column(text: string): nat {
    if text == [] || IsLineBreak(text[|text| - 1]) then 0 else Column(text[..|text| - 1]) + 1
  }

  /** The indentation taken from a text node is the column where that text
      ends plus four: one level deeper than the element it precedes. */
  lemma {:induction false} IndentAfterColumn(text: string)
    ensures IndentAfter(text) == Column(text) + 4
  {
    if text != [] && !IsLineBreak(text[|text| - 1]) {
      var prefix := text[..|text| - 1];
      IndentAfterColumn(prefix);
      assert LastIndexOf(text, '\n') == LastIndexOf(prefix, '\n');
      assert LastIndexOf(text, '\r') == LastIndexOf(prefix, '\r');
    }
  }

  /** The characters counted by `Column` are exactly the trailing run without a line break. */
  lemma {:induction false} ColumnIsTrailingRun(text: string)
    ensures Column(text) <= |text|
    ensures forall j :: |text| - Column(text) <= j < |text| ==> !IsLineBreak(text[j])
    ensures Column(text) < |text| ==> IsLineBreak(text[|text| - Column(text) - 1])
  {
    if text != [] && !IsLineBreak(text[|text| - 1]) {
      var prefix := text[..|text| - 1];
      ColumnIsTrailingRun(prefix);
      assert forall j :: 0 <= j < |prefix| ==> prefix[j] == text[j];
    }
  }

  /** The position of the first `Child(e)` at or after position `i`. */
  function IndexFrom(content: seq<Content>, e: Element, i: nat): (r: Option<nat>)
    ensures r.Some? ==> i <= r.value < |content|
    decreases |content| - i
  {
    if i >= |content| then None
    else if content[i] == Child(e) then Some(i)
    else IndexFrom(content, e, i + 1)
  }

  /** `IndexFrom` finds the first occurrence, and finds none only when there is none. */
  lemma {:induction false} IndexFromSound(content: seq<Content>, e: Element, i: nat)
    ensures IndexFrom(content, e, i).Some? ==> content[IndexFrom(content, e, i).value] == Child(e)
    ensures IndexFrom(content, e, i).Some? ==>
      forall j :: i <= j < IndexFrom(content, e, i).value ==> content[j] != Child(e)
    ensures IndexFrom(content, e, i).None? ==> forall j :: i <= j < |content| ==> content[j] != Child(e)
    decreases |content| - i
  {
    if i < |content| && content[i] != Child(e) {
      IndexFromSound(content, e, i + 1);
    }
  }

  /** The indentation for the element `e` among `siblings`: found from the
      text in front of its first occurrence after the first entry, else 0. */
  function IndentationIn(siblings: seq<Content>, e: Element): int {
    match IndexFrom(siblings, e, 1)
    case None => 0
    case Some(i) => if siblings[i - 1].Text? then IndentAfter(siblings[i - 1].text) else 0
  }

  /** `getBaseIndentation` of the node whose DOM element is `element`. */
  function BaseIndentation(element: Element): int
    reads element, element.parentElement
  {
    if element.parentElement == null then 0 else IndentationIn(element.parentElement.content, element)
  }

  /** The indentation is 0 when the element does not occur after the first
      entry, or occurs there first behind something that is not text; otherwise
      it is the column where the preceding text ends, plus four. */
  lemma IndentationInCases(siblings: seq<Content>, e: Element, i: nat)
    requires 1 <= i < |siblings| && siblings[i] == Child(e)
    requires forall j :: 1 <= j < i ==> siblings[j] != Child(e)
    ensures siblings[i - 1].Text? ==> IndentationIn(siblings, e) == Column(siblings[i - 1].text) + 4
    ensures !siblings[i - 1].Text? ==> IndentationIn(siblings, e) == 0
  {
    IndexFromSound(siblings, e, 1);
    if siblings[i - 1].Text? {
      IndentAfterColumn(siblings[i - 1].text);
    }
  }

  lemma IndentationInAbsent(siblings: seq<Content>, e: Element)
    requires forall j :: 1 <= j < |siblings| ==> siblings[j] != Child(e)
    ensures IndentationIn(siblings, e) == 0
  {
    IndexFromSound(siblings, e, 1);
  }

  /** The base indentation is never negative. */
  lemma BaseIndentationNonNegative(element: Element)
    ensures BaseIndentation(element) >= 0
  {
    if element.parentElement != null {
      var s := element.parentElement.content;
      match IndexFrom(s, element, 1)
      case None =>
      case Some(i) =>
        if s[i - 1].Text? {
          IndentAfterColumn(s[i - 1].text);
        }
    }
  }

  /** `createIndentation(n)`: a line break followed by `n` spaces. */
  function CreateIndentation(n: nat): (r: string)
    ensures |r| == n + 1
    ensures r[0] == '\n'
    ensures forall i :: 1 <= i < |r| ==> r[i] == ' '
  {
    "\n" + seq(n, _ => ' ')
  }

  /** Where `addChild` puts the new element: before a trailing text node, else at the end. */
  function InsertionPoint(content: seq<Content>): (p: nat)
    ensures p <= |content|
  {
    if |content| > 0 && content[|content| - 1].Text? then |content| - 1 else |content|
  }

  /** The parent's content after `addChild`: the indentation text and the child inserted at the insertion point. */
  function WithChild(content: seq<Content>, indentation: string, child: Element): (r: seq<Content>)
    ensures |r| == |content| + 2
    ensures r[InsertionPoint(content)] == Text(indentation)
    ensures r[InsertionPoint(content) + 1] == Child(child)
    ensures r[..InsertionPoint(content)] + r[InsertionPoint(content) + 2..] == content
  {
    var p := InsertionPoint(content);
    assert (content[..p] + [Text(indentation), Child(child)] + content[p..])[p + 2..] == content[p..];
    content[..p] + [Text(indentation), Child(child)] + content[p..]
  }

  /** A trailing text node (the closing indentation of the parent) stays last. */
  lemma WithChildKeepsTrailingText(content: seq<Content>, indentation: string, child: Element)
    requires |content| > 0 && content[|content| - 1].Text?
    ensures var r := WithChild(content, indentation, child); r[|r| - 1] == content[|content| - 1]
  {
    var r := WithChild(content, indentation, child);
    var p := InsertionPoint(content);
    assert r[p + 2..] == content[p..];
  }

  /** Without a trailing text node the child becomes the last entry. */
  lemma WithChildAppends(content: seq<Content>, indentation: string, child: Element)
    requires |content| == 0 || !content[|content| - 1].Text?
    ensures WithChild(content, indentation, child) == content + [Text(indentation), Child(child)]
  {
  }

  /** A theme operation that adds a new child element below the node whose
      DOM element is `target`. */
  class CreateChildOperation {
    const actionID: string
    /** `parent.getDOMElement()` */
    const target: Element
    /** How often `parent.addChildren()` was called to refresh the tree node;
        ThemeTreeNode is not part of this model. */
    var refreshes: nat

    constructor (actionID: string, target: Element)
      ensures this.actionID == actionID && this.target == target && refreshes == 0
    {
      this.actionID := actionID;
      this.target := target;
      refreshes := 0;
    }

    /** `getBaseIndentation`: the search for the target among its parent's
        content, starting at the second entry. */
    method GetBaseIndentation() returns (r: int)
      ensures r == BaseIndentation(target)
    {
      var element := target;
      var parentElement := element.parentElement;
      if parentElement != null {
        var i := 1;
        while i < |parentElement.content|
          invariant 1 <= i
          invariant IndexFrom(parentElement.content, element, 1) == IndexFrom(parentElement.content, element, i)
          decreases |parentElement.content| - i
        {
          if parentElement.content[i] == Child(element) {
            var prevSibling := parentElement.content[i - 1];
            if prevSibling.Text? {
              var prevText := prevSibling.text;
              return |prevText| - JavaText.Max(LastIndexOf(prevText, '\n'), LastIndexOf(prevText, '\r')) + 3;
            }
            break;
          }
          i := i + 1;
        }
      }
      return 0;
    }

    /** `addChild`: the indentation text and then the child go in front of
        the parent's trailing text node, or at the end when there is none. */
    method AddChild(child: Element)
      requires child.parentElement == null && child != target && child.content == []
      modifies this, target, child
      ensures BaseIndentation(target) >= 0
      ensures target.content == WithChild(old(target.content), CreateIndentation(old(BaseIndentation(target))), child)
      ensures target.attributes == old(target.attributes) && target.parentElement == old(target.parentElement)
      ensures child.parentElement == target
      ensures child.content == [] && child.attributes == old(child.attributes)
      ensures refreshes == old(refreshes) + 1
    {
      var indentation := GetBaseIndentation();
      BaseIndentationNonNegative(target);
      var pos := |target.content|;
      if pos > 0 && target.content[pos - 1].Text? {
        pos := pos - 1;
      }
      ghost var before := target.content;
      target.AddTextAt(pos, CreateIndentation(indentation));
      pos := pos + 1;
      target.AddChildAt(pos, child);
      assert target.content == before[..pos - 1] + [Text(CreateIndentation(indentation)), Child(child)] + before[pos - 1..];
      AddIndentation(child, indentation);
      refreshes := refreshes + 1;
    }

    /** `addIndentation` for an element without content: the loop test
        `i-- > 0` fails on its first evaluation, so no child element is
        visited, `hasElements` stays false and nothing is added. */
    method AddIndentation(element: Element, indentation: int)
      requires element.content == []
      modifies element
      ensures element.content == old(element.content)
      ensures element.attributes == old(element.attributes) && element.parentElement == old(element.parentElement)
    {
      var i := |element.content|;
      assert i == 0;
    }
  }
}
