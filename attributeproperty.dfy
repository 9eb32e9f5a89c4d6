/** A string property of the theme editor backed by one attribute of a DOM
    element: reading it reads the attribute, writing it sets or removes the
    attribute and notifies the property's listeners when the value changed. */
module Properties {
  import opened Wrappers
  import opened Dom
  import JavaText

  /** The attribute map after giving `key` the value `v`: set when present, removed when null. */
  function Assign(attributes: map<string, string>, key: string, v: Option<string>): map<string, string> {
    if v.Some? then attributes[key := v.value] else attributes - {key}
  }

  /** Reading the attribute back gives the value just assigned. */
  lemma AssignReadBack(attributes: map<string, string>, key: string, v: Option<string>)
    ensures v.Some? <==> key in Assign(attributes, key, v)
    ensures v.Some? ==> Assign(attributes, key, v)[key] == v.value
  {
  }

  /** Every other attribute keeps its presence and its value. */
  lemma AssignFrames(attributes: map<string, string>, key: string, v: Option<string>, other: string)
    requires other != key
    ensures other in Assign(attributes, key, v) <==> other in attributes
    ensures other in attributes ==> Assign(attributes, key, v)[other] == attributes[other]
  {
  }

  /** Assigning the value an attribute already has leaves the map as it is. */
  lemma AssignCurrent(attributes: map<string, string>, key: string, v: Option<string>)
    requires (v.Some? <==> key in attributes) && (v.Some? ==> attributes[key] == v.value)
    ensures Assign(attributes, key, v) == attributes
  {
  }

  /** Assigning twice is the same as assigning once. */
  lemma AssignIdempotent(attributes: map<string, string>, key: string, v: Option<string>)
    ensures Assign(Assign(attributes, key, v), key, v) == Assign(attributes, key, v)
  {
  }

  /** `Utils.capitalize`, assumed to upper-case the first character. */
  function Capitalize(s: string): (r: string)
    ensures |r| == |s|
    ensures |s| > 0 ==> r[0] == JavaText.ToUpperAscii(s[0]) && r[1..] == s[1..]
  {
    if s == [] then [] else [JavaText.ToUpperAscii(s[0])] + s[1..]
  }

  class AttributeProperty {
    const element: Element
    const attribute: string
    const name: string
    const canBeNull: bool
    /** How many times the value-changed callbacks were fired. */
    var fired: nat

    /** The two-argument constructor: the name is the capitalised attribute
        name and null is not accepted. */
    constructor (element: Element, attribute: string)
      ensures this.element == element && this.attribute == attribute
      ensures name == Capitalize(attribute) && !canBeNull && fired == 0
    {
      this.element := element;
      this.attribute := attribute;
      this.name := Capitalize(attribute);
      this.canBeNull := false;
      fired := 0;
    }

    constructor Named(element: Element, attribute: string, name: string, canBeNull: bool)
      ensures this.element == element && this.attribute == attribute
      ensures this.name == name && this.canBeNull == canBeNull && fired == 0
    {
      this.element := element;
      this.attribute := attribute;
      this.name := name;
      this.canBeNull := canBeNull;
      fired := 0;
    }

    function GetName(): string {
      name
    }

    /** The property is never read-only. */
    function IsReadOnly(): (r: bool)
      ensures !r
    {
      false
    }

    function CanBeNull(): bool {
      canBeNull
    }

    /** `getValue`: the attribute's current value, or null when it is absent. */
    function GetValue(): (r: Option<string>)
      reads element
      ensures r.Some? <==> attribute in element.attributes
      ensures r.Some? ==> r.value == element.attributes[attribute]
    {
      element.GetAttributeValue(attribute)
    }

    /** `setValue`: null is refused unless the property accepts it; a value
        equal to the current one changes nothing and fires nothing; any other
        value is stored (null removes the attribute) and fires the callbacks once. */
    method SetValue(value: Option<string>) returns (o: Outcome)
      modifies this, element
      ensures !canBeNull && value.None? ==> o == Fail(NullPointer("value"))
      ensures o.Fail? ==> element.attributes == old(element.attributes) && fired == old(fired)
      ensures canBeNull || value.Some? ==> o == Pass
      ensures o.Pass? ==> element.attributes == Assign(old(element.attributes), attribute, value)
      ensures o.Pass? ==> GetValue() == value
      ensures o.Pass? ==> fired == old(fired) + (if old(GetValue()) == value then 0 else 1)
      ensures element.content == old(element.content) && element.parentElement == old(element.parentElement)
    {
      if !canBeNull && value.None? {
        return Fail(NullPointer("value"));
      }
      var curValue := element.GetAttributeValue(attribute);
      if curValue != value {
        if value.None? {
          element.RemoveAttribute(attribute);
        } else {
          element.SetAttribute(attribute, value.value);
        }
        fired := fired + 1;
      } else {
        AssignCurrent(element.attributes, attribute, value);
      }
      AssignReadBack(old(element.attributes), attribute, value);
      return Pass;
    }

    /** `getPropertyValue` is `getValue`. */
    function GetPropertyValue(): (r: Option<string>)
      reads element
      ensures r == GetValue()
    {
      GetValue()
    }

    /** `setPropertyValue` is `setValue`. */
    method SetPropertyValue(value: Option<string>) returns (o: Outcome)
      modifies this, element
      ensures !canBeNull && value.None? ==> o == Fail(NullPointer("value"))
      ensures o.Fail? ==> element.attributes == old(element.attributes) && fired == old(fired)
      ensures canBeNull || value.Some? ==> o == Pass
      ensures o.Pass? ==> element.attributes == Assign(old(element.attributes), attribute, value)
      ensures o.Pass? ==> GetValue() == value
      ensures o.Pass? ==> fired == old(fired) + (if old(GetValue()) == value then 0 else 1)
      ensures element.content == old(element.content) && element.parentElement == old(element.parentElement)
    {
      o := SetValue(value);
    }
  }

  /** Setting the same value twice: the second call changes nothing and fires nothing. */
  method SetTwice(p: AttributeProperty, value: Option<string>) returns (first: Outcome, second: Outcome)
    modifies p, p.element
    ensures first == second
    ensures first.Pass? ==> p.fired == old(p.fired) + (if old(p.GetValue()) == value then 0 else 1)
    ensures p.element.attributes == (if first.Pass? then Assign(old(p.element.attributes), p.attribute, value) else old(p.element.attributes))
  {
    first := p.SetValue(value);
    ghost var firedBetween := p.fired;
    second := p.SetValue(value);
    if first.Pass? {
      AssignIdempotent(old(p.element.attributes), p.attribute, value);
      assert p.fired == firedBetween;
    }
  }
}
