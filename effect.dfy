/** Font effects: their editable properties, copying an effect's settings
    into a fresh instance, and the adapter that shows an AWT colour property
    as a TWL colour property. */
module Effects {
  import opened Wrappers

  /** A Java `byte`. */
  type JByte = x: int | -128 <= x < 128
  /** A colour channel of `java.awt.Color`. */
  type Channel = x: int | 0 <= x < 256

  /** A TWL colour: four channels held as Java bytes. */
  datatype Color = Color(r: JByte, g: JByte, b: JByte, a: JByte)
  /** An AWT colour: four channels in 0..255. */
  datatype AwtColor = AwtColor(red: Channel, green: Channel, blue: Channel, alpha: Channel)

  /** The values an effect's properties can hold. */
  datatype Value = TwlColor(color: Color) | Awt(awt: AwtColor) | Number(n: int) | Flag(b: bool) | Label(s: string)

  /** The `(byte)` cast of a channel: values above 127 wrap to negative. */
  function ToByte(c: Channel): (b: JByte)
    ensures b % 256 == c % 256
  {
    if c >= 128 then c - 256 else c
  }

  /** `b & 255` of a Java byte: its unsigned reading. */
  function Unsigned(b: JByte): (c: Channel)
    ensures c % 256 == b % 256
  {
    if b < 0 then b + 256 else b
  }

  lemma UnsignedToByte(c: Channel)
    ensures Unsigned(ToByte(c)) == c
  {
  }

  lemma ToByteUnsigned(b: JByte)
    ensures ToByte(Unsigned(b)) == b
  {
  }

  /** What `getPropertyValue` makes of an AWT colour. */
  function Narrow(c: AwtColor): Color {
    Color(ToByte(c.red), ToByte(c.green), ToByte(c.blue), ToByte(c.alpha))
  }

  /** What `setPropertyValue` makes of a TWL colour. */
  function Widen(c: Color): AwtColor {
    AwtColor(Unsigned(c.r), Unsigned(c.g), Unsigned(c.b), Unsigned(c.a))
  }

  /** Narrowing undoes widening: a TWL colour that is set reads back unchanged. */
  lemma NarrowWiden(c: Color)
    ensures Narrow(Widen(c)) == c
  {
    ToByteUnsigned(c.r);
    ToByteUnsigned(c.g);
    ToByteUnsigned(c.b);
    ToByteUnsigned(c.a);
  }

  /** Widening undoes narrowing: writing back what was read leaves the AWT colour as it was. */
  lemma WidenNarrow(c: AwtColor)
    ensures Widen(Narrow(c)) == c
  {
    UnsignedToByte(c.red);
    UnsignedToByte(c.green);
    UnsignedToByte(c.blue);
    UnsignedToByte(c.alpha);
  }

  /** An identifier for a registered value-changed callback. */
  datatype Callback = Callback(id: nat)

  /** A stored-value property with its listeners. */
  class Property<T> {
    const name: string
    const readOnly: bool
    const canBeNull: bool
    var value: Option<T>
    var callbacks: seq<Callback>

    constructor (name: string, readOnly: bool, canBeNull: bool, value: Option<T>)
      ensures this.name == name && this.readOnly == readOnly && this.canBeNull == canBeNull
      ensures this.value == value && callbacks == []
    {
      this.name := name;
      this.readOnly := readOnly;
      this.canBeNull := canBeNull;
      this.value := value;
      callbacks := [];
    }

    method SetPropertyValue(v: Option<T>)
      modifies this
      ensures value == v && callbacks == old(callbacks)
    {
      value := v;
    }

    method AddValueChangedCallback(cb: Callback)
      modifies this
      ensures callbacks == old(callbacks) + [cb] && value == old(value)
    {
      callbacks := callbacks + [cb];
    }

    method RemoveValueChangedCallback(cb: Callback)
      modifies this
      ensures callbacks == Without(old(callbacks), cb) && value == old(value)
    {
      callbacks := Without(callbacks, cb);
    }
  }

  /** The list of callbacks with the first registration of `cb` taken out. */
  function Without(cbs: seq<Callback>, cb: Callback): (r: seq<Callback>)
    ensures cb in cbs ==> |r| == |cbs| - 1
    ensures cb !in cbs ==> r == cbs
  {
    if cbs == [] then []
    else if cbs[0] == cb then cbs[1..]
    else [cbs[0]] + Without(cbs[1..], cb)
  }

  /** `ColorConvertProperty`: a TWL colour view of a property holding AWT colours. */
  class ColorConvertProperty {
    const base: Property<AwtColor>

    constructor (base: Property<AwtColor>)
      ensures this.base == base
    {
      this.base := base;
    }

    function GetName(): string {
      base.name
    }

    function IsReadOnly(): bool {
      base.readOnly
    }

    function CanBeNull(): bool {
      base.canBeNull
    }

    /** `getPropertyValue`: null exactly when the base holds null, otherwise
        the base colour with every channel cast to a byte. */
    function GetPropertyValue(): (r: Option<Color>)
      reads base
      ensures r.None? <==> base.value.None?
      ensures r.Some? ==> Widen(r.value) == base.value.value
    {
      match base.value
      case None => None
      case Some(c) => WidenNarrow(c); Some(Narrow(c))
    }

    /** `setPropertyValue`: null is passed on as null, a colour is passed on
        with every channel masked to 0..255; reading back gives the value set. */
    method SetPropertyValue(v: Option<Color>)
      modifies base
      ensures base.value == (if v.Some? then Some(Widen(v.value)) else None)
      ensures GetPropertyValue() == v
      ensures base.callbacks == old(base.callbacks)
    {
      if v.Some? {
        var c := v.value;
        base.SetPropertyValue(Some(AwtColor(Unsigned(c.r), Unsigned(c.g), Unsigned(c.b), Unsigned(c.a))));
        NarrowWiden(c);
      } else {
        base.SetPropertyValue(None);
      }
    }

    method AddValueChangedCallback(cb: Callback)
      modifies base
      ensures base.callbacks == old(base.callbacks) + [cb] && base.value == old(base.value)
    {
      base.AddValueChangedCallback(cb);
    }

    method RemoveValueChangedCallback(cb: Callback)
      modifies base
      ensures base.callbacks == Without(old(base.callbacks), cb) && base.value == old(base.value)
    {
      base.RemoveValueChangedCallback(cb);
    }
  }

  /** Name, read-only flag and can-be-null flag are the base property's. */
  lemma ForwardsBase(p: ColorConvertProperty)
    ensures p.GetName() == p.base.name
    ensures p.IsReadOnly() == p.base.readOnly
    ensures p.CanBeNull() == p.base.canBeNull
  {
  }

  /** Reading a colour through the adapter and writing it back leaves the base value unchanged. */
  method CopyThrough(p: ColorConvertProperty)
    modifies p.base
    ensures p.base.value == old(p.base.value)
  {
    var v := p.GetPropertyValue();
    p.SetPropertyValue(v);
    if old(p.base.value).Some? {
      WidenNarrow(old(p.base.value).value);
    }
  }

  /** A drawing surface; the render hooks may draw on it. */
  class Graphics2D {
    var drawn: seq<int>
  }

  /** What the effect knows about the font and the glyph being rendered. */
  datatype FontInfo = FontInfo(ascent: int, descent: int)
  datatype GlyphRect = GlyphRect(x: int, y: int, width: int, height: int)

  /** An effect: its properties (`getProperties()`), in a fixed order. */
  class Effect {
    var properties: seq<Property<Value>>

    /** The properties are distinct objects. */
    predicate Valid()
      reads this
    {
      forall i, j :: 0 <= i < j < |properties| ==> properties[i] != properties[j]
    }

    constructor (properties: seq<Property<Value>>)
      ensures this.properties == properties
    {
      this.properties := properties;
    }

    /** `createNew()`: a fresh instance of the same effect with its own,
        fresh properties of the same names and flags; their initial values
        are whatever the new instance starts with. */
    method CreateNew(initial: seq<Option<Value>>) returns (r: Effect)
      requires |initial| == |properties|
      ensures fresh(r) && r.Valid() && |r.properties| == |properties|
      ensures forall i :: 0 <= i < |properties| ==>
        fresh(r.properties[i]) && r.properties[i].name == properties[i].name && r.properties[i].value == initial[i]
      ensures forall i :: 0 <= i < |properties| ==>
        r.properties[i].readOnly == properties[i].readOnly && r.properties[i].canBeNull == properties[i].canBeNull
    {
      var ps: seq<Property<Value>> := [];
      var i := 0;
      while i < |properties|
        invariant 0 <= i <= |properties| && |ps| == i
        invariant forall k :: 0 <= k < i ==>
          fresh(ps[k]) && ps[k].name == properties[k].name && ps[k].value == initial[k]
        invariant forall k :: 0 <= k < i ==>
          ps[k].readOnly == properties[k].readOnly && ps[k].canBeNull == properties[k].canBeNull
        invariant forall k, l :: 0 <= k < l < i ==> ps[k] != ps[l]
      {
        var p := new Property(properties[i].name, properties[i].readOnly, properties[i].canBeNull, initial[i]);
        ps := ps + [p];
        i := i + 1;
      }
      r := new Effect(ps);
    }

    /** `makeCopy`: a fresh effect whose i-th property holds the i-th
        property value of this one; this effect is left as it was. */
    method MakeCopy(initial: seq<Option<Value>>) returns (result: Effect)
      requires |initial| == |properties|
      ensures fresh(result) && |result.properties| == |properties|
      ensures forall i :: 0 <= i < |properties| ==>
        fresh(result.properties[i]) && result.properties[i].name == properties[i].name
      ensures forall i :: 0 <= i < |properties| ==>
        result.properties[i].readOnly == properties[i].readOnly && result.properties[i].canBeNull == properties[i].canBeNull
      ensures forall i :: 0 <= i < |properties| ==> result.properties[i].value == properties[i].value
      ensures forall i :: 0 <= i < |properties| ==> properties[i].value == old(properties[i].value)
    {
      result := CreateNew(initial);
      var srcProp := properties;
      var dstProp := result.properties;
      var i := 0;
      while i < |srcProp|
        invariant 0 <= i <= |srcProp|
        invariant result.properties == dstProp && properties == srcProp
        invariant forall k :: 0 <= k < |srcProp| ==> srcProp[k].value == old(srcProp[k].value)
        invariant forall k :: 0 <= k < i ==> dstProp[k].value == srcProp[k].value
      {
        dstProp[i].SetPropertyValue(srcProp[i].value);
        i := i + 1;
      }
    }

    /** The four render hooks draw nothing unless an effect overrides them. */
    method PrePageRender(g: Graphics2D, fontInfo: FontInfo)
      modifies g
      ensures g.drawn == old(g.drawn)
    {
    }

    method PreGlyphRender(g: Graphics2D, fontInfo: FontInfo, glyph: GlyphRect)
      modifies g
      ensures g.drawn == old(g.drawn)
    {
    }

    method PostGlyphRender(g: Graphics2D, fontInfo: FontInfo, glyph: GlyphRect)
      modifies g
      ensures g.drawn == old(g.drawn)
    {
    }

    method PostPageRender(g: Graphics2D, fontInfo: FontInfo)
      modifies g
      ensures g.drawn == old(g.drawn)
    {
    }
  }
}
