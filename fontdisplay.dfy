/** The font preview widget of the font generator: it remembers the current
    generation settings, starts a generation job whenever a setting changes,
    and coalesces the requests that arrive while a job is running into a
    single follow-up job. The job itself (rasterising and uploading the
    texture) runs elsewhere; here it is the record of what was submitted. */
module FontGui {
  import opened Wrappers
  import opened Bytes
  import FontGen
  import Kernings
  import Effects
  import JavaText

  // ---------------------------------------------------------------- padding

  /** Extra space around every glyph, per side. */
  datatype Padding = Padding(top: int, left: int, bottom: int, right: int)

  const ZERO: Padding := Padding(0, 0, 0, 0)

  /** `Padding.max`, taken to be the side-by-side maximum. */
  function PadMax(p: Padding, q: Padding): Padding {
    Padding(JavaText.Max(p.top, q.top), JavaText.Max(p.left, q.left), JavaText.Max(p.bottom, q.bottom), JavaText.Max(p.right, q.right))
  }

  /** `p` is at most `q` on every side. */
  predicate Le(p: Padding, q: Padding) {
    p.top <= q.top && p.left <= q.left && p.bottom <= q.bottom && p.right <= q.right
  }

  /** An effect's renderer; only the padding it asks for matters here. */
  datatype Renderer = Renderer(padding: Option<Padding>)

  /** The automatic padding for a list of renderers: the maximum, side by
      side, of ZERO and every padding a renderer asks for, taken in order. */
  function AutoPadding(rs: seq<Renderer>): Padding {
    if rs == [] then ZERO
    else
      var p := AutoPadding(rs[..|rs| - 1]);
      var ep := rs[|rs| - 1].padding;
      if ep.Some? then PadMax(p, ep.value) else p
  }

  /** The automatic padding covers ZERO and every requested padding. */
  lemma {:induction false} AutoPaddingCovers(rs: seq<Renderer>)
    ensures Le(ZERO, AutoPadding(rs))
    ensures forall i :: 0 <= i < |rs| && rs[i].padding.Some? ==> Le(rs[i].padding.value, AutoPadding(rs))
  {
    if rs != [] {
      var init := rs[..|rs| - 1];
      AutoPaddingCovers(init);
      assert forall i :: 0 <= i < |init| ==> init[i] == rs[i];
    }
  }

  /** ... and is the least padding that does: any padding covering ZERO and
      every requested padding covers the automatic one. */
  lemma {:induction false} AutoPaddingLeast(rs: seq<Renderer>, q: Padding)
    requires Le(ZERO, q)
    requires forall i :: 0 <= i < |rs| && rs[i].padding.Some? ==> Le(rs[i].padding.value, q)
    ensures Le(AutoPadding(rs), q)
  {
    if rs != [] {
      var init := rs[..|rs| - 1];
      assert forall i :: 0 <= i < |init| ==> init[i] == rs[i];
      AutoPaddingLeast(init, q);
    }
  }

  /** The renderers `setEffects` creates, one per effect, in order. */
  function Renderers(effects: seq<Effects.Effect>, createRenderer: Effects.Effect -> Renderer): (r: seq<Renderer>)
    ensures |r| == |effects|
  {
    if effects == [] then []
    else Renderers(effects[..|effects| - 1], createRenderer) + [createRenderer(effects[|effects| - 1])]
  }

  lemma {:induction false} RenderersAt(effects: seq<Effects.Effect>, createRenderer: Effects.Effect -> Renderer, i: nat)
    requires i < |effects|
    ensures Renderers(effects, createRenderer)[i] == createRenderer(effects[i])
  {
    if i < |effects| - 1 {
      RenderersAt(effects[..|effects| - 1], createRenderer, i);
    }
  }

  // ---------------------------------------------------------------- state

  /** The generator method chosen in the dialog. */
  datatype GeneratorMethod = GeneratorMethod(id: nat)

  /** The widget's generation settings. A null field of the widget is `None` here. */
  datatype Settings = Settings(
    hasGui: bool,
    textureSize: int,
    fontData: FontGen.FontData?,
    padding: Option<Padding>,
    paddingAutomatic: bool,
    useAA: bool,
    charSet: Option<Kernings.CharSet>,
    effects: Option<seq<Renderer>>,
    generatorMethod: Option<GeneratorMethod>)

  /** A generation job as `update` submits it. */
  datatype Job = GenFont(
    textureSize: int,
    fontData: FontGen.FontData,
    padding: Padding,
    charSet: Kernings.CharSet,
    effects: seq<Renderer>,
    useAA: bool,
    generatorMethod: GeneratorMethod)

  /** The coalescing flags, the jobs submitted so far and how often the
      completion callback ran. */
  datatype Flags = Flags(pendingUpdate: bool, updateRunning: bool, submitted: seq<Job>, callbacksRun: nat)

  /** Everything a generation job needs is set: the guard of `update`. */
  predicate Ready(s: Settings) {
    s.hasGui && s.textureSize > 0 && s.fontData != null && (s.paddingAutomatic || s.padding.Some?)
    && s.charSet.Some? && s.effects.Some? && s.generatorMethod.Some?
  }

  /** The padding a job is generated with: automatic or the stored one. */
  function PaddingFor(s: Settings): Padding
    requires s.paddingAutomatic ==> s.effects.Some?
    requires s.paddingAutomatic || s.padding.Some?
  {
    if s.paddingAutomatic then AutoPadding(s.effects.value) else s.padding.value
  }

  function JobFor(s: Settings): Job
    requires Ready(s)
  {
    GenFont(s.textureSize, s.fontData, PaddingFor(s), s.charSet.value, s.effects.value, s.useAA, s.generatorMethod.value)
  }

  /** `update`: nothing unless ready; while a job runs, only remember that
      another one is wanted; when idle, submit one job and mark it running. */
  function AfterUpdate(s: Settings, f: Flags): Flags {
    if !Ready(s) then f
    else if f.updateRunning then f.(pendingUpdate := true)
    else f.(submitted := f.submitted + [JobFor(s)], updateRunning := true)
  }

  /** `updateDone`: the job ended; a remembered request is served by one
      `update`; the completion callback runs in every case. */
  function AfterDone(s: Settings, f: Flags): Flags {
    var g := f.(updateRunning := false);
    var h := if g.pendingUpdate then AfterUpdate(s, g.(pendingUpdate := false)) else g;
    h.(callbacksRun := h.callbacksRun + 1)
  }

  /** At most one job is in flight: a request is only remembered while a job
      runs, and every submitted job but the running one has completed. */
  predicate Inv(f: Flags) {
    (f.pendingUpdate ==> f.updateRunning)
    && |f.submitted| == f.callbacksRun + (if f.updateRunning then 1 else 0)
  }

  lemma UpdateKeepsInv(s: Settings, f: Flags)
    requires Inv(f)
    ensures Inv(AfterUpdate(s, f))
  {
  }

  lemma DoneKeepsInv(s: Settings, f: Flags)
    requires Inv(f) && f.updateRunning
    ensures Inv(AfterDone(s, f))
  {
  }

  /** `n` requests in a row. */
  function Updates(s: Settings, f: Flags, n: nat): Flags {
    if n == 0 then f else AfterUpdate(s, Updates(s, f, n - 1))
  }

  /** While a job runs, any number of requests submit nothing and leave one
      remembered request (when the settings are ready). */
  lemma {:induction false} UpdatesWhileRunning(s: Settings, f: Flags, n: nat)
    requires f.updateRunning
    ensures Updates(s, f, n).submitted == f.submitted
    ensures Updates(s, f, n).updateRunning
    ensures Updates(s, f, n).pendingUpdate == (f.pendingUpdate || (n > 0 && Ready(s)))
    ensures Updates(s, f, n).callbacksRun == f.callbacksRun
  {
    if n > 0 {
      UpdatesWhileRunning(s, f, n - 1);
    }
  }

  /** Many requests during one run collapse into exactly one follow-up job
      once the run is done. */
  lemma Coalesce(s: Settings, f: Flags, n: nat)
    requires f.updateRunning && !f.pendingUpdate && n > 0 && Ready(s)
    ensures AfterDone(s, Updates(s, f, n)).submitted == f.submitted + [JobFor(s)]
    ensures AfterDone(s, Updates(s, f, n)).updateRunning
    ensures !AfterDone(s, Updates(s, f, n)).pendingUpdate
  {
    UpdatesWhileRunning(s, f, n);
  }

  /** When the widget is idle and ready, a request submits exactly one job. */
  lemma UpdateWhenIdle(s: Settings, f: Flags)
    requires !f.updateRunning && Ready(s)
    ensures AfterUpdate(s, f).submitted == f.submitted + [JobFor(s)]
    ensures AfterUpdate(s, f).updateRunning
  {
  }

  /** A job never starts unless the settings are complete. */
  lemma NotReadySubmitsNothing(s: Settings, f: Flags)
    requires !Ready(s)
    ensures AfterUpdate(s, f) == f
  {
  }

  // ---------------------------------------------------------------- buffers

  /** A direct `ByteBuffer`: fixed capacity, a position and a limit. */
  class ByteBuffer {
    const data: array<Byte>
    const capacity: nat
    var position: nat
    var limit: nat

    /** `ByteBuffer.allocateDirect(capacity)` for a non-negative capacity. */
    constructor Allocate(capacity: nat)
      ensures this.capacity == capacity && data.Length == capacity && fresh(data)
      ensures position == 0 && limit == capacity
    {
      this.capacity := capacity;
      data := new Byte[capacity](_ => 0);
      position := 0;
      limit := capacity;
    }

    /** `clear()`: position 0, limit at the capacity. */
    method Clear()
      modifies this
      ensures position == 0 && limit == capacity
    {
      position := 0;
      limit := capacity;
    }

    /** `limit(newLimit)`: refused outside 0..capacity; the position is pulled back to the new limit. */
    method SetLimit(newLimit: int) returns (o: Outcome)
      modifies this
      ensures newLimit < 0 || newLimit > capacity ==>
        o == Fail(IllegalArgument("newLimit")) && position == old(position) && limit == old(limit)
      ensures 0 <= newLimit <= capacity ==>
        o == Pass && limit == newLimit && position == (if old(position) > newLimit then newLimit else old(position))
    {
      if newLimit < 0 || newLimit > capacity {
        return Fail(IllegalArgument("newLimit"));
      }
      limit := newLimit;
      if position > newLimit {
        position := newLimit;
      }
      return Pass;
    }
  }

  // ---------------------------------------------------------------- the widget

  class FontDisplay {
    var hasGui: bool
    var textureSize: int
    var fontData: FontGen.FontData?
    var padding: Option<Padding>
    var paddingAutomatic: bool
    var useAA: bool
    var charSet: Option<Kernings.CharSet>
    var effects: Option<seq<Renderer>>
    var generatorMethod: Option<GeneratorMethod>

    var pendingUpdate: bool
    var updateRunning: bool
    /** The jobs handed to the executor, in order. */
    var submitted: seq<Job>
    /** How often the completion callback ran. */
    var callbacksRun: nat
    var buffer: ByteBuffer?

    function CurrentSettings(): Settings
      reads this
    {
      Settings(hasGui, textureSize, fontData, padding, paddingAutomatic, useAA, charSet, effects, generatorMethod)
    }

    function CurrentFlags(): Flags
      reads this
    {
      Flags(pendingUpdate, updateRunning, submitted, callbacksRun)
    }

    constructor ()
      ensures CurrentSettings() == Settings(false, 0, null, None, false, false, None, None, None)
      ensures CurrentFlags() == Flags(false, false, [], 0) && Inv(CurrentFlags())
      ensures buffer == null
    {
      hasGui := false;
      textureSize := 0;
      fontData := null;
      padding := None;
      paddingAutomatic := false;
      useAA := false;
      charSet := None;
      effects := None;
      generatorMethod := None;
      pendingUpdate := false;
      updateRunning := false;
      submitted := [];
      callbacksRun := 0;
      buffer := null;
    }

    /** The widget was added to (or removed from) a GUI, so `getGUI()` now
        answers (or answers null). */
    method SetGuiAttached(attached: bool)
      modifies this
      ensures CurrentSettings() == old(CurrentSettings()).(hasGui := attached)
      ensures CurrentFlags() == old(CurrentFlags()) && buffer == old(buffer)
    {
      hasGui := attached;
    }

    /** `computePadding`: the fold of `max` over the renderers' paddings in
        automatic mode, the stored padding otherwise. */
    method ComputePadding() returns (p: Padding)
      requires paddingAutomatic ==> effects.Some?
      requires paddingAutomatic || padding.Some?
      ensures p == PaddingFor(CurrentSettings())
    {
      if paddingAutomatic {
        var rs := effects.value;
        p := ZERO;
        var i := 0;
        while i < |rs|
          invariant 0 <= i <= |rs|
          invariant p == AutoPadding(rs[..i])
        {
          var ep := rs[i].padding;
          if ep.Some? {
            p := PadMax(p, ep.value);
          }
          assert rs[..i + 1][..i] == rs[..i];
          i := i + 1;
        }
        assert rs[..|rs|] == rs;
      } else {
        p := padding.value;
      }
    }

    /** `update`. */
    method Update()
      modifies this
      ensures CurrentSettings() == old(CurrentSettings()) && buffer == old(buffer)
      ensures CurrentFlags() == AfterUpdate(CurrentSettings(), old(CurrentFlags()))
    {
      if hasGui && textureSize > 0 && fontData != null && (paddingAutomatic || padding.Some?)
        && charSet.Some? && effects.Some? && generatorMethod.Some?
      {
        if updateRunning {
          pendingUpdate := true;
        } else {
          var p := ComputePadding();
          submitted := submitted + [GenFont(textureSize, fontData, p, charSet.value, effects.value, useAA, generatorMethod.value)];
          updateRunning := true;
        }
      }
    }

    /** `updateDone`, called on the GUI thread when a job has finished. */
    method UpdateDone()
      requires updateRunning
      modifies this
      ensures CurrentSettings() == old(CurrentSettings()) && buffer == old(buffer)
      ensures CurrentFlags() == AfterDone(CurrentSettings(), old(CurrentFlags()))
    {
      updateRunning := false;
      if pendingUpdate {
        pendingUpdate := false;
        Update();
      }
      callbacksRun := callbacksRun + 1;
    }

    method SetTextureSize(textureSize: int)
      modifies this
      ensures CurrentSettings() == old(CurrentSettings()).(textureSize := textureSize)
      ensures CurrentFlags() == AfterUpdate(CurrentSettings(), old(CurrentFlags())) && buffer == old(buffer)
    {
      this.textureSize := textureSize;
      Update();
    }

    method SetFontData(fontData: FontGen.FontData?)
      modifies this
      ensures CurrentSettings() == old(CurrentSettings()).(fontData := fontData)
      ensures CurrentFlags() == AfterUpdate(CurrentSettings(), old(CurrentFlags())) && buffer == old(buffer)
    {
      this.fontData := fontData;
      Update();
    }

    /** `setPaddingManual`: stores the padding (possibly null) and leaves automatic mode. */
    method SetPaddingManual(padding: Option<Padding>)
      modifies this
      ensures CurrentSettings() == old(CurrentSettings()).(padding := padding, paddingAutomatic := false)
      ensures CurrentFlags() == AfterUpdate(CurrentSettings(), old(CurrentFlags())) && buffer == old(buffer)
    {
      this.padding := padding;
      paddingAutomatic := false;
      Update();
    }

    /** `setPaddingAutomatic`: forgets the stored padding and enters automatic mode. */
    method SetPaddingAutomatic()
      modifies this
      ensures CurrentSettings() == old(CurrentSettings()).(padding := None, paddingAutomatic := true)
      ensures CurrentFlags() == AfterUpdate(CurrentSettings(), old(CurrentFlags())) && buffer == old(buffer)
    {
      padding := None;
      paddingAutomatic := true;
      Update();
    }

    method SetUseAA(useAA: bool)
      modifies this
      ensures CurrentSettings() == old(CurrentSettings()).(useAA := useAA)
      ensures CurrentFlags() == AfterUpdate(CurrentSettings(), old(CurrentFlags())) && buffer == old(buffer)
    {
      this.useAA := useAA;
      Update();
    }

    method SetGeneratorMethod(generatorMethod: Option<GeneratorMethod>)
      modifies this
      ensures CurrentSettings() == old(CurrentSettings()).(generatorMethod := generatorMethod)
      ensures CurrentFlags() == AfterUpdate(CurrentSettings(), old(CurrentFlags())) && buffer == old(buffer)
    {
      this.generatorMethod := generatorMethod;
      Update();
    }

    /** `setCharSet`: keeps a copy of the character set. */
    method SetCharSet(charSet: Kernings.CharSet)
      modifies this
      ensures CurrentSettings() == old(CurrentSettings()).(charSet := Some(charSet))
      ensures CurrentFlags() == AfterUpdate(CurrentSettings(), old(CurrentFlags())) && buffer == old(buffer)
    {
      this.charSet := Some(charSet);
      Update();
    }

    /** `setEffects`: one renderer per effect, created in order. */
    method SetEffects(effects: seq<Effects.Effect>, createRenderer: Effects.Effect -> Renderer)
      modifies this
      ensures CurrentSettings() == old(CurrentSettings()).(effects := Some(Renderers(effects, createRenderer)))
      ensures CurrentFlags() == AfterUpdate(CurrentSettings(), old(CurrentFlags())) && buffer == old(buffer)
    {
      var tmp: seq<Renderer> := [];
      var i := 0;
      while i < |effects|
        invariant 0 <= i <= |effects|
        invariant tmp == Renderers(effects[..i], createRenderer)
      {
        assert effects[..i + 1][..i] == effects[..i];
        tmp := tmp + [createRenderer(effects[i])];
        i := i + 1;
      }
      assert effects[..|effects|] == effects;
      this.effects := Some(tmp);
      Update();
    }

    /** `getBuffer`: a buffer of at least `size` bytes, cleared and limited to
        `size`; a new one is allocated only when there is none or the current
        one is too small. A negative size is refused, by `allocateDirect` when
        there is no buffer and by `limit` after the existing one was cleared. */
    method GetBuffer(size: int) returns (r: Result<ByteBuffer>)
      modifies this, buffer
      ensures CurrentSettings() == old(CurrentSettings()) && CurrentFlags() == old(CurrentFlags())
      ensures size < 0 ==> r.Err? && r.error.IllegalArgument? && buffer == old(buffer)
      ensures size < 0 && buffer != null ==> buffer.position == 0 && buffer.limit == buffer.capacity
      ensures size >= 0 ==> buffer != null && r == Ok(buffer)
      ensures size >= 0 ==> buffer.position == 0 && buffer.limit == size && size <= buffer.capacity
      ensures size >= 0 && old(buffer) != null && old(buffer).capacity >= size ==> buffer == old(buffer)
      ensures size >= 0 && (old(buffer) == null || old(buffer).capacity < size) ==>
        fresh(buffer) && buffer.capacity == size
    {
      if buffer == null || buffer.capacity < size {
        if size < 0 {
          return Err(IllegalArgument("capacity < 0"));
        }
        buffer := new ByteBuffer.Allocate(size);
      }
      buffer.Clear();
      var o := buffer.SetLimit(size);
      if o.Fail? {
        return Err(o.error);
      }
      return Ok(buffer);
    }
  }
}
