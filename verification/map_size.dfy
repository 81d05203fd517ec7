/**
 * The map-size widget: two digit buffers (width and height) edited from
 * the keyboard while one of them has focus, kept in step with the
 * configured size while neither has, and applied on request by resizing
 * the map, recording the new size and clearing the undo history.
 */
module MapSize {
  import opened Base
  import opened Text
  import opened TileMapCore
  import opened Input
  import opened Undo
  import opened Resize

  /** Which buffer receives keystrokes. */
  datatype Focus = NoFocus | WidthField | HeightField

  /** `MapSizeInput`. */
  datatype SizeInput = SizeInput(focus: Focus, widthBuf: string, heightBuf: string, applyRequested: bool)

  /** The longest a buffer grows from typed digits. */
  const MAX_DIGITS: nat := 5

  // ---------------------------------------------------------------------
  // map_size_widget_interactions
  // ---------------------------------------------------------------------

  /** A press on the width field, the height field or the apply button. */
  datatype WidgetPress = PressWidth | PressHeight | PressApply

  /** A press focuses the pressed field, or requests an apply; nothing else changes. */
  function WidgetPressed(input: SizeInput, p: WidgetPress): (r: SizeInput)
    ensures r.widthBuf == input.widthBuf && r.heightBuf == input.heightBuf
    ensures p == PressWidth ==> r == input.(focus := WidthField)
    ensures p == PressHeight ==> r == input.(focus := HeightField)
    ensures p == PressApply ==> r.applyRequested && r.focus == input.focus
  {
    match p
    case PressWidth => input.(focus := WidthField)
    case PressHeight => input.(focus := HeightField)
    case PressApply => input.(applyRequested := true)
  }

  // ---------------------------------------------------------------------
  // map_size_text_input
  // ---------------------------------------------------------------------

  /**
   * The digit keys from `d` up to 9, scanned in order: each one pressed
   * this frame is appended while the buffer is shorter than five
   * characters.
   */
  function TypedDigits(buf: string, k: Keys, d: nat): (r: string)
    ensures |r| >= |buf| && r[..|buf|] == buf
    ensures |buf| <= MAX_DIGITS ==> |r| <= MAX_DIGITS
    ensures |buf| >= MAX_DIGITS ==> r == buf
    ensures AllDigits(buf) ==> AllDigits(r)
    ensures (forall e :: d <= e < 10 ==> !Tapped(k, Digit(e))) ==> r == buf
    decreases 10 - d
  {
    if d >= 10 then buf
    else
      var next := if Tapped(k, Digit(d)) && |buf| < MAX_DIGITS then buf + [DigitChar(d)] else buf;
      var r := TypedDigits(next, k, d + 1);
      assert r[..|buf|] == next[..|buf|] by { assert r[..|next|] == next; }
      r
  }

  /** The focused buffer after one frame of keystrokes: digits typed, then Backspace. */
  function EditedBuffer(buf: string, k: Keys): (r: string)
    ensures |buf| <= MAX_DIGITS ==> |r| <= MAX_DIGITS
    ensures AllDigits(buf) ==> AllDigits(r)
    ensures var t := TypedDigits(buf, k, 0);
      Tapped(k, Backspace) && t != [] ==> r == t[..|t| - 1]
    ensures !Tapped(k, Backspace) ==> r == TypedDigits(buf, k, 0)
  {
    var t := TypedDigits(buf, k, 0);
    if Tapped(k, Backspace) && t != [] then t[..|t| - 1] else t
  }

  /**
   * One frame of `map_size_text_input`: without focus nothing happens;
   * otherwise the focused buffer is edited, Escape drops the focus and
   * Enter requests an apply and drops the focus.
   */
  function TextInput(input: SizeInput, k: Keys): (r: SizeInput)
    ensures input.focus == NoFocus ==> r == input
    ensures input.focus == WidthField ==>
      r.widthBuf == EditedBuffer(input.widthBuf, k) && r.heightBuf == input.heightBuf
    ensures input.focus == HeightField ==>
      r.heightBuf == EditedBuffer(input.heightBuf, k) && r.widthBuf == input.widthBuf
    ensures input.focus != NoFocus ==>
      && r.applyRequested == (input.applyRequested || Tapped(k, Enter))
      && r.focus == (if Tapped(k, Escape) || Tapped(k, Enter) then NoFocus else input.focus)
  {
    match input.focus
    case NoFocus => input
    case WidthField =>
      var i1 := input.(widthBuf := EditedBuffer(input.widthBuf, k));
      FocusKeys(i1, k)
    case HeightField =>
      var i1 := input.(heightBuf := EditedBuffer(input.heightBuf, k));
      FocusKeys(i1, k)
  }

  /** Escape, then Enter. */
  function FocusKeys(input: SizeInput, k: Keys): (r: SizeInput)
    ensures r.widthBuf == input.widthBuf && r.heightBuf == input.heightBuf
    ensures r.applyRequested == (input.applyRequested || Tapped(k, Enter))
    ensures r.focus == (if Tapped(k, Escape) || Tapped(k, Enter) then NoFocus else input.focus)
  {
    var i1 := if Tapped(k, Escape) then input.(focus := NoFocus) else input;
    if Tapped(k, Enter) then i1.(applyRequested := true, focus := NoFocus) else i1
  }

  /** Both buffers hold at most five digits. */
  predicate BuffersWellFormed(input: SizeInput)
  {
    |input.widthBuf| <= MAX_DIGITS && |input.heightBuf| <= MAX_DIGITS
    && AllDigits(input.widthBuf) && AllDigits(input.heightBuf)
  }

  /** The frames of keystrokes applied in order. */
  function TypeFrames(input: SizeInput, frames: seq<Keys>): (r: SizeInput)
    decreases |frames|
  {
    if frames == [] then input else TypeFrames(TextInput(input, frames[0]), frames[1..])
  }

  /** However long the user types, a well-formed pair of buffers stays well-formed: at most five digits each. */
  lemma {:induction false} TypingKeepsBuffersShort(input: SizeInput, frames: seq<Keys>)
    requires BuffersWellFormed(input)
    ensures BuffersWellFormed(TypeFrames(input, frames))
    decreases |frames|
  {
    if frames != [] {
      TypingKeepsBuffersShort(TextInput(input, frames[0]), frames[1..]);
    }
  }

  /** A frame with only digit key `d` pressed. */
  function DigitFrame(d: nat): Keys
  {
    Keys({Digit(d)}, {Digit(d)}, {})
  }

  /** Typing one digit into a focused buffer shorter than five appends it. */
  lemma TypeOneDigit(buf: string, d: nat)
    requires d < 10 && |buf| < MAX_DIGITS
    ensures EditedBuffer(buf, DigitFrame(d)) == buf + [DigitChar(d)]
  {
    var k := DigitFrame(d);
    assert !Tapped(k, Backspace);
    OnlyDigitTyped(buf, k, d, 0);
  }

  /** With only digit `d` pressed, the scan from `e <= d` appends exactly that digit. */
  lemma {:induction false} OnlyDigitTyped(buf: string, k: Keys, d: nat, e: nat)
    requires d < 10 && e <= d && |buf| < MAX_DIGITS
    requires k == DigitFrame(d)
    ensures TypedDigits(buf, k, e) == buf + [DigitChar(d)]
    decreases d - e
  {
    if e < d {
      assert !Tapped(k, Digit(e));
      OnlyDigitTyped(buf, k, d, e + 1);
    } else {
      var next := buf + [DigitChar(d)];
      assert forall f :: d + 1 <= f < 10 ==> !Tapped(k, Digit(f));
      assert TypedDigits(next, k, d + 1) == next;
    }
  }

  /** Backspace right after a digit takes the digit back. */
  lemma TypeThenBackspace(buf: string, d: nat)
    requires d < 10 && |buf| < MAX_DIGITS
    ensures EditedBuffer(buf + [DigitChar(d)], Keys({Backspace}, {Backspace}, {})) == buf
  {
    var k := Keys({Backspace}, {Backspace}, {});
    var b := buf + [DigitChar(d)];
    assert forall e :: 0 <= e < 10 ==> !Tapped(k, Digit(e));
    assert TypedDigits(b, k, 0) == b;
    assert b[..|b| - 1] == buf;
  }

  // ---------------------------------------------------------------------
  // sync_map_size_input_from_config
  // ---------------------------------------------------------------------

  /** While neither buffer has focus, both show the configured size. */
  function SyncFromConfig(input: SizeInput, mapSize: (nat, nat)): (r: SizeInput)
    ensures input.focus != NoFocus ==> r == input
    ensures input.focus == NoFocus ==>
      && r.widthBuf == NatToString(mapSize.0) && r.heightBuf == NatToString(mapSize.1)
      && r.focus == NoFocus && r.applyRequested == input.applyRequested
  {
    if input.focus != NoFocus then input
    else input.(widthBuf := NatToString(mapSize.0), heightBuf := NatToString(mapSize.1))
  }

  // ---------------------------------------------------------------------
  // apply_custom_map_size
  // ---------------------------------------------------------------------

  /** The state an apply reads and writes: the widget, the configured size, the map and the undo history. */
  datatype SizeFrame = SizeFrame(input: SizeInput, mapSize: (nat, nat), tileMap: Option<TileMap>, undo: UndoStack)

  /** The size an apply would use: both buffers parse as `u32` and neither is zero. */
  function RequestedSize(input: SizeInput): (r: Option<(nat, nat)>)
    ensures r.Some? <==> ParseU32Std(input.widthBuf).Some? && ParseU32Std(input.heightBuf).Some?
                         && ParseU32Std(input.widthBuf).value > 0 && ParseU32Std(input.heightBuf).value > 0
    ensures r.Some? ==> r.value == (ParseU32Std(input.widthBuf).value, ParseU32Std(input.heightBuf).value)
  {
    match (ParseU32Std(input.widthBuf), ParseU32Std(input.heightBuf))
    case (Some(w), Some(h)) => if w == 0 || h == 0 then None else Some((w, h))
    case _ => None
  }

  /** The current map holds at least one whole layer, as the resize needs. */
  predicate Resizable(tileMap: Option<TileMap>)
  {
    tileMap.Some? ==> |tileMap.value.tiles| >= LayerLen(tileMap.value)
  }

  /**
   * `apply_custom_map_size`: does nothing unless an apply was requested;
   * consumes the request; with a valid size, replaces the map by the
   * resized copy, records the size and clears the undo history.
   */
  function ApplyMapSize(f: SizeFrame): (r: SizeFrame)
    requires Resizable(f.tileMap)
    ensures !f.input.applyRequested ==> r == f
    ensures f.input.applyRequested ==> r.input == f.input.(applyRequested := false)
    ensures f.input.applyRequested && RequestedSize(f.input).None? ==>
      r.mapSize == f.mapSize && r.tileMap == f.tileMap && r.undo == f.undo
    ensures f.input.applyRequested && RequestedSize(f.input).Some? ==>
      var (w, h) := RequestedSize(f.input).value;
      && r.mapSize == (w, h)
      && r.tileMap == Some(ResizedMapCopy(f.tileMap, w, h))
      && Valid(r.tileMap.value) && r.tileMap.value.width == w && r.tileMap.value.height == h
      && r.undo.undo == [] && r.undo.redo == [] && r.undo.maxLen == f.undo.maxLen
  {
    if !f.input.applyRequested then f
    else
      var input := f.input.(applyRequested := false);
      match RequestedSize(f.input)
      case None => f.(input := input)
      case Some((w, h)) => SizeFrame(input, (w, h), Some(ResizedMapCopy(f.tileMap, w, h)), Clear(f.undo))
  }

  /** A digit buffer of at most five characters that is not empty always parses. */
  lemma ShortBufferParses(buf: string)
    requires buf != [] && AllDigits(buf) && |buf| <= MAX_DIGITS
    ensures ParseU32Std(buf) == Some(DecimalValue(buf))
  {
    Pow10Mono(|buf|);
    assert buf[0] != '+' by { assert IsDigit(buf[0]); }
  }

  /** Up to five digits, 10^n is at most 100000. */
  lemma Pow10Mono(n: nat)
    requires n <= MAX_DIGITS
    ensures Pow10(n) <= 100000
  {
    assert Pow10(1) == 10 && Pow10(2) == 100 && Pow10(3) == 1000;
    assert Pow10(4) == 10000 && Pow10(5) == 100000;
    assert n == 0 || n == 1 || n == 2 || n == 3 || n == 4 || n == 5;
  }

  /**
   * Applying right after the buffers were synchronised from the
   * configuration keeps the configured size and resizes the map to it.
   */
  lemma ApplySyncedKeepsSize(f: SizeFrame)
    requires Resizable(f.tileMap)
    requires f.input.focus == NoFocus && f.input.applyRequested
    requires 0 < f.mapSize.0 <= U32_MAX && 0 < f.mapSize.1 <= U32_MAX
    ensures var g := f.(input := SyncFromConfig(f.input, f.mapSize));
      var r := ApplyMapSize(g);
      r.mapSize == f.mapSize && r.tileMap == Some(ResizedMapCopy(f.tileMap, f.mapSize.0, f.mapSize.1))
  {
    ParseU32StdOfString(f.mapSize.0);
    ParseU32StdOfString(f.mapSize.1);
  }

  /**
   * Typing a width and pressing Enter applies it: a non-empty, non-zero
   * width buffer next to a valid height becomes the configured width.
   */
  lemma EnterAppliesTypedWidth(f: SizeFrame, k: Keys)
    requires Resizable(f.tileMap)
    requires f.input.focus == WidthField && BuffersWellFormed(f.input)
    requires Tapped(k, Enter)
    requires var b := EditedBuffer(f.input.widthBuf, k); b != [] && DecimalValue(b) > 0
    requires f.input.heightBuf != [] && DecimalValue(f.input.heightBuf) > 0
    ensures var r := ApplyMapSize(f.(input := TextInput(f.input, k)));
      && r.mapSize == (DecimalValue(EditedBuffer(f.input.widthBuf, k)), DecimalValue(f.input.heightBuf))
      && r.input.focus == NoFocus && !r.input.applyRequested
  {
    var b := EditedBuffer(f.input.widthBuf, k);
    ShortBufferParses(b);
    ShortBufferParses(f.input.heightBuf);
  }

  /** Escape drops the focus without applying; the next sync puts the configured size back in the buffers. */
  lemma EscapeDiscards(f: SizeFrame, k: Keys)
    requires Resizable(f.tileMap)
    requires f.input.focus != NoFocus && !f.input.applyRequested
    requires Tapped(k, Escape) && !Tapped(k, Enter)
    ensures var i1 := TextInput(f.input, k);
      var r := ApplyMapSize(f.(input := i1));
      && r.mapSize == f.mapSize && r.tileMap == f.tileMap && r.undo == f.undo
      && SyncFromConfig(r.input, r.mapSize).widthBuf == NatToString(f.mapSize.0)
      && SyncFromConfig(r.input, r.mapSize).heightBuf == NatToString(f.mapSize.1)
  {
  }
}
