/**
 * Where a clipboard cell lands when pasted under the current orientation:
 * rotate clockwise by `rot % 4` quarter turns, then mirror the rotated block.
 */
module PasteHelpers {
  import opened Base
  import opened Selection
  import opened Editor

  /** `a.checked_sub(b)`. */
  function CheckedSub(a: nat, b: nat): (r: Option<nat>)
    ensures r.Some? <==> b <= a
    ensures r.Some? ==> r.value + b == a
  {
    if b <= a then Some(a - b) else None
  }

  /** `paste_dims`: the size of the pasted block. */
  function PasteDims(c: Clipboard, p: PasteState): (d: (nat, nat))
    ensures d.0 * d.1 == c.width * c.height
    ensures c.width == 0 || c.height == 0 ==> d == (0, 0)
    ensures c.width > 0 && c.height > 0 ==> d.0 > 0 && d.1 > 0
  {
    if c.width == 0 || c.height == 0 then (0, 0)
    else if p.rot % 4 == 1 || p.rot % 4 == 3 then (c.height, c.width)
    else (c.width, c.height)
  }

  /** The clipboard cell `s` after rotation, before mirroring. */
  function Rotated(s: Point, c: Clipboard, rot: nat): (r: Option<Point>)
  {
    var w, h := c.width, c.height;
    if rot == 0 then Some(s)
    else if rot == 1 then
      match CheckedSub(h, 1 + s.y)
      case None => None
      case Some(a) => Some(Point(a, s.x))
    else if rot == 2 then
      match CheckedSub(w, 1 + s.x)
      case None => None
      case Some(a) =>
        match CheckedSub(h, 1 + s.y)
        case None => None
        case Some(b) => Some(Point(a, b))
    else
      match CheckedSub(w, 1 + s.x)
      case None => None
      case Some(b) => Some(Point(s.y, b))
  }

  /** `paste_dst_xy`: the offset inside the pasted block where clipboard cell `s` lands. */
  function PasteDst(s: Point, c: Clipboard, p: PasteState): (r: Option<Point>)
    ensures r.Some? <==> c.width > 0 && c.height > 0 && s.x < c.width && s.y < c.height
    ensures r.Some? ==> r.value.x < PasteDims(c, p).0 && r.value.y < PasteDims(c, p).1
  {
    var w, h := c.width, c.height;
    if w == 0 || h == 0 then None
    else if s.x >= w || s.y >= h then None
    else
      var (rw, rh) := PasteDims(c, p);
      if rw == 0 || rh == 0 then None
      else
        match Rotated(s, c, p.rot % 4)
        case None => None
        case Some(d) =>
          var x := if p.flipX then CheckedSub(rw, 1 + d.x) else Some(d.x);
          var y := if p.flipY then CheckedSub(rh, 1 + d.y) else Some(d.y);
          if x.None? || y.None? then None
          else if x.value >= rw || y.value >= rh then None
          else Some(Point(x.value, y.value))
  }

  /** The pasted block's offsets: `pw` x `ph`. */
  predicate InBlock(d: Point, c: Clipboard, p: PasteState)
  {
    d.x < PasteDims(c, p).0 && d.y < PasteDims(c, p).1
  }

  /** The clipboard's cells: `w` x `h`. */
  predicate InClip(s: Point, c: Clipboard)
  {
    s.x < c.width && s.y < c.height
  }

  /**
   * The clipboard cell that lands at offset `d` of the pasted block: undo
   * the mirroring, then the rotation.
   */
  function PasteSrc(d: Point, c: Clipboard, p: PasteState): (s: Point)
    requires InBlock(d, c, p)
    ensures InClip(s, c)
  {
    var (rw, rh) := PasteDims(c, p);
    var x := if p.flipX then rw - 1 - d.x else d.x;
    var y := if p.flipY then rh - 1 - d.y else d.y;
    var rot := p.rot % 4;
    if rot == 0 then Point(x, y)
    else if rot == 1 then Point(y, c.height - 1 - x)
    else if rot == 2 then Point(c.width - 1 - x, c.height - 1 - y)
    else Point(c.width - 1 - y, x)
  }

  /** Every offset of the pasted block is reached from the clipboard cell `PasteSrc` names. */
  lemma PasteDstSrc(d: Point, c: Clipboard, p: PasteState)
    requires InBlock(d, c, p)
    ensures PasteDst(PasteSrc(d, c, p), c, p) == Some(d)
  {
  }

  /** `PasteSrc` undoes `PasteDst` on every clipboard cell. */
  lemma PasteSrcDst(s: Point, c: Clipboard, p: PasteState)
    requires InClip(s, c)
    ensures PasteDst(s, c, p).Some? && InBlock(PasteDst(s, c, p).value, c, p)
    ensures PasteSrc(PasteDst(s, c, p).value, c, p) == s
  {
  }

  /**
   * `PasteDst` is a bijection from the `w` x `h` clipboard onto the
   * `pw` x `ph` pasted block: distinct cells land on distinct offsets, and
   * every offset is hit.
   */
  lemma PasteBijection(c: Clipboard, p: PasteState)
    ensures forall s, t :: InClip(s, c) && InClip(t, c) && PasteDst(s, c, p) == PasteDst(t, c, p) ==> s == t
    ensures forall d :: InBlock(d, c, p) ==> exists s :: InClip(s, c) && PasteDst(s, c, p) == Some(d)
  {
    forall s, t | InClip(s, c) && InClip(t, c) && PasteDst(s, c, p) == PasteDst(t, c, p)
      ensures s == t
    {
      PasteSrcDst(s, c, p);
      PasteSrcDst(t, c, p);
    }
    forall d | InBlock(d, c, p)
      ensures exists s :: InClip(s, c) && PasteDst(s, c, p) == Some(d)
    {
      PasteDstSrc(d, c, p);
      assert InClip(PasteSrc(d, c, p), c);
    }
  }

  /** Only `rot % 4` matters, and the unrotated, unmirrored paste is the identity. */
  lemma PasteDstOrientation(s: Point, c: Clipboard, p: PasteState)
    ensures PasteDst(s, c, p) == PasteDst(s, c, p.(rot := p.rot % 4))
    ensures p.rot % 4 == 0 && !p.flipX && !p.flipY && InClip(s, c) ==> PasteDst(s, c, p) == Some(s)
  {
  }
}
