/**
 * The orientation algebra behind selection rotate/flip: a tile's rotation
 * and mirroring as a 2x2 integer matrix, the search that turns a matrix
 * back into (rot, flip_x, flip_y), and the group elements a selection
 * transform applies to every tile it moves.
 */
module Orientation {
  import opened Base
  import opened TileMapCore

  /** The matrix `[[a, b], [c, d]]`. */
  datatype Mat = Mat(a: int, b: int, c: int, d: int)

  const Identity: Mat := Mat(1, 0, 0, 1)

  /** A matrix entry of a rotation or mirror: -1, 0 or 1. */
  predicate Unit(v: int)
  {
    -1 <= v <= 1
  }

  /** Every entry of `m` is a unit; all matrices the transforms multiply are such. */
  predicate UnitMat(m: Mat)
  {
    Unit(m.a) && Unit(m.b) && Unit(m.c) && Unit(m.d)
  }

  /**
   * `p * q` for a unit factor `p`, spelled out so that products of
   * orientation matrices need no nonlinear reasoning.
   */
  function Mul(p: int, q: int): int
    requires Unit(p)
  {
    if p == 0 then 0 else if p == 1 then q else -q
  }

  /** `Mul` is integer multiplication. */
  lemma MulIsProduct(p: int, q: int)
    requires Unit(p)
    ensures Mul(p, q) == p * q
  {
  }

  /** `p * q + r * s`: one entry of a matrix product. */
  function Dot(p: int, q: int, r: int, s: int): int
    requires Unit(p) && Unit(r)
  {
    Mul(p, q) + Mul(r, s)
  }

  /**
   * `mat_mul`: the product `x * y`. The original multiplies any two i32
   * matrices; every product it forms has a unit-entry left factor.
   */
  function MatMul(x: Mat, y: Mat): Mat
    requires UnitMat(x)
  {
    Mat(Dot(x.a, y.a, x.b, y.c), Dot(x.a, y.b, x.b, y.d),
        Dot(x.c, y.a, x.d, y.c), Dot(x.c, y.b, x.d, y.d))
  }

  /** `rot_mat_cw`: `rot % 4` clockwise quarter turns. */
  function RotMatCw(rot: nat): (r: Mat)
    ensures UnitMat(r)
  {
    match rot % 4
    case 0 => Mat(1, 0, 0, 1)
    case 1 => Mat(0, 1, -1, 0)
    case 2 => Mat(-1, 0, 0, -1)
    case _ => Mat(0, -1, 1, 0)
  }

  /** `-v`, kept behind a function so matrix entries stay atomic terms. */
  function Neg(v: int): int
  {
    -v
  }

  /** The sign an axis gets: -1 when it is mirrored. */
  function Sign(flip: bool): int
  {
    if flip then -1 else 1
  }

  /** `flip_mat`: negate the x and/or y axis. */
  function FlipMat(flipX: bool, flipY: bool): (r: Mat)
    ensures UnitMat(r)
  {
    Mat(Sign(flipX), 0, 0, Sign(flipY))
  }

  /**
   * `tile_orientation_mat` in closed form: the tile is mirrored first and
   * then rotated; `OrientationIsProduct` shows this is the product of
   * `rot_mat_cw` and `flip_mat` the original multiplies out.
   */
  function TileOrientationMat(rot: nat, flipX: bool, flipY: bool): (r: Mat)
    ensures UnitMat(r)
  {
    var sx, sy := Sign(flipX), Sign(flipY);
    match rot % 4
    case 0 => Mat(sx, 0, 0, sy)
    case 1 => Mat(0, sy, Neg(sx), 0)
    case 2 => Mat(Neg(sx), 0, 0, Neg(sy))
    case _ => Mat(0, Neg(sy), sx, 0)
  }

  /** The closed form is the product `rot_mat_cw(rot) * flip_mat(flip_x, flip_y)`. */
  lemma OrientationIsProduct(rot: nat, flipX: bool, flipY: bool)
    ensures TileOrientationMat(rot, flipX, flipY) == MatMul(RotMatCw(rot), FlipMat(flipX, flipY))
  {
    var f := FlipMat(flipX, flipY);
    assert f.a == 1 || f.a == -1;
    assert f.d == 1 || f.d == -1;
    match rot % 4
    case 0 => assert RotMatCw(rot) == Mat(1, 0, 0, 1);
    case 1 => assert RotMatCw(rot) == Mat(0, 1, -1, 0);
    case 2 => assert RotMatCw(rot) == Mat(-1, 0, 0, -1);
    case _ => assert RotMatCw(rot) == Mat(0, -1, 1, 0);
  }

  /**
   * A clockwise quarter turn advances a rotation by one (`rot_mat_cw(4)`
   * is the identity, so four turns undo themselves).
   */
  lemma QuarterTurnAdvances(k: nat)
    requires k < 4
    ensures MatMul(RotMatCw(1), RotMatCw(k)) == RotMatCw(k + 1)
  {
    assert RotMatCw(1) == Mat(0, 1, -1, 0);
    if k == 0 {
      assert RotMatCw(k) == Mat(1, 0, 0, 1);
    } else if k == 1 {
      assert RotMatCw(k + 1) == Mat(-1, 0, 0, -1);
    } else if k == 2 {
      assert RotMatCw(k) == Mat(-1, 0, 0, -1);
      assert RotMatCw(k + 1) == Mat(0, -1, 1, 0);
    } else {
      assert RotMatCw(k) == Mat(0, -1, 1, 0);
      assert RotMatCw(k + 1) == Mat(1, 0, 0, 1);
    }
  }

  /** Three clockwise quarter turns (the counter-clockwise one) undo one. */
  lemma ThreeUndoOne()
    ensures MatMul(RotMatCw(3), RotMatCw(1)) == Identity
  {
    assert RotMatCw(1) == Mat(0, 1, -1, 0);
    assert RotMatCw(3) == Mat(0, -1, 1, 0);
  }

  /** The inner loops of `mat_to_tile_orientation` for one rotation: `flip_x`, then `flip_y`, false first. */
  function SearchFlips(m: Mat, rot: nat): (r: Option<(nat, bool, bool)>)
    ensures r.Some? ==> r.value.0 == rot && TileOrientationMat(r.value.0, r.value.1, r.value.2) == m
  {
    if TileOrientationMat(rot, false, false) == m then Some((rot, false, false))
    else if TileOrientationMat(rot, false, true) == m then Some((rot, false, true))
    else if TileOrientationMat(rot, true, false) == m then Some((rot, true, false))
    else if TileOrientationMat(rot, true, true) == m then Some((rot, true, true))
    else None
  }

  /** The outer loop of `mat_to_tile_orientation` over rotations `rot..=3`. */
  function SearchFrom(m: Mat, rot: nat): (r: Option<(nat, bool, bool)>)
    requires rot <= 4
    ensures r.Some? ==> rot <= r.value.0 < 4 && TileOrientationMat(r.value.0, r.value.1, r.value.2) == m
    decreases 4 - rot
  {
    if rot == 4 then None
    else
      match SearchFlips(m, rot)
      case Some(t) => Some(t)
      case None => SearchFrom(m, rot + 1)
  }

  /**
   * `mat_to_tile_orientation`: the first (rot, flip_x, flip_y) in search
   * order whose matrix is `m`.
   */
  function MatToTileOrientation(m: Mat): (r: Option<(nat, bool, bool)>)
    ensures r.Some? ==> r.value.0 < 4 && TileOrientationMat(r.value.0, r.value.1, r.value.2) == m
  {
    SearchFrom(m, 0)
  }

  /**
   * The representative the search finds for an orientation: a half turn is
   * the same matrix as mirroring both axes, so rotations 2 and 3 come back
   * as rotations 0 and 1 with both flips toggled.
   */
  function Canonical(rot: nat, flipX: bool, flipY: bool): (nat, bool, bool)
  {
    var k := rot % 4;
    if k < 2 then (k, flipX, flipY) else (k - 2, !flipX, !flipY)
  }

  /**
   * Every orientation matrix is found, and what is found is exactly the
   * canonical representative; so the search fails only on matrices that
   * are no orientation.
   */
  lemma MatToTileOrientationCanonical(rot: nat, flipX: bool, flipY: bool)
    ensures MatToTileOrientation(TileOrientationMat(rot, flipX, flipY)) == Some(Canonical(rot, flipX, flipY))
  {
    var k := rot % 4;
    var m := TileOrientationMat(rot, flipX, flipY);
    if k == 0 || k == 2 {
      assert SearchFlips(m, 0) == Some(Canonical(rot, flipX, flipY));
    } else {
      assert SearchFlips(m, 0) == None;
      assert SearchFlips(m, 1) == Some(Canonical(rot, flipX, flipY));
    }
  }

  /** The canonical representative denotes the same matrix, and canonicalising twice changes nothing. */
  lemma CanonicalSameMatrix(rot: nat, flipX: bool, flipY: bool)
    ensures var c := Canonical(rot, flipX, flipY);
      c.0 < 2 && TileOrientationMat(c.0, c.1, c.2) == TileOrientationMat(rot, flipX, flipY)
      && Canonical(c.0, c.1, c.2) == c
  {
  }

  /** A matrix the search rejects is no orientation matrix. */
  lemma NotFoundIsNoOrientation(m: Mat, rot: nat, flipX: bool, flipY: bool)
    ensures MatToTileOrientation(m).None? ==> TileOrientationMat(rot, flipX, flipY) != m
  {
    MatToTileOrientationCanonical(rot, flipX, flipY);
  }

  /** The group elements a selection transform applies. */
  datatype GroupOp = QuarterCw | QuarterCcw | MirrorX | MirrorY

  /** The matrix of each group element, as `apply_selection_transform` builds it. */
  function GroupMat(g: GroupOp): (r: Mat)
    ensures UnitMat(r)
  {
    match g
    case QuarterCw => RotMatCw(1)
    case QuarterCcw => RotMatCw(3)
    case MirrorX => FlipMat(true, false)
    case MirrorY => FlipMat(false, true)
  }

  /**
   * The orientation a group element takes (rot, fx, fy) to: turns add to
   * the rotation; a mirror reverses the rotation and toggles its own axis.
   */
  function Act(g: GroupOp, rot: nat, flipX: bool, flipY: bool): (nat, bool, bool)
  {
    var k := rot % 4;
    match g
    case QuarterCw => (if k == 3 then 0 else k + 1, flipX, flipY)
    case QuarterCcw => (if k == 0 then 3 else k - 1, flipX, flipY)
    case MirrorX => (if k == 0 then 0 else 4 - k, !flipX, flipY)
    case MirrorY => (if k == 0 then 0 else 4 - k, flipX, !flipY)
  }

  /** What left multiplication by each group element does to a matrix: move and negate rows. */
  function GroupApply(g: GroupOp, y: Mat): Mat
  {
    match g
    case QuarterCw => Mat(y.c, y.d, Neg(y.a), Neg(y.b))
    case QuarterCcw => Mat(Neg(y.c), Neg(y.d), y.a, y.b)
    case MirrorX => Mat(Neg(y.a), Neg(y.b), y.c, y.d)
    case MirrorY => Mat(y.a, y.b, Neg(y.c), Neg(y.d))
  }

  /** Left multiplication by a group element is `GroupApply`. */
  lemma GroupMul(g: GroupOp, y: Mat)
    ensures MatMul(GroupMat(g), y) == GroupApply(g, y)
  {
    match g
    case QuarterCw => assert GroupMat(g) == Mat(0, 1, -1, 0);
    case QuarterCcw => assert GroupMat(g) == Mat(0, -1, 1, 0);
    case MirrorX => assert GroupMat(g) == Mat(-1, 0, 0, 1);
    case MirrorY => assert GroupMat(g) == Mat(1, 0, 0, -1);
  }

  /** A group element takes the orientation matrix of (rot, fx, fy) to that of `Act`. */
  lemma ActOnOrientation(g: GroupOp, rot: nat, flipX: bool, flipY: bool)
    ensures var t := Act(g, rot, flipX, flipY);
      t.0 < 4 && GroupApply(g, TileOrientationMat(rot, flipX, flipY)) == TileOrientationMat(t.0, t.1, t.2)
  {
    var t := Act(g, rot, flipX, flipY);
    OrientationOfQuarter(rot % 4, flipX, flipY);
    OrientationOfQuarter(t.0, t.1, t.2);
  }

  /** The orientation matrix of a rotation already in 0..3, without the reduction. */
  lemma OrientationOfQuarter(k: nat, flipX: bool, flipY: bool)
    requires k < 4
    ensures var sx, sy := Sign(flipX), Sign(flipY);
      TileOrientationMat(k, flipX, flipY) ==
        if k == 0 then Mat(sx, 0, 0, sy)
        else if k == 1 then Mat(0, sy, Neg(sx), 0)
        else if k == 2 then Mat(Neg(sx), 0, 0, Neg(sy))
        else Mat(0, Neg(sy), sx, 0)
  {
    assert k % 4 == k;
  }

  /** Left-multiplying an orientation matrix by a group element is `Act`, so orientations are closed under it. */
  lemma ActMatrix(g: GroupOp, rot: nat, flipX: bool, flipY: bool)
    ensures var t := Act(g, rot, flipX, flipY);
      t.0 < 4 && MatMul(GroupMat(g), TileOrientationMat(rot, flipX, flipY)) == TileOrientationMat(t.0, t.1, t.2)
  {
    GroupMul(g, TileOrientationMat(rot, flipX, flipY));
    ActOnOrientation(g, rot, flipX, flipY);
  }

  /** `apply_group_transform_to_tile`: a tile whose new matrix is no orientation keeps its old one. */
  function ApplyGroupTransform(t: TileRef, g: Mat): (r: TileRef)
    requires UnitMat(g)
    ensures r.tilesetId == t.tilesetId && r.index == t.index
  {
    match MatToTileOrientation(MatMul(g, TileOrientationMat(t.rot, t.flipX, t.flipY)))
    case Some((rot, fx, fy)) => t.(rot := rot, flipX := fx, flipY := fy)
    case None => t
  }

  /** The tile `t` with orientation (rot, fx, fy). */
  function Oriented(t: TileRef, o: (nat, bool, bool)): TileRef
  {
    t.(rot := o.0, flipX := o.1, flipY := o.2)
  }

  /**
   * Applying a group element gives the canonical representative of the
   * acted-on orientation; tileset and index are untouched.
   */
  lemma ApplyGroupTransformExact(t: TileRef, g: GroupOp)
    ensures var a := Act(g, t.rot, t.flipX, t.flipY);
      ApplyGroupTransform(t, GroupMat(g)) == Oriented(t, Canonical(a.0, a.1, a.2))
  {
    var a := Act(g, t.rot, t.flipX, t.flipY);
    ActMatrix(g, t.rot, t.flipX, t.flipY);
    MatToTileOrientationCanonical(a.0, a.1, a.2);
  }

  /** The new orientation matrix is the group matrix times the old one. */
  lemma ApplyGroupTransformMatrix(t: TileRef, g: GroupOp)
    ensures var r := ApplyGroupTransform(t, GroupMat(g));
      TileOrientationMat(r.rot, r.flipX, r.flipY) == MatMul(GroupMat(g), TileOrientationMat(t.rot, t.flipX, t.flipY))
  {
    var a := Act(g, t.rot, t.flipX, t.flipY);
    ApplyGroupTransformExact(t, g);
    ActMatrix(g, t.rot, t.flipX, t.flipY);
    CanonicalSameMatrix(a.0, a.1, a.2);
  }

  /** Turning back, or mirroring again, after canonicalising lands on the canonical start. */
  lemma ActUndo(rot: nat, flipX: bool, flipY: bool, g: GroupOp, h: GroupOp)
    requires (g == QuarterCw && h == QuarterCcw) || (g == h && (g == MirrorX || g == MirrorY))
    ensures var a := Act(g, rot, flipX, flipY);
      var c := Canonical(a.0, a.1, a.2);
      var b := Act(h, c.0, c.1, c.2);
      Canonical(b.0, b.1, b.2) == Canonical(rot, flipX, flipY)
  {
  }

  /**
   * A clockwise then a counter-clockwise selection turn leaves every tile
   * with the same orientation matrix, in canonical form.
   */
  lemma TurnBackRestores(t: TileRef)
    ensures var u := ApplyGroupTransform(ApplyGroupTransform(t, GroupMat(QuarterCw)), GroupMat(QuarterCcw));
      && TileOrientationMat(u.rot, u.flipX, u.flipY) == TileOrientationMat(t.rot, t.flipX, t.flipY)
      && u == Oriented(t, Canonical(t.rot, t.flipX, t.flipY))
  {
    var u1 := ApplyGroupTransform(t, GroupMat(QuarterCw));
    ApplyGroupTransformExact(t, QuarterCw);
    ApplyGroupTransformExact(u1, QuarterCcw);
    ActUndo(t.rot, t.flipX, t.flipY, QuarterCw, QuarterCcw);
    CanonicalSameMatrix(t.rot, t.flipX, t.flipY);
  }

  /** Mirroring the same axis twice leaves every tile with the same orientation matrix, in canonical form. */
  lemma MirrorTwiceRestores(t: TileRef, g: GroupOp)
    requires g == MirrorX || g == MirrorY
    ensures var u := ApplyGroupTransform(ApplyGroupTransform(t, GroupMat(g)), GroupMat(g));
      && TileOrientationMat(u.rot, u.flipX, u.flipY) == TileOrientationMat(t.rot, t.flipX, t.flipY)
      && u == Oriented(t, Canonical(t.rot, t.flipX, t.flipY))
  {
    var u1 := ApplyGroupTransform(t, GroupMat(g));
    ApplyGroupTransformExact(t, g);
    ApplyGroupTransformExact(u1, g);
    ActUndo(t.rot, t.flipX, t.flipY, g, g);
    CanonicalSameMatrix(t.rot, t.flipX, t.flipY);
  }
}
