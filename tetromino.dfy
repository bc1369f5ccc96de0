/** The piece table: the seven kinds of falling piece, the rotation states of
    each kind and the colour each kind is drawn and locked with. */
module Tetromino {

  datatype Kind = I | J | L | O | S | T | Z

  /** An entry of the table: a kind with its rotation states and colour. */
  datatype Piece = Piece(kind: Kind, shapes: seq<seq<Offset>>, color: int)

  /** A cell of a piece relative to its anchor: `.0` is the column step (dx),
      `.1` the row step (dy). */
  type Offset = (int, int)

  /** What every rotation state of the table satisfies: four offsets, both
      coordinates in 0..3, no offset listed twice (so a piece covers four cells). */
  predicate ValidState(state: seq<Offset>)
  {
    && |state| == 4
    && (forall i :: 0 <= i < |state| ==> 0 <= state[i].0 <= 3 && 0 <= state[i].1 <= 3)
    && state[0] != state[1] && state[0] != state[2] && state[0] != state[3]
    && state[1] != state[2] && state[1] != state[3] && state[2] != state[3]
  }

  /** The rotation states of kind `k`, in the order `rotate` steps through them. */
  function Shapes(k: Kind): (states: seq<seq<Offset>>)
    ensures 1 <= |states| <= 4
    ensures forall s :: 0 <= s < |states| ==> ValidState(states[s])
  {
    match k
    case I => [
      [(0, 1), (1, 1), (2, 1), (3, 1)],
      [(2, 0), (2, 1), (2, 2), (2, 3)]]
    case J => [
      [(0, 0), (0, 1), (1, 1), (2, 1)],
      [(1, 0), (2, 0), (1, 1), (1, 2)],
      [(0, 1), (1, 1), (2, 1), (2, 2)],
      [(1, 0), (1, 1), (0, 2), (1, 2)]]
    case L => [
      [(2, 0), (0, 1), (1, 1), (2, 1)],
      [(1, 0), (1, 1), (1, 2), (2, 2)],
      [(0, 1), (1, 1), (2, 1), (0, 2)],
      [(0, 0), (1, 0), (1, 1), (1, 2)]]
    case O => [
      [(1, 0), (2, 0), (1, 1), (2, 1)]]
    case S => [
      [(1, 0), (2, 0), (0, 1), (1, 1)],
      [(1, 0), (1, 1), (2, 1), (2, 2)]]
    case T => [
      [(1, 0), (0, 1), (1, 1), (2, 1)],
      [(1, 0), (1, 1), (2, 1), (1, 2)],
      [(0, 1), (1, 1), (2, 1), (1, 2)],
      [(1, 0), (0, 1), (1, 1), (1, 2)]]
    case Z => [
      [(0, 0), (1, 0), (1, 1), (2, 1)],
      [(2, 0), (1, 1), (2, 1), (1, 2)]]
  }

  /** An opaque colour as the Android framework encodes it: alpha 0xFF in the
      top byte, read back as a signed 32-bit Int. Such a value is never 0, so
      a locked cell is never mistaken for an empty one. */
  function Rgb(r: int, g: int, b: int): (argb: int)
    requires 0 <= r < 256 && 0 <= g < 256 && 0 <= b < 256
    ensures -0x100_0000 <= argb < 0
  {
    0xFF00_0000 + r * 0x1_0000 + g * 0x100 + b - 0x1_0000_0000
  }

  /** The colour of kind `k`: CYAN, BLUE, orange, YELLOW, GREEN, MAGENTA, RED. */
  function Color(k: Kind): (color: int)
    ensures color != 0
  {
    match k
    case I => Rgb(0, 255, 255)
    case J => Rgb(0, 0, 255)
    case L => Rgb(255, 165, 0)
    case O => Rgb(255, 255, 0)
    case S => Rgb(0, 255, 0)
    case T => Rgb(255, 0, 255)
    case Z => Rgb(255, 0, 0)
  }

  /** What the engine relies on about any entry of the table. */
  predicate ValidPiece(p: Piece)
  {
    && 1 <= |p.shapes| <= 4
    && (forall s :: 0 <= s < |p.shapes| ==> ValidState(p.shapes[s]))
    && p.color != 0
  }

  /** The table entry of kind `k`. */
  function Entry(k: Kind): (p: Piece)
    ensures p.kind == k && ValidPiece(p)
  {
    Piece(k, Shapes(k), Color(k))
  }

  /** The number of rotation states per kind. */
  lemma StateCounts()
    ensures |Entry(I).shapes| == 2 && |Entry(J).shapes| == 4 && |Entry(L).shapes| == 4
    ensures |Entry(O).shapes| == 1 && |Entry(S).shapes| == 2 && |Entry(T).shapes| == 4
    ensures |Entry(Z).shapes| == 2
  {
  }

  /** The rotation index `rotate` tries next: `(rot + 1) % shapes.size`,
      which wraps from the last state back to the first. */
  function NextRotation(p: Piece, rot: nat): (next: nat)
    requires rot < |p.shapes|
    ensures next < |p.shapes|
    ensures next == if rot + 1 == |p.shapes| then 0 else rot + 1
  {
    (rot + 1) % |p.shapes|
  }

  /** The rotation index after `m` accepted rotations starting at `rot`. */
  function Rotated(p: Piece, rot: nat, m: nat): (r: nat)
    requires rot < |p.shapes|
    ensures r < |p.shapes|
  {
    if m == 0 then rot else NextRotation(p, Rotated(p, rot, m - 1))
  }

  lemma {:induction false} RotatedWithinOneTurn(p: Piece, rot: nat, m: nat)
    requires rot < |p.shapes| && m <= |p.shapes|
    ensures Rotated(p, rot, m) == if rot + m < |p.shapes| then rot + m else rot + m - |p.shapes|
  {
    if m > 0 {
      RotatedWithinOneTurn(p, rot, m - 1);
    }
  }

  /** As many accepted rotations as the piece has states bring it back to the
      rotation it started in. */
  lemma RotationCycle(p: Piece, rot: nat)
    requires rot < |p.shapes|
    ensures Rotated(p, rot, |p.shapes|) == rot
  {
    RotatedWithinOneTurn(p, rot, |p.shapes|);
  }
}
