/**
 * The little of the Tk canvas that the game logic relies on: every item is a
 * rectangle (an oval is kept as its bounding box), `canvas.coords(item)` reads
 * it and `canvas.move(item, dx, dy)` translates it. The game's lists become
 * sequences.
 */
module Canvas {

  /** `canvas.coords(item)`: left x1, top y1, right x2, bottom y2 (y grows downwards). */
  datatype Rect = Rect(x1: real, y1: real, x2: real, y2: real)

  /** `canvas.move(item, dx, dy)` */
  function Translate(r: Rect, dx: real, dy: real): (moved: Rect) {
    Rect(r.x1 + dx, r.y1 + dy, r.x2 + dx, r.y2 + dy)
  }

  function Abs(x: real): (a: real) {
    if x < 0.0 then -x else x
  }

  datatype Option<T> = None | Some(value: T)

  /** A list of `rows` lists of `cols` entries each, such as the grid of logs. */
  predicate IsGrid<T>(g: seq<seq<T>>, rows: nat, cols: nat) {
    |g| == rows && forall r :: 0 <= r < rows ==> |g[r]| == cols
  }

  /** Two grids of the same shape that agree entry by entry are equal. */
  lemma GridsEqual<T>(a: seq<seq<T>>, b: seq<seq<T>>, rows: nat, cols: nat)
    requires IsGrid(a, rows, cols) && IsGrid(b, rows, cols)
    requires forall r, i :: 0 <= r < rows && 0 <= i < cols ==> a[r][i] == b[r][i]
    ensures a == b
  {
    forall r | 0 <= r < rows
      ensures a[r] == b[r]
    {
    }
  }

  /** `list.remove(x)` where x sits at position i and nowhere earlier. */
  function RemoveAt<T>(s: seq<T>, i: nat): (t: seq<T>)
    requires i < |s|
    ensures |t| == |s| - 1
    ensures forall k :: 0 <= k < i ==> t[k] == s[k]
    ensures forall k :: i <= k < |t| ==> t[k] == s[k + 1]
  {
    s[..i] + s[i + 1..]
  }

  /**
   * `list.index(x)`: the first position that holds x. Python raises
   * ValueError when x is absent; the game only asks for items the list holds.
   */
  method IndexOf<T(==)>(s: seq<T>, x: T) returns (i: nat)
    requires x in s
    ensures i < |s| && s[i] == x
    ensures forall k :: 0 <= k < i ==> s[k] != x
  {
    i := 0;
    while s[i] != x
      invariant i < |s|
      invariant x in s[i..]
      invariant forall k :: 0 <= k < i ==> s[k] != x
      decreases |s| - i
    {
      assert s[i..] == [s[i]] + s[i + 1..];
      i := i + 1;
    }
  }
}
