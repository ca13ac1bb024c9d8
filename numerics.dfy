/** Comparison-based helpers shared by the searchers and the trainers:
    max, first argmax, and numpy's arange with a positive step. */
module Numerics {

  /** Python's max over a non-empty list: a member that no member exceeds. */
  function Max(s: seq<real>): (m: real)
    requires |s| > 0
    ensures m in s
    ensures forall i :: 0 <= i < |s| ==> s[i] <= m
  {
    if |s| == 1 then s[0]
    else
      var m' := Max(s[..|s| - 1]);
      assert forall i :: 0 <= i < |s| - 1 ==> s[..|s| - 1][i] == s[i];
      if s[|s| - 1] > m' then s[|s| - 1] else m'
  }

  /** argmax over a non-empty row: the first index holding a maximal entry. */
  function ArgMax(s: seq<real>): (k: nat)
    requires |s| > 0
    ensures k < |s|
    ensures forall i :: 0 <= i < |s| ==> s[i] <= s[k]
    ensures forall i :: 0 <= i < k ==> s[i] < s[k]
  {
    if |s| == 1 then 0
    else
      var k' := ArgMax(s[..|s| - 1]);
      assert forall i :: 0 <= i < |s| - 1 ==> s[..|s| - 1][i] == s[i];
      if s[|s| - 1] > s[k'] then |s| - 1 else k'
  }

  lemma ArgMaxIsMax(s: seq<real>)
    requires |s| > 0
    ensures s[ArgMax(s)] == Max(s)
  {
    var k := ArgMax(s);
    var m := Max(s);
    assert s[k] <= m;
    var i :| 0 <= i < |s| && s[i] == m;
    assert m <= s[k];
  }

  /** Ceiling of a / b for a positive divisor. */
  function CeilDiv(a: nat, b: nat): (q: nat)
    requires b > 0
    ensures (q - 1) * b < a <= q * b || (a == 0 && q == 0)
  {
    var q := (a + b - 1) / b;
    DivBounds(a + b - 1, b);
    q
  }

  lemma DivBounds(x: nat, b: nat)
    requires b > 0
    ensures (x / b) * b <= x < (x / b + 1) * b
  {
  }

  /** numpy's arange(0, stop, step) for a positive step: 0, step, 2*step, ... below stop.
      What the range holds is stated by StepRangeMembers. */
  function StepRange(stop: nat, step: nat): seq<nat>
    requires step > 0
  {
    seq(CeilDiv(stop, step), i => i * step)
  }

  /** The entries of arange(0, stop, step) are exactly the multiples of step below stop. */
  lemma StepRangeMembers(stop: nat, step: nat, x: int)
    requires step > 0
    ensures x in StepRange(stop, step) <==> 0 <= x < stop && x % step == 0
  {
    var r := StepRange(stop, step);
    var q := CeilDiv(stop, step);
    if x in r {
      var i :| 0 <= i < |r| && r[i] == x;
      assert x == i * step;
      assert i <= q - 1;
      MulMono(i, q - 1, step);
      MultipleMod(i, step);
    }
    if 0 <= x < stop && x % step == 0 {
      var i := x / step;
      assert x == i * step;
      if i >= q {
        MulMono(q, i, step);
        assert false;
      }
      assert r[i] == x;
    }
  }

  lemma MulMono(a: nat, b: nat, c: nat)
    requires a <= b
    ensures a * c <= b * c
  {
  }

  lemma MultipleMod(i: nat, step: nat)
    requires step > 0
    ensures (i * step) % step == 0
  {
    var q, r := (i * step) / step, (i * step) % step;
    assert i * step == q * step + r && 0 <= r < step;
    assert (i - q) * step == r;
    if i - q >= 1 {
      MulMono(1, i - q, step);
    } else if i - q <= -1 {
      assert (q - i) * step == -r;
      MulMono(1, q - i, step);
    }
  }

  /** 2 to the power n: the growth of a count that is doubled n times. */
  function Pow2(n: nat): (p: nat)
    ensures p >= 1
  {
    if n == 0 then 1 else 2 * Pow2(n - 1)
  }

  /** Row-major flattening: (row, col) with col < width goes to row * width + col,
      which lies below rows * width and determines row and col. */
  lemma FlatIndex(row: nat, col: nat, rows: nat, width: nat)
    requires row < rows && col < width
    ensures row * width + col < rows * width
    ensures (row * width + col) / width == row && (row * width + col) % width == col
  {
    MulMono(row + 1, rows, width);
    var x := row * width + col;
    assert x == row * width + col && 0 <= col < width;
    DivModUnique(x, width, row, col);
  }

  lemma DivModUnique(x: int, w: nat, q: int, r: int)
    requires w > 0 && x == q * w + r && 0 <= r < w
    ensures x / w == q && x % w == r
  {
    var q', r' := x / w, x % w;
    assert x == q' * w + r' && 0 <= r' < w;
    assert (q - q') * w == r' - r;
    if q - q' >= 1 {
      MulMono(1, q - q', w);
    } else if q' - q >= 1 {
      assert (q' - q) * w == r - r';
      MulMono(1, q' - q, w);
    }
  }
}
