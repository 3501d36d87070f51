/** Integer and real vector helpers of include/math.h. */
module GeoMath {

  /** glm::ivec2: a grid position. */
  datatype IVec2 = IVec2(x: int, y: int) {
    function Plus(o: IVec2): IVec2 { IVec2(x + o.x, y + o.y) }
    function Minus(o: IVec2): IVec2 { IVec2(x - o.x, y - o.y) }
  }

  /** glm::vec2: a floating-point position, modelled with reals. */
  datatype RVec2 = RVec2(x: real, y: real)

  /** glm::vec3, modelled with reals. */
  datatype RVec3 = RVec3(x: real, y: real, z: real)

  function ToReal(v: IVec2): RVec2 { RVec2(v.x as real, v.y as real) }

  function Abs(n: int): (r: nat)
    ensures r == n || r == -n
  {
    if n < 0 then -n else n
  }

  /** manh_dist: the number of orthogonal steps between a and b. */
  function ManhDist(a: IVec2, b: IVec2): (d: nat)
    ensures d == 0 <==> a == b
    ensures Abs(a.x - b.x) <= d && Abs(a.y - b.y) <= d
  {
    Abs(a.x - b.x) + Abs(a.y - b.y)
  }

  /** diamond_dist: the Chebyshev distance, the larger of the two axis gaps. */
  function DiamondDist(a: IVec2, b: IVec2): (d: nat)
    ensures d == 0 <==> a == b
    ensures d <= ManhDist(a, b) <= 2 * d
    ensures (d == Abs(a.x - b.x) || d == Abs(a.y - b.y))
    ensures Abs(a.x - b.x) <= d && Abs(a.y - b.y) <= d
  {
    var x := Abs(a.x - b.x);
    var y := Abs(a.y - b.y);
    if x < y then y else x
  }

  lemma DistancesSymmetric(a: IVec2, b: IVec2)
    ensures ManhDist(a, b) == ManhDist(b, a)
    ensures DiamondDist(a, b) == DiamondDist(b, a)
  {
    assert Abs(a.x - b.x) == Abs(b.x - a.x);
    assert Abs(a.y - b.y) == Abs(b.y - a.y);
  }

  /** The triangle inequality for the Manhattan distance. */
  lemma ManhTriangle(a: IVec2, b: IVec2, c: IVec2)
    ensures ManhDist(a, c) <= ManhDist(a, b) + ManhDist(b, c)
  {
  }

  function JustX(v: IVec2): (r: IVec2)
    ensures r.x == v.x && r.y == 0
  {
    v.(y := 0)
  }

  function JustY(v: IVec2): (r: IVec2)
    ensures r.x == 0 && r.y == v.y
  {
    v.(x := 0)
  }

  function FlipX(v: IVec2): (r: IVec2)
    ensures r.x == -v.x && r.y == v.y
  {
    v.(x := -v.x)
  }

  function FlipY(v: IVec2): (r: IVec2)
    ensures r.x == v.x && r.y == -v.y
  {
    v.(y := -v.y)
  }

  lemma FlipsAreInvolutions(v: IVec2)
    ensures FlipX(FlipX(v)) == v && FlipY(FlipY(v)) == v
    ensures FlipX(FlipY(v)) == FlipY(FlipX(v))
    ensures JustX(v).Plus(JustY(v)) == v
  {
  }

  /** clockwize on a vec2: a quarter turn, (x, y) to (-y, x). */
  function Clockwize(v: RVec2): (r: RVec2)
    ensures r.x == -v.y && r.y == v.x
    ensures r.x * r.x + r.y * r.y == v.x * v.x + v.y * v.y
  {
    RVec2(-v.y, v.x)
  }

  /** clockwize on a vec3 turns the x-y part and keeps z. */
  function Clockwize3(v: RVec3): (r: RVec3)
    ensures r.x == -v.y && r.y == v.x && r.z == v.z
  {
    RVec3(-v.y, v.x, v.z)
  }

  lemma ClockwizeFourTimes(v: RVec2, w: RVec3)
    ensures Clockwize(Clockwize(v)) == RVec2(-v.x, -v.y)
    ensures Clockwize(Clockwize(Clockwize(Clockwize(v)))) == v
    ensures Clockwize3(Clockwize3(Clockwize3(Clockwize3(w)))) == w
  {
  }

  /** plus_minus: the pair (init + operand, init - operand). */
  function PlusMinus(init: int, operand: int): (r: (int, int))
    ensures r.0 + r.1 == 2 * init
    ensures r.0 - r.1 == 2 * operand
  {
    (init + operand, init - operand)
  }
}
