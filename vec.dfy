/** Vec2d of vec.py: a pair of numbers with componentwise arithmetic.
    Components are reals, so `/` is true division. */
module PyVec {
  import opened Wrappers

  datatype Vec2d = Vec2d(x: real, y: real)

  /** `__add__`, componentwise: subtracting either summand gives back the
      other. */
  function Add(a: Vec2d, b: Vec2d): (r: Vec2d)
    ensures Sub(r, b) == a && Sub(r, a) == b
  {
    Vec2d(a.x + b.x, a.y + b.y)
  }

  /** `__sub__`: a vector less itself is zero, less zero is itself. */
  function Sub(a: Vec2d, b: Vec2d): (r: Vec2d)
    ensures a == b ==> r == Vec2d(0.0, 0.0)
    ensures b == Vec2d(0.0, 0.0) ==> r == a
  {
    Vec2d(a.x - b.x, a.y - b.y)
  }

  function Neg(a: Vec2d): (r: Vec2d)
    ensures Add(a, r) == Vec2d(0.0, 0.0)
  {
    Vec2d(-a.x, -a.y)
  }

  /** __mul__ by a scalar. */
  function Scale(a: Vec2d, k: real): (r: Vec2d)
    ensures k == 1.0 ==> r == a
    ensures k == 0.0 ==> r == Vec2d(0.0, 0.0)
  {
    Vec2d(a.x * k, a.y * k)
  }

  /** __truediv__; dividing by zero raises. */
  function Div(a: Vec2d, k: real): (r: Option<Vec2d>)
    ensures r.Some? <==> k != 0.0
    ensures r.Some? ==> Scale(r.value, k) == a
  {
    if k == 0.0 then None else Some(Vec2d(a.x / k, a.y / k))
  }

  /** __getitem__: 0 is x, 1 is y, and anything else raises. */
  function Index(a: Vec2d, i: int): (r: Option<real>)
    ensures r.Some? <==> i == 0 || i == 1
    ensures i == 0 ==> r == Some(a.x)
    ensures i == 1 ==> r == Some(a.y)
  {
    if i == 0 then Some(a.x)
    else if i == 1 then Some(a.y)
    else None
  }

  /** Adding the negation is subtracting; negation is an involution and
      addition commutes. */
  lemma NegAndSub(a: Vec2d, b: Vec2d)
    ensures Add(a, Neg(b)) == Sub(a, b)
    ensures Neg(Neg(a)) == a
    ensures Add(a, b) == Add(b, a)
    ensures Sub(Add(a, b), b) == a
  {
  }

  /** Scaling distributes over addition. */
  lemma ScaleDistributes(a: Vec2d, b: Vec2d, k: real)
    ensures Scale(Add(a, b), k) == Add(Scale(a, k), Scale(b, k))
    ensures Scale(Neg(a), k) == Neg(Scale(a, k))
  {
  }
}
