/** The fallback vector and matrix types of include/textogl/types.hpp:
    `Vec2`, `Vec4` and the column-major `Mat4`, instantiated over `real`
    where arithmetic is needed (float rounding is not modelled). */
module Types {

  /** 2D vector; `At(0)` is `x` and `At(1)` is `y` (operator[]). */
  datatype Vec2<T> = Vec2(x: T, y: T) {
    function At(i: nat): T
      requires i < 2
    {
      if i == 0 then x else y
    }
  }

  /** 4D vector; components in the order x, y, z, w. */
  datatype Vec4<T> = Vec4(x: T, y: T, z: T, w: T) {
    function At(i: nat): T
      requires i < 4
    {
      if i == 0 then x else if i == 1 then y else if i == 2 then z else w
    }

    /** The vector with component `i` replaced by `v` (`vec[i] = v`). */
    function With(i: nat, v: T): (r: Vec4<T>)
      requires i < 4
      ensures r.At(i) == v
      ensures forall j | 0 <= j < 4 && j != i :: r.At(j) == At(j)
    {
      if i == 0 then this.(x := v)
      else if i == 1 then this.(y := v)
      else if i == 2 then this.(z := v)
      else this.(w := v)
    }
  }

  /** A default-constructed `Vec2`: every component is zero. */
  function ZeroVec2(): (v: Vec2<real>)
    ensures v.At(0) == 0.0 && v.At(1) == 0.0
  {
    Vec2(0.0, 0.0)
  }

  /** A default-constructed `Vec4`: every component is zero. */
  function ZeroVec4(): (v: Vec4<real>)
    ensures forall i | 0 <= i < 4 :: v.At(i) == 0.0
  {
    Vec4(0.0, 0.0, 0.0, 0.0)
  }

  /** The value of a `Mat4`: its four columns `data_[0..3]`. */
  type Matrix = m: seq<Vec4<real>> | |m| == 4
    witness [Vec4(0.0, 0.0, 0.0, 0.0), Vec4(0.0, 0.0, 0.0, 0.0),
             Vec4(0.0, 0.0, 0.0, 0.0), Vec4(0.0, 0.0, 0.0, 0.0)]

  /** `m[col][row]`. */
  function Element(m: Matrix, col: nat, row: nat): real
    requires col < 4 && row < 4
  {
    m[col].At(row)
  }

  /** The value of a default-constructed `Mat4`. */
  function ZeroMatrix(): (m: Matrix)
    ensures forall c, r | 0 <= c < 4 && 0 <= r < 4 :: Element(m, c, r) == 0.0
  {
    [ZeroVec4(), ZeroVec4(), ZeroVec4(), ZeroVec4()]
  }

  /** The value built by the 16-argument constructor, arguments in the order
      xx, xy, xz, xw, yx, ..., ww: column-major, argument k lands in
      column k / 4, row k % 4. */
  function ColumnMajor(e: seq<real>): (m: Matrix)
    requires |e| == 16
    ensures forall k | 0 <= k < 16 :: Element(m, k / 4, k % 4) == e[k]
  {
    [Vec4(e[0], e[1], e[2], e[3]), Vec4(e[4], e[5], e[6], e[7]),
     Vec4(e[8], e[9], e[10], e[11]), Vec4(e[12], e[13], e[14], e[15])]
  }

  /** `Mat4(d)`: delegates to the 16-argument constructor with `d` on the
      diagonal. */
  function Diagonal(d: real): (m: Matrix)
    ensures forall c, r | 0 <= c < 4 && 0 <= r < 4 ::
      Element(m, c, r) == if c == r then d else 0.0
  {
    ColumnMajor([d, 0.0, 0.0, 0.0,
                 0.0, d, 0.0, 0.0,
                 0.0, 0.0, d, 0.0,
                 0.0, 0.0, 0.0, d])
  }

  /** `sum_{k < n} a[k][row] * b[col][k]`, the partial sum the innermost loop
      of operator* has accumulated after `n` steps. */
  function PartialDot(a: Matrix, b: Matrix, col: nat, row: nat, n: nat): real
    requires col < 4 && row < 4 && n <= 4
  {
    if n == 0 then 0.0
    else PartialDot(a, b, col, row, n - 1) + Element(a, n - 1, row) * Element(b, col, n - 1)
  }

  /** The product `a * b`: element (col, row) is
      `sum_k a[k][row] * b[col][k]`. */
  function Product(a: Matrix, b: Matrix): Matrix
  {
    seq(4, col requires 0 <= col < 4 =>
      Vec4(PartialDot(a, b, col, 0, 4), PartialDot(a, b, col, 1, 4),
           PartialDot(a, b, col, 2, 4), PartialDot(a, b, col, 3, 4)))
  }

  /** Matrix times column vector, as the shader applies the
      model-view-projection matrix to a vertex. */
  function Apply(m: Matrix, v: Vec4<real>): Vec4<real>
  {
    Vec4(m[0].x * v.x + m[1].x * v.y + m[2].x * v.z + m[3].x * v.w,
         m[0].y * v.x + m[1].y * v.y + m[2].y * v.z + m[3].y * v.w,
         m[0].z * v.x + m[1].z * v.y + m[2].z * v.z + m[3].z * v.w,
         m[0].w * v.x + m[1].w * v.y + m[2].w * v.z + m[3].w * v.w)
  }

  lemma ProductElement(a: Matrix, b: Matrix, col: nat, row: nat)
    requires col < 4 && row < 4
    ensures Element(Product(a, b), col, row)
         == Element(a, 0, row) * Element(b, col, 0) + Element(a, 1, row) * Element(b, col, 1)
          + Element(a, 2, row) * Element(b, col, 2) + Element(a, 3, row) * Element(b, col, 3)
  {
    var p := Product(a, b);
    assert p[col] == Vec4(PartialDot(a, b, col, 0, 4), PartialDot(a, b, col, 1, 4),
                          PartialDot(a, b, col, 2, 4), PartialDot(a, b, col, 3, 4));
    assert Element(p, col, row) == PartialDot(a, b, col, row, 4);
    assert PartialDot(a, b, col, row, 4) == PartialDot(a, b, col, row, 3) + Element(a, 3, row) * Element(b, col, 3);
    assert PartialDot(a, b, col, row, 3) == PartialDot(a, b, col, row, 2) + Element(a, 2, row) * Element(b, col, 2);
    assert PartialDot(a, b, col, row, 2) == PartialDot(a, b, col, row, 1) + Element(a, 1, row) * Element(b, col, 1);
    assert PartialDot(a, b, col, row, 1) == Element(a, 0, row) * Element(b, col, 0);
  }

  /** `Mat4(1)` is a left identity of the product. */
  lemma {:induction false} IdentityLeft(a: Matrix)
    ensures Product(Diagonal(1.0), a) == a
  {
    var p := Product(Diagonal(1.0), a);
    forall col | 0 <= col < 4 ensures p[col] == a[col] {
      forall row | 0 <= row < 4 ensures Element(p, col, row) == Element(a, col, row) {
        ProductElement(Diagonal(1.0), a, col, row);
      }
      assert p[col].x == a[col].x by { assert Element(p, col, 0) == Element(a, col, 0); }
      assert p[col].y == a[col].y by { assert Element(p, col, 1) == Element(a, col, 1); }
      assert p[col].z == a[col].z by { assert Element(p, col, 2) == Element(a, col, 2); }
      assert p[col].w == a[col].w by { assert Element(p, col, 3) == Element(a, col, 3); }
    }
  }

  /** `Mat4(1)` is a right identity of the product. */
  lemma {:induction false} IdentityRight(a: Matrix)
    ensures Product(a, Diagonal(1.0)) == a
  {
    var p := Product(a, Diagonal(1.0));
    forall col | 0 <= col < 4 ensures p[col] == a[col] {
      forall row | 0 <= row < 4 ensures Element(p, col, row) == Element(a, col, row) {
        ProductElement(a, Diagonal(1.0), col, row);
      }
      assert p[col].x == a[col].x by { assert Element(p, col, 0) == Element(a, col, 0); }
      assert p[col].y == a[col].y by { assert Element(p, col, 1) == Element(a, col, 1); }
      assert p[col].z == a[col].z by { assert Element(p, col, 2) == Element(a, col, 2); }
      assert p[col].w == a[col].w by { assert Element(p, col, 3) == Element(a, col, 3); }
    }
  }

  /** The fallback `Mat4`: four column vectors `data_` that the constructors
      fill element by element and that operator*= overwrites. */
  class Mat4 {
    const data: array<Vec4<real>>

    ghost predicate Valid()
      reads this
    {
      data.Length == 4
    }

    /** The current value of the matrix. */
    function View(): Matrix
      reads this, data
      requires Valid()
    {
      data[..]
    }

    /** `Mat4()`: all zeros. */
    constructor Zero()
      ensures Valid() && fresh(data)
      ensures View() == ZeroMatrix()
    {
      data := new Vec4<real>[4](_ => ZeroVec4());
    }

    /** `Mat4(x, y, z, w)`: the four arguments become the columns. */
    constructor FromColumns(x: Vec4<real>, y: Vec4<real>, z: Vec4<real>, w: Vec4<real>)
      ensures Valid() && fresh(data)
      ensures View() == [x, y, z, w]
    {
      var d := new Vec4<real>[4](_ => ZeroVec4());
      d[0] := x; d[1] := y; d[2] := z; d[3] := w;
      data := d;
    }

    /** The 16-argument constructor: `data_[c][r]` is assigned argument
        `4 * c + r`. */
    constructor FromElements(xx: real, xy: real, xz: real, xw: real,
                             yx: real, yy: real, yz: real, yw: real,
                             zx: real, zy: real, zz: real, zw: real,
                             wx: real, wy: real, wz: real, ww: real)
      ensures Valid() && fresh(data)
      ensures View() == ColumnMajor([xx, xy, xz, xw, yx, yy, yz, yw,
                                     zx, zy, zz, zw, wx, wy, wz, ww])
    {
      var d := new Vec4<real>[4](_ => ZeroVec4());
      d[0] := d[0].With(0, xx); d[0] := d[0].With(1, xy); d[0] := d[0].With(2, xz); d[0] := d[0].With(3, xw);
      d[1] := d[1].With(0, yx); d[1] := d[1].With(1, yy); d[1] := d[1].With(2, yz); d[1] := d[1].With(3, yw);
      d[2] := d[2].With(0, zx); d[2] := d[2].With(1, zy); d[2] := d[2].With(2, zz); d[2] := d[2].With(3, zw);
      d[3] := d[3].With(0, wx); d[3] := d[3].With(1, wy); d[3] := d[3].With(2, wz); d[3] := d[3].With(3, ww);
      data := d;
    }

    /** `Mat4(d)`: `d` on the diagonal, 0 elsewhere. */
    constructor Diag(d: real)
      ensures Valid() && fresh(data)
      ensures View() == Diagonal(d)
    {
      var e := new Vec4<real>[4](_ => ZeroVec4());
      e[0] := Vec4(d, 0.0, 0.0, 0.0);
      e[1] := Vec4(0.0, d, 0.0, 0.0);
      e[2] := Vec4(0.0, 0.0, d, 0.0);
      e[3] := Vec4(0.0, 0.0, 0.0, d);
      data := e;
    }

    /** operator*: accumulates `out[col][row] += data_[k][row] * b[col][k]`. */
    method Times(b: Mat4) returns (out: Mat4)
      requires Valid() && b.Valid()
      ensures out.Valid() && fresh(out) && fresh(out.data)
      ensures out.View() == Product(View(), b.View())
    {
      out := new Mat4.Zero();
      ghost var a := View();
      ghost var bv := b.View();
      for col := 0 to 4
        invariant out.Valid() && fresh(out.data)
        invariant View() == a && b.View() == bv
        invariant forall c | 0 <= c < col :: out.data[c] == Product(a, bv)[c]
      {
        for row := 0 to 4
          invariant out.Valid() && fresh(out.data)
          invariant View() == a && b.View() == bv
          invariant forall c | 0 <= c < col :: out.data[c] == Product(a, bv)[c]
          invariant forall r | 0 <= r < row :: out.data[col].At(r) == PartialDot(a, bv, col, r, 4)
        {
          out.data[col] := out.data[col].With(row, 0.0);
          for k := 0 to 4
            invariant out.Valid() && fresh(out.data)
            invariant View() == a && b.View() == bv
            invariant forall c | 0 <= c < col :: out.data[c] == Product(a, bv)[c]
            invariant forall r | 0 <= r < row :: out.data[col].At(r) == PartialDot(a, bv, col, r, 4)
            invariant out.data[col].At(row) == PartialDot(a, bv, col, row, k)
          {
            out.data[col] := out.data[col].With(row, out.data[col].At(row) + data[k].At(row) * b.data[col].At(k));
          }
        }
        ghost var v := out.data[col];
        assert v == Vec4(v.At(0), v.At(1), v.At(2), v.At(3));
      }
      assert out.View() == Product(a, bv);
    }

    /** operator*=: `*this = *this * b`. */
    method TimesAssign(b: Mat4)
      requires Valid() && b.Valid()
      modifies data
      ensures Valid()
      ensures View() == Product(old(View()), old(b.View()))
    {
      var p := Times(b);
      data[0], data[1], data[2], data[3] := p.data[0], p.data[1], p.data[2], p.data[3];
      assert data[..] == p.data[..];
    }
  }
}
