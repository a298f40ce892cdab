/** The nested-type constructors `multi_array_t` and `multi_t` and the
    builder `make_multi`, as fixed by the assertions of test/meta.cpp. */
module Meta {
  import opened Dimensions

  datatype Option<T> = None | Some(value: T)

  /** A C++ type as far as these constructors see it: the leaf type `int`,
      `std::array<elem, n>`, or `std::vector<elem>`. */
  datatype Shape = Int | Arr(n: nat, elem: Shape) | Vec(elem: Shape)

  /** Number of type constructors in a shape. */
  function Size(s: Shape): nat {
    match s
    case Int => 1
    case Arr(_, e) => 1 + Size(e)
    case Vec(e) => 1 + Size(e)
  }

  // ---------------------------------------------------------------------
  // multi_array_t

  /** `multi_array_t<T, d1, ..., dk>`: an array of `d1` elements of
      `multi_array_t<T, d2, ..., dk>`, bottoming out at an array of `dk` T.
      An empty dimension list does not name a type. */
  function MultiArray(base: Shape, dims: seq<nat>): Shape
    requires |dims| >= 1
    decreases |dims|
  {
    if |dims| == 1 then Arr(dims[0], base) else Arr(dims[0], MultiArray(base, dims[1..]))
  }

  /** The sizes of the array layers of a shape, outermost first. */
  function ArrayDims(s: Shape): seq<nat> {
    match s
    case Arr(n, e) => [n] + ArrayDims(e)
    case _ => []
  }

  /** What is left of a shape once its array layers are peeled off. */
  function ArrayBase(s: Shape): Shape {
    match s
    case Arr(_, e) => ArrayBase(e)
    case _ => s
  }

  /** Reading the layers back off `multi_array_t<T, dims...>` gives `dims`,
      outermost first, followed by the layers T itself has. */
  lemma {:induction false} MultiArrayLayers(base: Shape, dims: seq<nat>)
    requires |dims| >= 1
    ensures ArrayDims(MultiArray(base, dims)) == dims + ArrayDims(base)
    ensures ArrayBase(MultiArray(base, dims)) == ArrayBase(base)
    decreases |dims|
  {
    if |dims| > 1 {
      MultiArrayLayers(base, dims[1..]);
      assert dims == [dims[0]] + dims[1..];
    }
  }

  /** Splitting the dimension list: the outer dimensions wrap the array type
      of the inner ones, which is how the test builds `array2d` from
      `array1d` and `array3d` from `array2d`. */
  lemma {:induction false} MultiArraySplit(base: Shape, outer: seq<nat>, inner: seq<nat>)
    requires |outer| >= 1 && |inner| >= 1
    ensures MultiArray(base, outer + inner) == MultiArray(MultiArray(base, inner), outer)
    decreases |outer|
  {
    assert (outer + inner)[1..] == outer[1..] + inner;
    if |outer| > 1 {
      MultiArraySplit(base, outer[1..], inner);
    }
  }

  /** A nested fixed array of `int` holds `Product(dims)` ints, the element
      count the nested swap walks through. */
  lemma MultiArrayLeafCount(dims: seq<nat>)
    requires |dims| >= 1
    ensures Product(ArrayDims(MultiArray(Int, dims))) == Product(dims)
  {
    MultiArrayLayers(Int, dims);
    assert dims + ArrayDims(Int) == dims;
  }

  /** Nesting one fixed array type inside another multiplies their int
      counts: `multi_array_t<multi_array_t<int, inner...>, outer...>` holds
      `Product(outer) * Product(inner)` ints. */
  lemma SplitLeafCount(outer: seq<nat>, inner: seq<nat>)
    requires |outer| >= 1 && |inner| >= 1
    ensures Product(ArrayDims(MultiArray(MultiArray(Int, inner), outer))) == Product(outer) * Product(inner)
  {
    MultiArraySplit(Int, outer, inner);
    MultiArrayLeafCount(outer + inner);
    ProductAppend(outer, inner);
  }

  // ---------------------------------------------------------------------
  // multi_t

  /** `multi_t<std::vector, T, depth>`: `vector<T>` at depth 1 and
      `vector<multi_t<std::vector, T, depth - 1>>` above. Depth 0 does not
      name a type. */
  function Multi(base: Shape, depth: nat): Shape
    requires depth >= 1
    decreases depth
  {
    if depth == 1 then Vec(base) else Vec(Multi(base, depth - 1))
  }

  /** The depth is the number of `vector` wrappers put around T. */
  lemma {:induction false} MultiSize(base: Shape, depth: nat)
    requires depth >= 1
    ensures Size(Multi(base, depth)) == Size(base) + depth
    decreases depth
  {
    if depth > 1 {
      MultiSize(base, depth - 1);
    }
  }

  /** Different depths give different types. */
  lemma MultiInjective(base: Shape, j: nat, k: nat)
    requires j >= 1 && k >= 1
    ensures Multi(base, j) == Multi(base, k) <==> j == k
  {
    MultiSize(base, j);
    MultiSize(base, k);
  }

  /** Wrapping depths add up: `vec3d` is `vector<vec2d>` and `vec2d` is
      `vector<vec1d>`, as the test spells them out. */
  lemma {:induction false} MultiSplit(base: Shape, outer: nat, inner: nat)
    requires outer >= 1 && inner >= 1
    ensures Multi(base, outer + inner) == Multi(Multi(base, inner), outer)
    decreases outer
  {
    if outer > 1 {
      MultiSplit(base, outer - 1, inner);
    }
  }

  // ---------------------------------------------------------------------
  // make_multi

  /** A value built by `make_multi`: a leaf value of the fill type, or a
      vector of values. */
  datatype Nested<T> = Leaf(v: T) | Node(elems: seq<Nested<T>>)

  /** `make_multi<std::vector>(v, d1, ..., dk)`: a vector of `d1` copies of
      `make_multi<std::vector>(v, d2, ..., dk)`, bottoming out at a vector of
      `dk` copies of `v`. An empty dimension list does not compile. */
  function MakeMulti<T>(v: T, dims: seq<nat>): (r: Nested<T>)
    requires |dims| >= 1
    ensures r.Node? && |r.elems| == dims[0]
    decreases |dims|
  {
    var inner := if |dims| == 1 then Leaf(v) else MakeMulti(v, dims[1..]);
    Node(seq(dims[0], _ => inner))
  }

  /** The static type of a value: a leaf has the fill type `leaf`, a vector
      has type `vector<E>` when all its elements have type E. */
  ghost predicate Conforms<T>(n: Nested<T>, s: Shape, leaf: Shape)
    decreases n
  {
    match n
    case Leaf(_) => s == leaf
    case Node(es) => s.Vec? && forall i :: 0 <= i < |es| ==> Conforms(es[i], s.elem, leaf)
  }

  /** `decltype(make_multi<std::vector>(v, dims...))` is
      `multi_t<std::vector, decltype(v), |dims|>`. */
  lemma {:induction false} MakeMultiType<T>(v: T, leaf: Shape, dims: seq<nat>)
    requires |dims| >= 1
    ensures Conforms(MakeMulti(v, dims), Multi(leaf, |dims|), leaf)
    decreases |dims|
  {
    var r := MakeMulti(v, dims);
    if |dims| > 1 {
      MakeMultiType(v, leaf, dims[1..]);
      assert Multi(leaf, |dims|).elem == Multi(leaf, |dims[1..]|);
    }
    forall i | 0 <= i < |r.elems|
      ensures Conforms(r.elems[i], Multi(leaf, |dims|).elem, leaf)
    {
    }
  }

  /** With no empty level the value pins its type down: the only shape it
      conforms to is that one. */
  lemma {:induction false} MakeMultiTypeUnique<T>(v: T, leaf: Shape, dims: seq<nat>, s: Shape)
    requires |dims| >= 1 && Positive(dims)
    requires Conforms(MakeMulti(v, dims), s, leaf)
    ensures s == Multi(leaf, |dims|)
    decreases |dims|
  {
    var r := MakeMulti(v, dims);
    assert Conforms(r.elems[0], s.elem, leaf);
    if |dims| > 1 {
      PositiveTail(dims);
      MakeMultiTypeUnique(v, leaf, dims[1..], s.elem);
    }
  }

  /** The builder's value has type `multi_t<std::vector, T, depth>` exactly
      when the depth equals the number of dimensions. */
  lemma MakeMultiDepth<T>(v: T, leaf: Shape, dims: seq<nat>, depth: nat)
    requires |dims| >= 1 && Positive(dims) && depth >= 1
    ensures Conforms(MakeMulti(v, dims), Multi(leaf, depth), leaf) <==> depth == |dims|
  {
    MakeMultiType(v, leaf, dims);
    if Conforms(MakeMulti(v, dims), Multi(leaf, depth), leaf) {
      MakeMultiTypeUnique(v, leaf, dims, Multi(leaf, depth));
      MultiInjective(leaf, depth, |dims|);
    }
  }

  /** `n[p0][p1]...`: the element reached by following an index path, if
      every index is within its vector. */
  function At<T>(n: Nested<T>, path: seq<nat>): Option<Nested<T>>
    decreases |path|
  {
    if path == [] then Some(n)
    else match n
      case Leaf(_) => None
      case Node(es) => if path[0] < |es| then At(es[path[0]], path[1..]) else None
  }

  /** An index path within the dimensions, level by level. */
  predicate InBounds(path: seq<nat>, dims: seq<nat>) {
    |path| <= |dims| && forall j :: 0 <= j < |path| ==> path[j] < dims[j]
  }

  /** Uniform nesting: following any in-bounds path of length j reaches
      `make_multi(v, d(j+1), ..., dk)`, which has `d(j+1)` elements, and a
      full-length path reaches `v`. So every level has its size at every
      position and every leaf is the fill value. */
  lemma {:induction false} MakeMultiAt<T>(v: T, dims: seq<nat>, path: seq<nat>)
    requires |dims| >= 1 && InBounds(path, dims)
    ensures |path| == |dims| ==> At(MakeMulti(v, dims), path) == Some(Leaf(v))
    ensures |path| < |dims| ==> At(MakeMulti(v, dims), path) == Some(MakeMulti(v, dims[|path|..]))
    ensures |path| < |dims| ==> |At(MakeMulti(v, dims), path).value.elems| == dims[|path|]
    decreases |path|
  {
    if path == [] {
      assert dims[0..] == dims;
    } else {
      var r := MakeMulti(v, dims);
      assert r.elems[path[0]] == if |dims| == 1 then Leaf(v) else MakeMulti(v, dims[1..]);
      if |dims| > 1 {
        assert InBounds(path[1..], dims[1..]) by {
          forall j | 0 <= j < |path[1..]| ensures path[1..][j] < dims[1..][j] {
            assert path[1..][j] == path[j + 1] && dims[1..][j] == dims[j + 1];
          }
        }
        MakeMultiAt(v, dims[1..], path[1..]);
        assert dims[1..][|path[1..]|..] == dims[|path|..];
      }
    }
  }

  /** An index beyond its level's size reaches nothing. */
  lemma {:induction false} MakeMultiOutOfBounds<T>(v: T, dims: seq<nat>, path: seq<nat>, j: nat)
    requires |dims| >= 1 && j < |path| && j < |dims| && path[j] >= dims[j]
    requires InBounds(path[..j], dims)
    ensures At(MakeMulti(v, dims), path) == None
    decreases j
  {
    if j > 0 {
      var r := MakeMulti(v, dims);
      assert r.elems[path[0]] == if |dims| == 1 then Leaf(v) else MakeMulti(v, dims[1..]);
      assert InBounds(path[1..][..j - 1], dims[1..]) by {
        forall i | 0 <= i < j - 1 ensures path[1..][..j - 1][i] < dims[1..][i] {
          assert path[1..][..j - 1][i] == path[..j][i + 1];
        }
      }
      MakeMultiOutOfBounds(v, dims[1..], path[1..], j - 1);
    }
  }

  /** The leaves of a value, left to right. */
  function Leaves<T>(n: Nested<T>): seq<T>
    decreases n, 1
  {
    match n
    case Leaf(x) => [x]
    case Node(es) => LeavesOf(es)
  }

  /** The leaves of a list of values, left to right. */
  function LeavesOf<T>(es: seq<Nested<T>>): seq<T>
    decreases es, 0
  {
    if es == [] then [] else Leaves(es[0]) + LeavesOf(es[1..])
  }

  /** `d` copies of a value whose leaves are `p` copies of `v` have
      `d * p` leaves, all `v`. */
  lemma {:induction false} LeavesOfCopies<T>(x: Nested<T>, d: nat, p: nat, v: T)
    requires Leaves(x) == seq(p, _ => v)
    ensures LeavesOf(seq(d, _ => x)) == seq(d * p, _ => v)
    decreases d
  {
    var es := seq(d, _ => x);
    if d > 0 {
      assert es[1..] == seq(d - 1, _ => x);
      LeavesOfCopies(x, d - 1, p, v);
      assert d * p == p + (d - 1) * p;
      assert seq(p, _ => v) + seq((d - 1) * p, _ => v) == seq(d * p, _ => v);
    }
  }

  /** `make_multi(v, dims...)` has exactly `Product(dims)` leaves and every
      one of them is `v`; this is also the cost of building it. */
  lemma {:induction false} MakeMultiLeaves<T>(v: T, dims: seq<nat>)
    requires |dims| >= 1
    ensures Leaves(MakeMulti(v, dims)) == seq(Product(dims), _ => v)
    decreases |dims|
  {
    var inner := if |dims| == 1 then Leaf(v) else MakeMulti(v, dims[1..]);
    if |dims| == 1 {
      assert Leaves(inner) == seq(1, _ => v);
      assert Product(dims[1..]) == 1;
    } else {
      MakeMultiLeaves(v, dims[1..]);
    }
    LeavesOfCopies(inner, dims[0], Product(dims[1..]), v);
    assert MakeMulti(v, dims).elems == seq(dims[0], _ => inner);
  }

  /** The sizes seen by walking down the first element at each level. */
  function DimsOf<T>(n: Nested<T>): seq<nat> {
    match n
    case Leaf(_) => []
    case Node(es) => if es == [] then [0] else [|es|] + DimsOf(es[0])
  }

  /** The leaf reached by walking down the first element at each level. */
  function FirstLeaf<T>(n: Nested<T>): Option<T> {
    match n
    case Leaf(x) => Some(x)
    case Node(es) => if es == [] then None else FirstLeaf(es[0])
  }

  /** With no empty level, the fill value and the dimension list can be
      read back off the built value. */
  lemma {:induction false} MakeMultiRoundTrip<T>(v: T, dims: seq<nat>)
    requires |dims| >= 1 && Positive(dims)
    ensures DimsOf(MakeMulti(v, dims)) == dims
    ensures FirstLeaf(MakeMulti(v, dims)) == Some(v)
    decreases |dims|
  {
    var r := MakeMulti(v, dims);
    assert r.elems[0] == if |dims| == 1 then Leaf(v) else MakeMulti(v, dims[1..]);
    if |dims| > 1 {
      PositiveTail(dims);
      MakeMultiRoundTrip(v, dims[1..]);
      assert dims == [dims[0]] + dims[1..];
    }
  }

  // ---------------------------------------------------------------------
  // The assertions of test/meta.cpp

  lemma MultiArrayExamples()
    ensures MultiArray(Int, [1]) == Arr(1, Int)
    ensures MultiArray(Int, [1, 1]) == Arr(1, Arr(1, Int))
    ensures MultiArray(Int, [1, 1, 1]) == Arr(1, Arr(1, Arr(1, Int)))
  {
  }

  lemma MultiExamples()
    ensures Multi(Int, 1) == Vec(Int)
    ensures Multi(Int, 2) == Vec(Vec(Int))
    ensures Multi(Int, 3) == Vec(Vec(Vec(Int)))
  {
  }

  lemma MakeMultiExamples()
    ensures var a := MakeMulti(2, [1]);
      Conforms(a, Multi(Int, 1), Int) && |a.elems| == 1 && a.elems[0] == Leaf(2)
    ensures var b := MakeMulti(2, [1, 2]);
      Conforms(b, Multi(Int, 2), Int) && |b.elems| == 1 && |b.elems[0].elems| == 2
      && b.elems[0].elems[0] == Leaf(2)
    ensures var c := MakeMulti(2, [1, 2, 3]);
      Conforms(c, Multi(Int, 3), Int) && |c.elems| == 1 && |c.elems[0].elems| == 2
      && |c.elems[0].elems[0].elems| == 3 && c.elems[0].elems[0].elems[0] == Leaf(2)
  {
    MakeMultiType(2, Int, [1]);
    MakeMultiType(2, Int, [1, 2]);
    MakeMultiType(2, Int, [1, 2, 3]);
    MakeMultiAt(2, [1, 2], [0, 0]);
    MakeMultiAt(2, [1, 2, 3], [0, 0, 0]);
  }
}
