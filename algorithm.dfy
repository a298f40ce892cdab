/** The introspective swap `iswap` of cppu/algorithm.hpp. */
module Algorithm {
  import opened Dimensions

  /** Answer of the compile-time probe "is `x.swap(y)` well-formed for T?". */
  datatype Capability = HasMemberSwap | NoMemberSwap

  /** The two overloads of `detail::iswap`: the one calling `x.swap(y)`
      (dummy parameter `char`) and the one calling the free `swap(x, y)`
      found in `std` or by argument-dependent lookup (dummy parameter `int`). */
  datatype Route = MemberRoute | FreeRoute

  /** Overloads that survive substitution: the free one always, the member
      one only when the probe succeeds. */
  function Viable(c: Capability): (vs: set<Route>)
    ensures FreeRoute in vs
    ensures MemberRoute in vs <==> c == HasMemberSwap
  {
    if c == HasMemberSwap then {MemberRoute, FreeRoute} else {FreeRoute}
  }

  /** Conversion rank of the argument `' '` to each overload's dummy
      parameter: an exact match for `char`, a promotion for `int`. */
  function Rank(r: Route): nat {
    if r == MemberRoute then 0 else 1
  }

  /** Overload resolution in the public `iswap(T&, T&)`: the viable overload
      of best rank, so the member swap whenever the type has one. */
  function Dispatch(c: Capability): (r: Route)
    ensures r in Viable(c)
    ensures forall q :: q in Viable(c) ==> Rank(r) <= Rank(q)
    ensures r == FreeRoute <==> c == NoMemberSwap
  {
    if MemberRoute in Viable(c) then MemberRoute else FreeRoute
  }

  /** What the model needs of an element type T: the probe's answer and the
      effect of its member swap on the two operand values (new x, new y). */
  datatype ElemType<!T> = ElemType(cap: Capability, member: (T, T) -> (T, T))

  /** The type's member swap is a self-exchange: it trades any two values. */
  ghost predicate LawfulMember<T(!new)>(t: ElemType<T>) {
    forall a, b :: t.member(a, b) == (b, a)
  }

  /** `iswap` on this pair of values amounts to a plain exchange: either the
      free swap is used, or the member swap trades these two values. */
  ghost predicate ExchangesOn<T>(t: ElemType<T>, a: T, b: T) {
    t.cap == NoMemberSwap || t.member(a, b) == (b, a)
  }

  /** The generic fallback `using std::swap; swap(x, y);`: three moves
      through a temporary. Returns the new (x, y). */
  function FreeSwap<T>(x: T, y: T): (r: (T, T))
    ensures r.0 == y && r.1 == x
  {
    var tmp := x;
    var x' := y;
    var y' := tmp;
    (x', y')
  }

  /** End state (new x, new y) of `iswap(x, y)` on two non-aggregate operands.
      Whatever the member swap returns is cast to void and dropped. */
  function ISwapValue<T>(t: ElemType<T>, x: T, y: T): (r: (T, T))
    ensures t.cap == HasMemberSwap ==> r == t.member(x, y)
    ensures t.cap == NoMemberSwap ==> r.0 == y && r.1 == x
    ensures ExchangesOn(t, x, y) ==> r.0 == y && r.1 == x
  {
    match Dispatch(t.cap)
    case MemberRoute => t.member(x, y)
    case FreeRoute => FreeSwap(x, y)
  }

  /** For a type whose member swap is a self-exchange, and for every type
      without one, `iswap` trades the two values whichever overload it picks. */
  lemma LawfulISwapExchanges<T(!new)>(t: ElemType<T>, x: T, y: T)
    requires t.cap == NoMemberSwap || LawfulMember(t)
    ensures ISwapValue(t, x, y) == (y, x)
  {
    assert ExchangesOn(t, x, y);
  }

  /** `iswap` on two raw arrays `T[n]` or two `std::array<T, n>`: one loop
      that calls `iswap` on each pair `x[i]`, `y[i]`. The model writes the
      pair back as two values, so a member swap called on one object twice
      (the same array passed as both operands) is not expressible. */
  method ISwapArray<T>(t: ElemType<T>, x: array<T>, y: array<T>)
    requires x.Length == y.Length
    requires t.cap == HasMemberSwap ==> x != y
    modifies x, y
    ensures forall i :: 0 <= i < x.Length ==>
              (x[i], y[i]) == ISwapValue(t, old(x[i]), old(y[i]))
    ensures forall i :: 0 <= i < x.Length && ExchangesOn(t, old(x[i]), old(y[i])) ==>
              x[i] == old(y[i]) && y[i] == old(x[i])
  {
    var n := x.Length;
    for i := 0 to n
      invariant forall k :: 0 <= k < i ==> (x[k], y[k]) == ISwapValue(t, old(x[k]), old(y[k]))
      invariant forall k :: i <= k < n ==> x[k] == old(x[k]) && y[k] == old(y[k])
    {
      var p := ISwapValue(t, x[i], y[i]);
      x[i] := p.0;
      y[i] := p.1;
    }
  }

  /** `iswap` on two nested fixed arrays of type `multi_array_t<T, dims...>`,
      held leaf by leaf in row-major order from offset `off` (the layout of
      nested raw arrays). For a non-empty `dims` it loops over the outer
      index and calls itself on each sub-array of `Product(dims[1..])`
      leaves; for an empty `dims` it exchanges one leaf pair. */
  method ISwapNested<T>(t: ElemType<T>, x: array<T>, y: array<T>, dims: seq<nat>, off: nat)
    requires x.Length == y.Length
    requires off + Product(dims) <= x.Length
    requires t.cap == HasMemberSwap ==> x != y
    modifies x, y
    ensures forall k :: off <= k < off + Product(dims) ==>
              (x[k], y[k]) == ISwapValue(t, old(x[k]), old(y[k]))
    ensures forall k :: 0 <= k < x.Length && !(off <= k < off + Product(dims)) ==>
              x[k] == old(x[k]) && y[k] == old(y[k])
    decreases |dims|
  {
    if dims == [] {
      var p := ISwapValue(t, x[off], y[off]);
      x[off] := p.0;
      y[off] := p.1;
    } else {
      var stride := Product(dims[1..]);
      for i := 0 to dims[0]
        invariant forall k :: off <= k < off + i * stride ==>
                    (x[k], y[k]) == ISwapValue(t, old(x[k]), old(y[k]))
        invariant forall k :: 0 <= k < x.Length && !(off <= k < off + i * stride) ==>
                    x[k] == old(x[k]) && y[k] == old(y[k])
      {
        BlockFits(i, dims[0], stride);
        ISwapNested(t, x, y, dims[1..], off + i * stride);
      }
    }
  }

  /** The 2 x 2 case: all four leaf pairs of two `int[2][2]` are exchanged. */
  method SwapGridExample() {
    var x := new int[4] [1, 2, 3, 4];
    var y := new int[4] [5, 6, 7, 8];
    var intType := ElemType(NoMemberSwap, (a: int, b: int) => (a, b));
    ISwapNested(intType, x, y, [2, 2], 0);
    assert x[..] == [5, 6, 7, 8] && y[..] == [1, 2, 3, 4];
  }
}
