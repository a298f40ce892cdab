# CPP Utility: introspective swap and nested containers

This project models the two runtime-visible pieces of the CPP Utility library
and proves properties about them.

- **`cppu::iswap`** (`cppu/algorithm.hpp`) exchanges two values in place.
  When the type has a member `x.swap(y)`, `iswap` calls it. Otherwise it calls
  a free `swap(x, y)`, found in `std` or by argument-dependent lookup. For raw
  fixed arrays and `std::array` it loops over the indices and calls `iswap` on
  each pair. So nested arrays are swapped leaf by leaf.
  Module `Algorithm` models this imperatively:
  - A `Capability` flag stands for the compile-time probe.
  - `Viable`, `Rank` and `Dispatch` model the overload choice.
  - `ISwapValue` gives the two values an element swap leaves behind.
  - Method `ISwapArray` is the array overload. Its `for` loop writes both
    arrays in place.
  - Method `ISwapNested` is the same overload applied recursively to
    `multi_array_t<T, d1, ..., dk>`. The nested array is held leaf by leaf in
    row-major order, which is how nested raw arrays are laid out in memory.
- **`multi_array_t`, `multi_t`, `make_multi`** are fixed by the assertions of
  `test/meta.cpp`. Module `Meta` models them as pure functions:
  - `Shape` is a small datatype of C++ types: `int`, `std::array`, `std::vector`.
  - `MultiArray` and `Multi` are the two type constructors.
  - `MakeMulti` is the builder. It returns a `Nested` value: a leaf, or a
    vector of nested values.
  - `Conforms` says when a value has a given static type.
- Module `Dimensions` holds `Product`, the leaf count of a dimension list. It
  is shared by the nested swap and the builder.

The header that defines `multi_array_t`, `multi_t` and `make_multi`
(`cppu/meta.hpp`) is not part of this model. Their behaviour is taken from the
test assertions.

## Model

| member | source | states |
|---|---|---|
| `Algorithm.Viable` | cppu/algorithm.hpp:18-29 | The free-swap overload is always a candidate. The member-swap overload is a candidate exactly when `x.swap(y)` is well-formed. |
| `Algorithm.Dispatch` | cppu/algorithm.hpp:35-43 | The chosen overload is viable and has the best rank among the viable ones. The free swap is chosen exactly when the type has no member swap. |
| `Algorithm.FreeSwap` | cppu/algorithm.hpp:18-23 | The fallback's three moves through a temporary leave `x` with the old `y` and `y` with the old `x`. |
| `Algorithm.ISwapValue` | cppu/algorithm.hpp:16-43 | With a member swap, the end state is what the member swap produces. Without one, the values are exchanged. Whenever the pair is plainly exchangeable, `x` gets the old `y` and `y` the old `x`. `iswap` yields nothing else. |
| `Algorithm.LawfulISwapExchanges` | cppu/algorithm.hpp:33-43 | For a type without a member swap, or one whose member swap is a self-exchange, `iswap` trades the two values whichever overload it picks. |
| `Algorithm.ISwapArray` | cppu/algorithm.hpp:45-65 | Needs equal lengths. Afterwards every index `i` holds the element `iswap` result of the old pair. For exchangeable pairs, `x[i]` is the old `y[i]` and `y[i]` the old `x[i]`. Only `x` and `y` are modified. The loop invariant: indices below `i` are done and those from `i` on are untouched. |
| `Algorithm.ISwapNested` | cppu/algorithm.hpp:45-65 | Swaps `multi_array_t<T, dims...>` by recursing on each sub-array. Every one of the `Product(dims)` leaf pairs ends up as the element `iswap` of its old values. Nothing outside the block changes. |
| `Meta.MultiArrayLayers` | test/meta.cpp:18-26 | Peeling the array layers off `multi_array_t<T, dims...>` gives back `dims`, outermost first, then T's own layers. The base is unchanged. |
| `Meta.MultiArraySplit` | test/meta.cpp:20-25 | `multi_array_t<T, outer..., inner...>` is `multi_array_t<multi_array_t<T, inner...>, outer...>`. This is how `array2d` wraps `array1d`. |
| `Meta.MultiArrayLeafCount` | test/meta.cpp:20-25 | `multi_array_t<int, dims...>` holds `Product(dims)` ints. |
| `Meta.SplitLeafCount` | test/meta.cpp:20-25 | Nesting `multi_array_t<int, inner...>` inside an array of dimensions `outer` gives `Product(outer) * Product(inner)` ints, as `array2d` holds its `array1d` elements. |
| `Meta.MultiArrayExamples` | test/meta.cpp:23-25 | `multi_array_t<int,1>`, `<int,1,1>` and `<int,1,1,1>` are `array1d`, `array2d` and `array3d`. |
| `Meta.MultiSize` | test/meta.cpp:30-35 | `multi_t<vector, T, k>` has exactly `k` more type constructors than T: the depth is the number of `vector` wrappers. |
| `Meta.MultiInjective` | test/meta.cpp:30-35 | Two depths give the same type if and only if they are equal. |
| `Meta.MultiSplit` | test/meta.cpp:30-35 | `multi_t<vector, T, j + k>` is `multi_t<vector, multi_t<vector, T, k>, j>`. So `vec2d` is `vector<vec1d>`. |
| `Meta.MultiExamples` | test/meta.cpp:33-35 | `multi_t<vector, int, 1/2/3>` are `vec1d`, `vec2d` and `vec3d`. |
| `Meta.MakeMulti` | test/meta.cpp:43-45 | `make_multi(v, d1, ...)` is a vector with exactly `d1` elements. |
| `Meta.MakeMultiType` | test/meta.cpp:46-48 | The built value has type `multi_t<vector, T, k>` for `k` dimensions. |
| `Meta.MakeMultiTypeUnique` | test/meta.cpp:46-48 | When no dimension is zero, that is the only type the value conforms to. |
| `Meta.MakeMultiDepth` | test/meta.cpp:46-48 | When no dimension is zero, the value has type `multi_t<vector, T, depth>` if and only if `depth` is the number of dimensions. |
| `Meta.MakeMultiAt` | test/meta.cpp:49-57 | Every in-bounds index path of length `j` reaches `make_multi(v, dims[j..])`, which has `dims[j]` elements. A full-length path reaches `v`. Sizes follow the list outermost first, and the nesting is never jagged. |
| `Meta.MakeMultiOutOfBounds` | test/meta.cpp:49-56 | An index at or beyond its level's size reaches nothing, so each level has exactly its size. |
| `Meta.MakeMultiLeaves` | test/meta.cpp:49-57 | The leaves, left to right, are exactly `Product(dims)` copies of `v`. |
| `Meta.MakeMultiRoundTrip` | test/meta.cpp:43-57 | When no dimension is zero, the dimension list and the fill value can be read back off the built value. |
| `Meta.MakeMultiExamples` | test/meta.cpp:43-57 | `make_multi(2, 1)`, `(2, 1, 2)` and `(2, 1, 2, 3)` have the types and sizes the test asserts, and `2` at their first leaf. |

## Left out

- The well-formedness probe `enable_if_well_formed_t` (test/meta.cpp:12-16) and the SFINAE removal of the member overload. These are compile-time mechanisms. The `Capability` flag and `Viable` stand for their outcome.
- Argument-dependent lookup: the free `swap`, whether from `std` or from T's namespace, is one generic exchange (`FreeSwap`).
- `std::is_same` type identity: types are values of the `Shape` datatype, and identity is datatype equality.
- `ISwapValue`: the non-array `iswap(T&, T&)` writes through two references. The model gives the pair of new values instead, and the array methods do the writes in place.
- `ISwapValue`: a value that `x.swap(y)` may return is not represented. The model's end state has no place for it, which matches it being cast to `void`.
- `ISwapArray`: when the type has a member swap, the model requires two distinct arrays. A member swap called with one object as both operands has no meaning on values. Aliased operands are modelled only for the free swap.
- `ISwapNested`: carries the same requirement of distinct arrays for a member swap.
- `ISwapNested`: a nested array is modelled as its flat row-major storage, not as Dafny arrays of arrays.
- Raw `T[n]` versus `std::array<T, n>`: both overloads have the same loop, so one method models both.
- Mixed nesting is not modelled. The raw-array overload is declared before the `std::array` one, and argument-dependent lookup on `std::array` does not search `cppu`. So in a raw array of `std::array`, the inner call resolves to `iswap(T&, T&)`. That calls `std::array::swap`, not the element loop, and the leaves' own member swaps are skipped. `ISwapNested` covers uniform nesting only: all raw arrays, or all `std::array`.
- `multi_t` is modelled only for the container family `std::vector`, the one the tests use.
- Allocation, move semantics, `size_t` limits and the compile-time rejection of arbitrary types: the model does not cover them. Dimensions are natural numbers. An empty dimension list and depth 0 are excluded by preconditions, because neither names a type.
- Sibling independence of `make_multi`'s copies: Dafny values are immutable, so sharing is not observable and is not stated.
- Dimensions may be zero, as `std::array<T, 0>` and an empty vector allow. The model needs positivity only where a zero level would hide the deeper sizes (`MakeMultiTypeUnique`, `MakeMultiDepth`, `MakeMultiRoundTrip`).
