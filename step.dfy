/**
 * The `Step` trait (src/step.rs): successor and predecessor arithmetic for the twelve
 * primitive integer types. All twelve impls share one definition; the model gives it once,
 * parameterised by the integer type's width and signedness. Overflow panics in the source;
 * the model makes the absence of overflow a precondition, and writes the `as` casts from and
 * to `usize` out explicitly.
 */
module Steps {
  import opened Bounds

  datatype IntType = IntType(bits: nat, signed: bool)

  const U8 := IntType(8, false)
  const U16 := IntType(16, false)
  const U32 := IntType(32, false)
  const U64 := IntType(64, false)
  const U128 := IntType(128, false)
  // `usize` and `isize` depend on the target in Rust; the model takes them as 64-bit.
  const Usize := IntType(64, false)
  const I8 := IntType(8, true)
  const I16 := IntType(16, true)
  const I32 := IntType(32, true)
  const I64 := IntType(64, true)
  const I128 := IntType(128, true)
  const Isize := IntType(64, true)

  function Pow2(n: nat): (r: nat)
    ensures r >= 1
  {
    if n == 0 then 1 else 2 * Pow2(n - 1)
  }

  predicate WellFormed(ty: IntType)
  {
    ty.bits >= 1
  }

  function Min(ty: IntType): int
    requires WellFormed(ty)
  {
    if ty.signed then -(Pow2(ty.bits - 1) as int) else 0
  }

  function Max(ty: IntType): int
    requires WellFormed(ty)
  {
    if ty.signed then Pow2(ty.bits - 1) - 1 else Pow2(ty.bits) - 1
  }

  predicate InRange(ty: IntType, x: int)
    requires WellFormed(ty)
  {
    Min(ty) <= x <= Max(ty)
  }

  lemma Pow2Split(n: nat)
    requires n >= 1
    ensures Pow2(n) == 2 * Pow2(n - 1)
  {
  }

  lemma ModSmall(n: nat, m: nat)
    requires 0 < m
    ensures 0 <= n % m < m
    ensures n < m ==> n % m == n
  {
  }

  /** A residue m, and m shifted down by one modulus, leave the same remainder. */
  lemma ModShift(m: int, size: int)
    requires 0 <= m < size
    ensures (m - size) % size == m
    ensures m % size == m
  {
    var q := (m - size) / size;
    assert m - size == q * size + (m - size) % size;
    MulBounds(q, size);
  }

  lemma MulBounds(q: int, size: int)
    requires 0 < size
    ensures q >= 0 ==> q * size >= 0
    ensures q <= -2 ==> q * size <= -2 * size
  {
    if q <= -2 {
      assert q * size == -2 * size + (q + 2) * size;
    }
  }

  /**
   * `count as T` for a `usize` count: the one value of T's range that is congruent to the
   * count modulo 2^bits. It is the count itself when the count fits.
   */
  function CastFromUsize(ty: IntType, n: nat): (r: int)
    requires WellFormed(ty)
    ensures InRange(ty, r)
    ensures r % Pow2(ty.bits) == n % Pow2(ty.bits)
    ensures n <= Max(ty) ==> r == n
  {
    var size := Pow2(ty.bits);
    Pow2Split(ty.bits);
    ModSmall(n, size);
    var m := n % size;
    ModShift(m, size);
    if ty.signed && m > Max(ty) then m - size else m
  }

  /** `x as usize` for a non-negative x: the usize congruent to x modulo 2^64. */
  function CastToUsize(x: nat): (r: nat)
    ensures InRange(Usize, r)
    ensures r % Pow2(Usize.bits) == x % Pow2(Usize.bits)
    ensures x <= Max(Usize) ==> r == x
  {
    var size := Pow2(Usize.bits);
    Pow2Split(Usize.bits);
    ModSmall(x, size);
    ModShift(x % size, size);
    x % size
  }

  /** `next` (src/step.rs:21-23): the successor, the least value of the type above x. */
  function Next(ty: IntType, x: int): (r: int)
    requires WellFormed(ty) && InRange(ty, x) && x < Max(ty)
    ensures InRange(ty, r) && x < r
    ensures forall y | InRange(ty, y) && x < y :: r <= y
  {
    x + 1
  }

  /** `prev` (src/step.rs:24-26): the predecessor, the greatest value of the type below x. */
  function Prev(ty: IntType, x: int): (r: int)
    requires WellFormed(ty) && InRange(ty, x) && Min(ty) < x
    ensures InRange(ty, r) && r < x
    ensures forall y | InRange(ty, y) && y < x :: y <= r
  {
    x - 1
  }

  /**
   * `steps_between` (src/step.rs:27-33): `Some(end - start)` cast to `usize` when
   * start <= end, with the subtraction done in T.
   */
  function StepsBetween(ty: IntType, start: int, end: int): (r: Option<nat>)
    requires WellFormed(ty) && InRange(ty, start) && InRange(ty, end)
    requires start <= end ==> end - start <= Max(ty)
    ensures r.Some? <==> start <= end
    ensures r.Some? ==> InRange(Usize, r.value)
    ensures r.Some? && end - start <= Max(Usize) ==> start + r.value == end
  {
    if start <= end then Some(CastToUsize(end - start)) else None
  }

  /** `forward` (src/step.rs:34-36): `start + count as T`. */
  function Forward(ty: IntType, start: int, count: nat): (r: int)
    requires WellFormed(ty) && InRange(ty, start)
    requires InRange(ty, start + CastFromUsize(ty, count))
    ensures InRange(ty, r)
    ensures count <= Max(ty) ==> r == start + count
  {
    start + CastFromUsize(ty, count)
  }

  /** `backward` (src/step.rs:37-39): `start - count as T`. */
  function Backward(ty: IntType, start: int, count: nat): (r: int)
    requires WellFormed(ty) && InRange(ty, start)
    requires InRange(ty, start - CastFromUsize(ty, count))
    ensures InRange(ty, r)
    ensures count <= Max(ty) ==> r == start - count
  {
    start - CastFromUsize(ty, count)
  }

  /** Taking the successor and then the predecessor gives the value back, and vice versa. */
  lemma PrevNext(ty: IntType, x: int)
    requires WellFormed(ty) && InRange(ty, x)
    ensures x < Max(ty) ==> Prev(ty, Next(ty, x)) == x
    ensures Min(ty) < x ==> Next(ty, Prev(ty, x)) == x
  {
  }

  /** Stepping forward by `steps_between(s, e)` reaches `e`. */
  lemma ForwardStepsBetween(ty: IntType, s: int, e: int)
    requires WellFormed(ty) && InRange(ty, s) && InRange(ty, e)
    requires s <= e && e - s <= Max(ty) && e - s <= Max(Usize)
    ensures StepsBetween(ty, s, e).Some?
    ensures Forward(ty, s, StepsBetween(ty, s, e).value) == e
  {
    var n := StepsBetween(ty, s, e).value;
    assert n == e - s;
    assert CastFromUsize(ty, n) == n;
  }

  /** `backward(forward(s, n), n) == s` when no step overflows. */
  lemma BackwardForward(ty: IntType, s: int, n: nat)
    requires WellFormed(ty) && InRange(ty, s) && n <= Max(ty) && InRange(ty, s + n)
    ensures Backward(ty, Forward(ty, s, n), n) == s
  {
  }

  /** The twelve types are well formed, and `u8` has the range 0..=255. */
  lemma TypesWellFormed()
    ensures WellFormed(U8) && WellFormed(U16) && WellFormed(U32) && WellFormed(U64)
    ensures WellFormed(U128) && WellFormed(Usize) && WellFormed(I8) && WellFormed(I16)
    ensures WellFormed(I32) && WellFormed(I64) && WellFormed(I128) && WellFormed(Isize)
    ensures Min(U8) == 0 && Max(U8) == 255 && Min(I8) == -128 && Max(I8) == 127
  {
    assert Pow2(8) == 256 by {
      assert Pow2(4) == 16;
    }
    assert Pow2(7) == 128;
  }

  /**
   * `count as i8` wraps for a count above 127: `forward(100i8, 200)` adds -56, not 200, and gives 44.
   */
  lemma SignedCastWraps()
    ensures CastFromUsize(I8, 200) == -56
  {
    TypesWellFormed();
    assert Pow2(8) == 256;
  }
}
