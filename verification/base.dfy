/** Small shared vocabulary of the model: optional values, identifiers,
    time in ticks and the 32-bit integer arithmetic of the server code. */
module Base {

  /** A value that may be missing (the C# `null` of a reference or a `Nullable<T>`). */
  datatype Option<+T> = None | Some(value: T) {
    function GetOr(default: T): T {
      match this
      case Some(v) => v
      case None => default
    }
  }

  /** Entity identifiers (the source's `Guid`). Only equality matters, plus an
      arbitrary total order for the database's `ORDER BY` on identifiers. */
  type Id = nat

  /** Time is counted in ticks of 100 nanoseconds, like `DateTime.Ticks`. */
  const TicksPerSecond: int := 10_000_000
  const TicksPerMinute: int := 60 * TicksPerSecond
  const TicksPerDay: int := 24 * 60 * TicksPerMinute

  /** `DateTime.AddMinutes` / `AddDays` for whole numbers of minutes or days. */
  function AddMinutes(t: int, minutes: int): int { t + minutes * TicksPerMinute }
  function AddDays(t: int, days: int): int { t + days * TicksPerDay }

  /** Different numbers of minutes after the same instant are different
      instants. */
  lemma AddMinutesInjective(t: int, m: int, n: int)
    ensures AddMinutes(t, m) == AddMinutes(t, n) <==> m == n
  {
    assert TicksPerMinute == 600_000_000;
  }

  /** The range of the C# `int` type. */
  const Int32Min: int := -0x8000_0000
  const Int32Max: int := 0x7FFF_FFFF

  predicate InInt32(n: int) { Int32Min <= n <= Int32Max }

  /** Unchecked 32-bit two's-complement wrap-around, as C# `int` addition does
      outside a `checked` context. */
  function Wrap32(n: int): (r: int)
    ensures InInt32(r)
    ensures InInt32(n) ==> r == n
    ensures (r - n) % 0x1_0000_0000 == 0
  {
    (n - Int32Min) % 0x1_0000_0000 + Int32Min
  }

  function Max(a: int, b: int): int { if a < b then b else a }
  function Min(a: int, b: int): int { if a < b then a else b }
}
