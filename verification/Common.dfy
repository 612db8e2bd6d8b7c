/** Small definitions that several components share. */
module Common {
  datatype Option<T> = None | Some(value: T)

  newtype Byte = x: int | 0 <= x < 256

  /** A disk sector. */
  type Sector = s: seq<Byte> | |s| == 512 witness seq(512, _ => 0)

  const PGSIZE: nat := 4096

  /** An ordering function of a caller, as lists and hash tables take it. */
  type Order<!T> = (T, T) -> bool

  /** Elements of which neither comes before the other. */
  predicate Equivalent<T>(less: Order<T>, x: T, y: T) {
    !less(x, y) && !less(y, x)
  }

  function Min(a: int, b: int): int { if a < b then a else b }

  function Max(a: int, b: int): int { if a > b then a else b }

  /** No element occurs twice. */
  ghost predicate NoDup<T>(s: seq<T>) {
    forall i, j | 0 <= i < j < |s| :: s[i] != s[j]
  }

  /** A list without the first occurrence of `x`: what `list_remove` leaves. */
  function Removed<T(==)>(s: seq<T>, x: T): seq<T> {
    if s == [] then [] else if s[0] == x then s[1..] else [s[0]] + Removed(s[1..], x)
  }
}
