/** Machine integer widths, failure-carrying wrappers and small sequence
    predicates shared by every module of the model. */
module Base {

  /** Go `uint32`: process identifiers and Win32 DWORD values. */
  type u32 = x: int | 0 <= x < 0x1_0000_0000

  /** Go `uint64` / `uintptr` on a 64-bit Windows build. */
  type u64 = x: int | 0 <= x < 0x1_0000_0000_0000_0000

  /** Go `int32`: screen coordinates in POINT and RECT. */
  type i32 = x: int | -0x8000_0000 <= x < 0x8000_0000

  type Pid = u32

  /** A window handle; 0 means "no window". */
  type Hwnd = u64

  datatype Option<+T> = None | Some(value: T)

  /** A Go `(value, error)` pair where the value is meaningless on error. */
  datatype Result<+T, +E> = Ok(value: T) | Err(error: E)

  /** No element occurs twice. */
  predicate Distinct<T(==)>(s: seq<T>)
  {
    forall i, j :: 0 <= i < j < |s| ==> s[i] != s[j]
  }

  function Elems<T>(s: seq<T>): set<T>
  {
    set x | x in s
  }
}
