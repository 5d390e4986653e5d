/** Small vocabulary shared by every module of the model. */
module Common {

  /** A possibly absent value (a C pointer that may be NULL). */
  datatype Option<T> = None | Some(value: T)

  /** An explicit success or error value, used where the C code calls `fatal`. */
  datatype Result<T, E> = Ok(value: T) | Err(error: E)

  /** One byte of archive data. */
  type Byte = b: int | 0 <= b < 256

  /** Largest value of a C `int` on the platforms the program targets. */
  const IntMax: int := 0x7fff_ffff

  function Min(a: int, b: int): (m: int)
    ensures m <= a && m <= b
    ensures m == a || m == b
  {
    if a <= b then a else b
  }

  /** A C string: its characters stop at the first NUL, so none may be NUL. */
  predicate IsCString(s: string)
  {
    forall i :: 0 <= i < |s| ==> s[i] != '\0'
  }

  /** `s[n]` read the C way: the position just past the end holds the NUL terminator. */
  function CharAt(s: string, n: nat): char
    requires n <= |s|
  {
    if n < |s| then s[n] else '\0'
  }

  /** `snprintf(buf, cap, ...)` keeps at most `cap - 1` characters before the NUL. */
  function Truncate(s: string, cap: nat): (t: string)
    requires cap > 0
    ensures |t| < cap
    ensures |t| <= |s| && t == s[..|t|]
    ensures |s| < cap ==> t == s
    ensures |s| >= cap ==> |t| == cap - 1
  {
    if |s| < cap then s else s[..cap - 1]
  }
}
