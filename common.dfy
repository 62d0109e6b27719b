/** Small definitions shared by the backend and frontend models. */
module Common {

  /** An absent or present value (Go `nil`, JavaScript `null`/`undefined`). */
  datatype Option<T> = None | Some(value: T)

  /** A grid coordinate `[row, col]`, the Go `Point` and the frontend `[number, number]`. */
  datatype Point = Point(row: int, col: int)

  function Abs(x: int): nat
  {
    if x < 0 then -x else x
  }

  function MinInt(a: int, b: int): int { if a <= b then a else b }
  function MaxInt(a: int, b: int): int { if a >= b then a else b }
  function MinReal(a: real, b: real): real { if a <= b then a else b }
  function MaxReal(a: real, b: real): real { if a >= b then a else b }

  /** Manhattan distance between two grid points. */
  function Manhattan(p: Point, q: Point): nat
  {
    Abs(p.row - q.row) + Abs(p.col - q.col)
  }

  /**
   * The `%` operator of Go and JavaScript on integers: it truncates toward
   * zero, so the remainder takes the sign of the dividend (Dafny's `%` is
   * Euclidean and never negative).
   */
  function TruncMod(a: int, n: int): (r: int)
    requires n > 0
    ensures a >= 0 ==> 0 <= r < n && r == a % n
    ensures a < 0 ==> -n < r <= 0
  {
    if a >= 0 then a % n else -((-a) % n)
  }

  /** The `/` operator of Go on integers, truncating toward zero. */
  function TruncDiv(a: int, n: int): (q: int)
    requires n > 0
    ensures a >= 0 ==> q == a / n
  {
    if a >= 0 then a / n else -((-a) / n)
  }

  /** Multiplying by a non-negative factor keeps the order. */
  lemma MulLe(a: int, b: int, c: int)
    requires a <= b && c >= 0
    ensures a * c <= b * c
  {
    assert b * c - a * c == (b - a) * c;
  }

  predicate NoDuplicates<T(==)>(s: seq<T>)
  {
    forall i, j :: 0 <= i < j < |s| ==> s[i] != s[j]
  }

  /**
   * The white space JavaScript's `trim` and `parseInt` skip: ECMAScript's
   * WhiteSpace (tab, vertical tab, form feed, the byte order mark and the
   * space separators U+0020, U+00A0, U+1680, U+2000 to U+200A, U+202F,
   * U+205F, U+3000) and LineTerminator (line feed, carriage return, U+2028,
   * U+2029) characters.
   */
  predicate IsJsSpace(ch: char)
  {
    ch == '\t' || ch == '\U{B}' || ch == '\U{C}' || ch == '\U{FEFF}' ||
    ch == ' ' || ch == '\U{A0}' || ch == '\U{1680}' || '\U{2000}' <= ch <= '\U{200A}' ||
    ch == '\U{202F}' || ch == '\U{205F}' || ch == '\U{3000}' ||
    ch == '\n' || ch == '\r' || ch == '\U{2028}' || ch == '\U{2029}'
  }

  /** The text without its leading white space: a suffix whose dropped part is all white space. */
  function TrimStart(s: string): (t: string)
    ensures |t| <= |s| && t == s[|s| - |t|..]
    ensures forall i :: 0 <= i < |s| - |t| ==> IsJsSpace(s[i])
    ensures t != [] ==> !IsJsSpace(t[0])
    decreases |s|
  {
    if s != [] && IsJsSpace(s[0]) then TrimStart(s[1..]) else s
  }

  /** The text without its trailing white space: a prefix whose dropped part is all white space. */
  function TrimEnd(s: string): (t: string)
    ensures |t| <= |s| && t == s[..|t|]
    ensures forall i :: |t| <= i < |s| ==> IsJsSpace(s[i])
    ensures t != [] ==> !IsJsSpace(t[|t| - 1])
    decreases |s|
  {
    if s != [] && IsJsSpace(s[|s| - 1]) then TrimEnd(s[..|s| - 1]) else s
  }

  /** JavaScript's `String.prototype.trim`. */
  function Trim(s: string): string
  {
    TrimEnd(TrimStart(s))
  }

  /** The largest integer not above `x` (JavaScript `Math.floor`). */
  function Floor(x: real): int
  {
    x.Floor
  }

  /** The smallest integer not below `x` (JavaScript `Math.ceil`). */
  function Ceil(x: real): (r: int)
    ensures x <= r as real < x + 1.0
  {
    if x.Floor as real == x then x.Floor else x.Floor + 1
  }
}
