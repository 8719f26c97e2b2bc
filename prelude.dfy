/** Octets and the small text helpers both columns of a dump line share. */
module Prelude {

  /** A Rust `u8`. */
  newtype uint8 = x: int | 0 <= x < 0x100

  /** The byte value of `b'\n'`. */
  const NEWLINE: uint8 := 0x0A

  datatype Option<T> = None | Some(value: T)

  /** `"..".repeat(k)` */
  function Dots(k: nat): (s: seq<char>)
    ensures |s| == 2 * k
    ensures forall c :: c in s ==> c == '.'
  {
    if k == 0 then [] else ".." + Dots(k - 1)
  }

  /** How many times `x` occurs in `s`. */
  function Occurrences<T(==)>(s: seq<T>, x: T): (n: nat)
    ensures n <= |s|
    ensures n == 0 <==> x !in s
  {
    if s == [] then 0
    else Occurrences(s[..|s| - 1], x) + (if s[|s| - 1] == x then 1 else 0)
  }

  lemma {:induction false} OccurrencesAppend<T>(a: seq<T>, b: seq<T>, x: T)
    ensures Occurrences(a + b, x) == Occurrences(a, x) + Occurrences(b, x)
    decreases |b|
  {
    if b == [] {
      assert a + b == a;
    } else {
      var b' := b[..|b| - 1];
      assert (a + b)[..|a + b| - 1] == a + b';
      OccurrencesAppend(a, b', x);
    }
  }
}
