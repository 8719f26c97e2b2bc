/**
 * The hexadecimal column of a dump line (`print_hex`, src/main.rs:4-26).
 * Output that the source writes with `print!` is modelled as text appended
 * to an output sequence.
 */
module HexColumn {
  import opened Prelude

  /** The hex digit for a nibble `d`, in the case the `-u` flag selects. */
  function HexDigit(d: nat, upper: bool): (c: char)
    requires d < 16
  {
    if d < 10 then ('0' as int + d) as char
    else ((if upper then 'A' else 'a') as int + d - 10) as char
  }

  /** Two zero-padded hex digits, as the `02x` and `02X` format specs print them. */
  function ByteHex(b: uint8, upper: bool): (s: seq<char>)
  {
    [HexDigit(b as int / 16, upper), HexDigit(b as int % 16, upper)]
  }

  /** What is printed before byte `i`: one space when `i` starts a new group. */
  function Sep(i: nat, split: nat): (s: seq<char>)
  {
    if i != 0 && split != 0 && i % split == 0 then " " else ""
  }

  /** The text `print_hex` emits for the bytes `bs`, byte `k` sitting at index `k`. */
  function HexRun(bs: seq<uint8>, split: nat, upper: bool): (s: seq<char>)
  {
    if bs == [] then []
    else
      var n := |bs| - 1;
      HexRun(bs[..n], split, upper) + Sep(n, split) + ByteHex(bs[n], upper)
  }

  /**
   * The dot fill of lines 19-25 for `count` bytes against a nominal
   * `chunkSize`: nothing when the chunk is not short, otherwise `".."`
   * repeated `chunkSize - count % chunkSize` times.
   */
  function HexFill(count: nat, chunkSize: nat): (s: seq<char>)
    ensures s != [] <==> count < chunkSize
    ensures count < chunkSize ==> |s| == 2 * (chunkSize - count)
    ensures forall c :: c in s ==> c == '.'
  {
    if count >= chunkSize then []
    else
      DivUnique(count, chunkSize, 0, count);
      Dots(chunkSize - count % chunkSize)
  }

  /**
   * `print_hex(chunk, split, upper_case)`. `chunk_size` is the chunk's own
   * length, so the fill after the loop is always empty.
   */
  method PrintHex(chunk: array<uint8>, split: nat, upper: bool, out: seq<char>) returns (out': seq<char>)
    ensures out' == out + HexRun(chunk[..], split, upper)
  {
    var chunkSize := chunk.Length;
    out' := out;
    for i := 0 to chunk.Length
      invariant out' == out + HexRun(chunk[..i], split, upper)
    {
      ghost var before := out';
      if i != 0 && split != 0 && i % split == 0 {
        out' := out' + " ";
      }
      out' := out' + ByteHex(chunk[i], upper);
      assert out' == before + Sep(i, split) + ByteHex(chunk[i], upper);
      assert chunk[..i + 1][..i] == chunk[..i];
      assert HexRun(chunk[..i + 1], split, upper)
          == HexRun(chunk[..i], split, upper) + Sep(i, split) + ByteHex(chunk[i], upper);
    }
    assert chunk[..chunk.Length] == chunk[..];
    assert HexFill(chunk.Length, chunkSize) == [];
    out' := out' + HexFill(chunk.Length, chunkSize);
  }

  /** The dot fill is dead in `print_hex`: its count and its nominal size coincide. */
  lemma HexFillDead(chunk: seq<uint8>)
    ensures HexFill(|chunk|, |chunk|) == []
  {
  }

  // ---------------------------------------------------------------------
  // Reading the column back
  // ---------------------------------------------------------------------

  predicate IsHexDigit(c: char)
  {
    '0' <= c <= '9' || 'a' <= c <= 'f' || 'A' <= c <= 'F'
  }

  /** The value of a hex digit of either case. */
  function HexValue(c: char): (r: Option<nat>)
    ensures r.Some? <==> IsHexDigit(c)
    ensures r.Some? ==> r.value < 16
  {
    if '0' <= c <= '9' then Some(c as int - '0' as int)
    else if 'a' <= c <= 'f' then Some(c as int - 'a' as int + 10)
    else if 'A' <= c <= 'F' then Some(c as int - 'A' as int + 10)
    else None
  }

  /** The text with every space deleted. */
  function Unspaced(s: seq<char>): (r: seq<char>)
  {
    if s == [] then []
    else Unspaced(s[..|s| - 1]) + (if s[|s| - 1] == ' ' then [] else [s[|s| - 1]])
  }

  /** Decodes a run of hex digits two at a time, high nibble first. */
  function DecodeHex(s: seq<char>): (r: Option<seq<uint8>>)
    ensures r.Some? ==> 2 * |r.value| == |s|
  {
    if s == [] then Some([])
    else if |s| == 1 then None
    else match (HexValue(s[0]), HexValue(s[1]), DecodeHex(s[2..]))
      case (Some(hi), Some(lo), Some(rest)) => Some([(16 * hi + lo) as uint8] + rest)
      case _ => None
  }

  /** The digits of `bs` with no separators. */
  function Digits(bs: seq<uint8>, upper: bool): (s: seq<char>)
  {
    if bs == [] then [] else Digits(bs[..|bs| - 1], upper) + ByteHex(bs[|bs| - 1], upper)
  }

  // ---------------------------------------------------------------------
  // Properties of the column
  // ---------------------------------------------------------------------

  lemma {:induction false} UnspacedAppend(a: seq<char>, b: seq<char>)
    ensures Unspaced(a + b) == Unspaced(a) + Unspaced(b)
    decreases |b|
  {
    if b == [] {
      assert a + b == a;
    } else {
      var b' := b[..|b| - 1];
      assert (a + b)[..|a + b| - 1] == a + b';
      UnspacedAppend(a, b');
    }
  }

  lemma {:induction false} UnspacedKeeps(s: seq<char>)
    requires ' ' !in s
    ensures Unspaced(s) == s
    decreases |s|
  {
    if s != [] {
      UnspacedKeeps(s[..|s| - 1]);
    }
  }

  /** Deleting the separators leaves exactly the byte digits, in order. */
  lemma {:induction false} UnspacedHexRun(bs: seq<uint8>, split: nat, upper: bool)
    ensures Unspaced(HexRun(bs, split, upper)) == Digits(bs, upper)
  {
    if bs != [] {
      var n := |bs| - 1;
      var prev, sep, h := HexRun(bs[..n], split, upper), Sep(n, split), ByteHex(bs[n], upper);
      assert HexRun(bs, split, upper) == (prev + sep) + h;
      UnspacedHexRun(bs[..n], split, upper);
      UnspacedAppend(prev, sep);
      UnspacedSep(n, split);
      assert Unspaced(prev + sep) == Digits(bs[..n], upper);
      UnspacedAppend(prev + sep, h);
      ByteHexDigits(bs[n], upper);
      UnspacedKeeps(h);
      assert Digits(bs, upper) == Digits(bs[..n], upper) + h;
    }
  }

  lemma UnspacedSep(n: nat, split: nat)
    ensures Unspaced(Sep(n, split)) == []
  {
    var sep := Sep(n, split);
    if sep != [] {
      assert sep[..0] == [];
    }
  }

  lemma ByteHexDigits(b: uint8, upper: bool)
    ensures |ByteHex(b, upper)| == 2
    ensures forall c :: c in ByteHex(b, upper) ==> IsHexDigit(c)
    ensures ' ' !in ByteHex(b, upper) && '.' !in ByteHex(b, upper)
  {
  }

  lemma {:induction false} DigitsAppend(a: seq<uint8>, b: seq<uint8>, upper: bool)
    ensures Digits(a + b, upper) == Digits(a, upper) + Digits(b, upper)
    decreases |b|
  {
    if b == [] {
      assert a + b == a;
    } else {
      var b' := b[..|b| - 1];
      assert (a + b)[..|a + b| - 1] == a + b';
      DigitsAppend(a, b', upper);
    }
  }

  lemma ByteHexRoundTrip(b: uint8, upper: bool)
    ensures HexValue(HexDigit(b as int / 16, upper)) == Some(b as int / 16)
    ensures HexValue(HexDigit(b as int % 16, upper)) == Some(b as int % 16)
  {
  }

  /** Decoding a byte's two digits in front of `rest` puts the byte in front of `rest`'s decoding. */
  lemma DecodeStep(b: uint8, rest: seq<char>, upper: bool)
    ensures DecodeHex(ByteHex(b, upper) + rest)
        == if DecodeHex(rest).Some? then Some([b] + DecodeHex(rest).value) else None
  {
    var s := ByteHex(b, upper) + rest;
    var hi, lo := b as int / 16, b as int % 16;
    ByteHexRoundTrip(b, upper);
    assert HexValue(s[0]) == Some(hi) && HexValue(s[1]) == Some(lo);
    assert s[2..] == rest;
    assert (16 * hi + lo) as uint8 == b;
  }

  lemma {:induction false} DecodeDigits(bs: seq<uint8>, upper: bool)
    ensures DecodeHex(Digits(bs, upper)) == Some(bs)
    decreases |bs|
  {
    if bs != [] {
      DigitsAppend([bs[0]], bs[1..], upper);
      assert [bs[0]] + bs[1..] == bs;
      assert Digits([bs[0]], upper) == ByteHex(bs[0], upper) by {
        assert [bs[0]][..0] == [];
      }
      DecodeDigits(bs[1..], upper);
      DecodeStep(bs[0], Digits(bs[1..], upper), upper);
    }
  }

  /**
   * Round trip: deleting the spaces from the column and decoding the digits
   * pairwise gives back the chunk, in either case and for any grouping.
   */
  lemma HexRoundTrip(bs: seq<uint8>, split: nat, upper: bool)
    ensures DecodeHex(Unspaced(HexRun(bs, split, upper))) == Some(bs)
  {
    UnspacedHexRun(bs, split, upper);
    DecodeDigits(bs, upper);
  }

  // ---------------------------------------------------------------------
  // Grouping and case
  // ---------------------------------------------------------------------

  /**
   * The number of separators for `n` bytes: the indices `i` in `[1, n)`
   * with `i % split == 0`, none when grouping is off.
   */
  function SepCount(n: nat, split: nat): nat
  {
    if n == 0 || split == 0 then 0 else (n - 1) / split
  }

  /** Moving past index `n` adds one group boundary exactly when `n % split == 0`. */
  lemma NextQuotient(n: nat, split: nat)
    requires n >= 1 && split > 0
    ensures n / split == (n - 1) / split + (if n % split == 0 then 1 else 0)
  {
    var q, r := (n - 1) / split, (n - 1) % split;
    assert n - 1 == q * split + r && 0 <= r < split;
    if r == split - 1 {
      assert n == (q + 1) * split;
      DivUnique(n, split, q + 1, 0);
    } else {
      assert n == q * split + (r + 1);
      DivUnique(n, split, q, r + 1);
    }
  }

  lemma DivUnique(n: nat, d: nat, q: int, r: int)
    requires d > 0 && n == q * d + r && 0 <= r < d
    ensures n / d == q && n % d == r
  {
    var q', r' := n / d, n % d;
    assert (q' - q) * d == r - r';
    SmallMultiple(q' - q, d);
  }

  lemma SmallMultiple(k: int, d: int)
    requires d > 0 && -d < k * d < d
    ensures k == 0
  {
    assert k >= 1 ==> k * d >= 1 * d;
    assert k <= -1 ==> k * d <= -1 * d;
  }

  /**
   * Layout of the column: two hex digits per byte, `SepCount` single
   * spaces between them, and no other character.
   */
  lemma HexRunLayout(bs: seq<uint8>, split: nat, upper: bool)
    ensures |HexRun(bs, split, upper)| == 2 * |bs| + SepCount(|bs|, split)
    ensures Occurrences(HexRun(bs, split, upper), ' ') == SepCount(|bs|, split)
    ensures forall c :: c in HexRun(bs, split, upper) ==> IsHexDigit(c) || c == ' '
  {
    HexRunLength(bs, split, upper);
    HexRunSpaces(bs, split, upper);
    HexRunChars(bs, split, upper);
  }

  /** Each step adds the separator, if any, and two digits. */
  lemma SepCountStep(n: nat, split: nat)
    ensures SepCount(n + 1, split) == SepCount(n, split) + |Sep(n, split)|
  {
    if n != 0 && split != 0 {
      NextQuotient(n, split);
    }
  }

  lemma {:induction false} HexRunLength(bs: seq<uint8>, split: nat, upper: bool)
    ensures |HexRun(bs, split, upper)| == 2 * |bs| + SepCount(|bs|, split)
  {
    if bs != [] {
      var n := |bs| - 1;
      HexRunLength(bs[..n], split, upper);
      SepCountStep(n, split);
    }
  }

  lemma {:induction false} HexRunSpaces(bs: seq<uint8>, split: nat, upper: bool)
    ensures Occurrences(HexRun(bs, split, upper), ' ') == SepCount(|bs|, split)
  {
    if bs != [] {
      var n := |bs| - 1;
      HexRunSpaces(bs[..n], split, upper);
      SepCountStep(n, split);
      var prev, sep, h := HexRun(bs[..n], split, upper), Sep(n, split), ByteHex(bs[n], upper);
      assert HexRun(bs, split, upper) == (prev + sep) + h;
      OccurrencesAppend(prev, sep, ' ');
      OccurrencesAppend(prev + sep, h, ' ');
      ByteHexDigits(bs[n], upper);
      assert Occurrences(sep, ' ') == |sep| by {
        if sep != [] {
          assert sep[..0] == [];
        }
      }
    }
  }

  lemma {:induction false} HexRunChars(bs: seq<uint8>, split: nat, upper: bool)
    ensures forall c :: c in HexRun(bs, split, upper) ==> IsHexDigit(c) || c == ' '
  {
    if bs != [] {
      var n := |bs| - 1;
      HexRunChars(bs[..n], split, upper);
      ByteHexDigits(bs[n], upper);
    }
  }

  /** Without grouping the column is the bare digits. */
  lemma HexRunUngrouped(bs: seq<uint8>, upper: bool)
    ensures HexRun(bs, 0, upper) == Digits(bs, upper)
    ensures ' ' !in HexRun(bs, 0, upper)
  {
    HexRunLayout(bs, 0, upper);
    UnspacedHexRun(bs, 0, upper);
    assert Occurrences(HexRun(bs, 0, upper), ' ') == 0;
    UnspacedKeeps(HexRun(bs, 0, upper));
  }

  /** The separator count is one less than the number of (possibly partial) groups. */
  lemma SepCountGroups(n: nat, split: nat)
    requires n > 0 && split > 0
    ensures SepCount(n, split) == (n + split - 1) / split - 1
  {
    var q, r := (n - 1) / split, (n - 1) % split;
    assert n + split - 1 == (q + 1) * split + r;
    DivUnique(n + split - 1, split, q + 1, r);
  }

  /** `c` with the hex letters `a`-`f` mapped to `A`-`F`. */
  function UpperHexChar(c: char): char
  {
    if 'a' <= c <= 'f' then (c as int - 'a' as int + 'A' as int) as char else c
  }

  function ToUpperHex(s: seq<char>): (r: seq<char>)
    ensures |r| == |s|
  {
    seq(|s|, i requires 0 <= i < |s| => UpperHexChar(s[i]))
  }

  /** The `-u` output is the lower-case output with `a`-`f` upper-cased. */
  lemma {:induction false} UpperCaseIsMapped(bs: seq<uint8>, split: nat)
    ensures HexRun(bs, split, true) == ToUpperHex(HexRun(bs, split, false))
  {
    if bs != [] {
      var n := |bs| - 1;
      UpperCaseIsMapped(bs[..n], split);
      var lo := HexRun(bs[..n], split, false) + Sep(n, split);
      assert ToUpperHex(lo + ByteHex(bs[n], false)) == ToUpperHex(lo) + ToUpperHex(ByteHex(bs[n], false));
      assert ToUpperHex(ByteHex(bs[n], false)) == ByteHex(bs[n], true);
      assert ToUpperHex(lo) == ToUpperHex(HexRun(bs[..n], split, false)) + Sep(n, split);
    }
  }
}
