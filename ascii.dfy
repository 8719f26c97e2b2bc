/**
 * The character column of a dump line (`print_ascii`, src/main.rs:28-52).
 * Every byte is printed as the character with the same code point; a
 * newline byte instead breaks the line and prints a dot placeholder and
 * a column delimiter.
 */
module AsciiColumn {
  import opened Prelude
  import HexColumn

  /**
   * The placeholder printed after a newline byte in a chunk of `size`
   * bytes: `size / split` blocks of `2 * split` dots separated by single
   * spaces, or `2 * size` dots when grouping is off.
   */
  function Placeholder(size: nat, split: nat): seq<char>
  {
    if split != 0 then Blocks(size / split, split) else Dots(size)
  }

  /** The first `m` rounds of the `for i in 0..n` loop of lines 37-42. */
  function Blocks(m: nat, split: nat): seq<char>
  {
    if m == 0 then []
    else Blocks(m - 1, split) + (if m - 1 != 0 then " " else "") + Dots(split)
  }

  /** What one byte prints, `fill` being the chunk's placeholder. */
  function Glyph(b: uint8, fill: seq<char>): seq<char>
  {
    if b == NEWLINE then "\n" + fill + " | " else [b as int as char]
  }

  /** The text the loop of `print_ascii` emits for the bytes `bs`. */
  function AsciiRun(bs: seq<uint8>, fill: seq<char>): seq<char>
  {
    if bs == [] then []
    else AsciiRun(bs[..|bs| - 1], fill) + Glyph(bs[|bs| - 1], fill)
  }

  /** The whole column for `chunk`: its placeholder depends on the chunk's length. */
  function AsciiText(chunk: seq<uint8>, split: nat): seq<char>
  {
    AsciiRun(chunk, Placeholder(|chunk|, split))
  }

  /** `print_ascii(chunk, split)` */
  method PrintAscii(chunk: array<uint8>, split: nat, out: seq<char>) returns (out': seq<char>)
    ensures out' == out + AsciiText(chunk[..], split)
  {
    var size := chunk.Length;
    ghost var fill := Placeholder(size, split);
    out' := out;
    for j := 0 to chunk.Length
      invariant out' == out + AsciiRun(chunk[..j], fill)
    {
      ghost var line := out';
      out' := PrintGlyph(chunk[j], size, split, out');
      assert chunk[..j + 1][..j] == chunk[..j];
      assert AsciiRun(chunk[..j + 1], fill) == AsciiRun(chunk[..j], fill) + Glyph(chunk[j], fill);
    }
    assert chunk[..chunk.Length] == chunk[..];
  }

  /** One round of the loop of lines 30-51: the byte `c` of a chunk of `size` bytes. */
  method PrintGlyph(c: uint8, size: nat, split: nat, out: seq<char>) returns (out': seq<char>)
    ensures out' == out + Glyph(c, Placeholder(size, split))
  {
    if c == NEWLINE {
      out' := out + "\n";
      out' := PrintPlaceholder(size, split, out');
      out' := out' + " | ";
    } else {
      out' := out + [c as int as char];
    }
  }

  /** Lines 35-45 of `print_ascii`: the placeholder after a newline byte. */
  method PrintPlaceholder(size: nat, split: nat, out: seq<char>) returns (out': seq<char>)
    ensures out' == out + Placeholder(size, split)
  {
    out' := out;
    if split != 0 {
      var n := size / split;
      for i := 0 to n
        invariant out' == out + Blocks(i, split)
      {
        if i != 0 {
          out' := out' + " ";
        }
        out' := out' + Dots(split);
      }
    } else {
      out' := out' + Dots(size);
    }
  }

  // ---------------------------------------------------------------------
  // Properties of the column
  // ---------------------------------------------------------------------

  /** `m` blocks take `2 * split` dots each plus `m - 1` separating spaces. */
  lemma {:induction false} BlocksLength(m: nat, split: nat)
    ensures |Blocks(m, split)| == m * (2 * split) + (if m > 0 then m - 1 else 0)
  {
    if m > 0 {
      BlocksLength(m - 1, split);
      MulStep(m, 2 * split);
    }
  }

  /** Blocks hold dots and, between them, exactly `m - 1` spaces. */
  lemma BlocksChars(m: nat, split: nat)
    ensures Occurrences(Blocks(m, split), ' ') == (if m > 0 then m - 1 else 0)
    ensures forall c :: c in Blocks(m, split) ==> c == '.' || c == ' '
  {
    BlocksSpaces(m, split);
    BlocksDotsAndSpaces(m, split);
  }

  lemma {:induction false} BlocksSpaces(m: nat, split: nat)
    ensures Occurrences(Blocks(m, split), ' ') == (if m > 0 then m - 1 else 0)
  {
    if m > 0 {
      var prev, sep, d := Blocks(m - 1, split), (if m - 1 != 0 then " " else ""), Dots(split);
      BlocksSpaces(m - 1, split);
      assert Blocks(m, split) == (prev + sep) + d;
      OccurrencesAppend(prev, sep, ' ');
      OccurrencesAppend(prev + sep, d, ' ');
      assert ' ' !in d;
      assert Occurrences(sep, ' ') == |sep| by {
        if sep != [] {
          assert sep[..0] == [];
        }
      }
    }
  }

  lemma {:induction false} BlocksDotsAndSpaces(m: nat, split: nat)
    ensures forall c :: c in Blocks(m, split) ==> c == '.' || c == ' '
  {
    if m > 0 {
      BlocksDotsAndSpaces(m - 1, split);
    }
  }

  lemma MulStep(m: int, k: int)
    ensures m * k == (m - 1) * k + k
  {
  }

  /**
   * Size of the placeholder: `2 * size` dots without grouping; otherwise
   * `n = size / split` blocks of `2 * split` dots and `n - 1` spaces, which
   * is nothing at all when `split > size`. It holds no line break.
   */
  lemma PlaceholderLayout(size: nat, split: nat)
    ensures split == 0 ==> Placeholder(size, split) == Dots(size)
    ensures split != 0 ==>
      var n := size / split;
      |Placeholder(size, split)| == n * (2 * split) + (if n > 0 then n - 1 else 0)
    ensures split > size ==> Placeholder(size, split) == []
    ensures forall c :: c in Placeholder(size, split) ==> c == '.' || c == ' '
  {
    if split != 0 {
      BlocksLength(size / split, split);
      BlocksChars(size / split, split);
      if split > size {
        HexColumn.DivUnique(size, split, 0, size);
      }
    }
  }

  /**
   * The placeholder is exactly as wide as the hex column of the same chunk
   * when there is no grouping or the last group is full, and narrower
   * otherwise.
   */
  lemma PlaceholderWidth(chunk: seq<uint8>, split: nat, upper: bool)
    ensures |Placeholder(|chunk|, split)| <= |HexColumn.HexRun(chunk, split, upper)|
    ensures |Placeholder(|chunk|, split)| == |HexColumn.HexRun(chunk, split, upper)|
        <==> split == 0 || |chunk| % split == 0
  {
    var size := |chunk|;
    HexColumn.HexRunLayout(chunk, split, upper);
    PlaceholderLayout(size, split);
    if split != 0 && size > 0 {
      GroupedWidths(size, split);
    }
  }

  /** The arithmetic behind `PlaceholderWidth` for a grouped, non-empty chunk. */
  lemma GroupedWidths(size: nat, split: nat)
    requires split > 0 && size > 0
    ensures var n := size / split;
      var placeholder := n * (2 * split) + (if n > 0 then n - 1 else 0);
      var hex := 2 * size + (size - 1) / split;
      placeholder <= hex && (placeholder == hex <==> size % split == 0)
  {
    var n, r := size / split, size % split;
    assert size == n * split + r;
    assert n * (2 * split) == 2 * (n * split);
    if r == 0 {
      assert n > 0;
      assert size - 1 == (n - 1) * split + (split - 1);
      HexColumn.DivUnique(size - 1, split, n - 1, split - 1);
    } else {
      assert size - 1 == n * split + (r - 1);
      HexColumn.DivUnique(size - 1, split, n, r - 1);
    }
  }

  /** A chunk without newline bytes prints one character per byte, its code point the byte value. */
  lemma {:induction false} PlainBytes(bs: seq<uint8>, split: nat)
    requires NEWLINE !in bs
    ensures |AsciiText(bs, split)| == |bs|
    ensures forall i :: 0 <= i < |bs| ==> AsciiText(bs, split)[i] as int == bs[i] as int
  {
    PlainRun(bs, Placeholder(|bs|, split));
  }

  lemma {:induction false} PlainRun(bs: seq<uint8>, fill: seq<char>)
    requires NEWLINE !in bs
    ensures |AsciiRun(bs, fill)| == |bs|
    ensures forall i :: 0 <= i < |bs| ==> AsciiRun(bs, fill)[i] as int == bs[i] as int
  {
    if bs != [] {
      PlainRun(bs[..|bs| - 1], fill);
    }
  }

  /** Every newline byte, and nothing else, puts a line break into the column. */
  lemma NewlineCount(chunk: seq<uint8>, split: nat)
    ensures Occurrences(AsciiText(chunk, split), '\n') == Occurrences(chunk, NEWLINE)
  {
    PlaceholderLayout(|chunk|, split);
    NewlinesIn(chunk, Placeholder(|chunk|, split));
  }

  lemma {:induction false} NewlinesIn(bs: seq<uint8>, fill: seq<char>)
    requires '\n' !in fill
    ensures Occurrences(AsciiRun(bs, fill), '\n') == Occurrences(bs, NEWLINE)
  {
    if bs != [] {
      var init, b := bs[..|bs| - 1], bs[|bs| - 1];
      var r, g := AsciiRun(init, fill), Glyph(b, fill);
      NewlinesIn(init, fill);
      GlyphNewlines(b, fill);
      assert AsciiRun(bs, fill) == r + g;
      OccurrencesAppend(r, g, '\n');
    }
  }

  lemma GlyphNewlines(b: uint8, fill: seq<char>)
    requires '\n' !in fill
    ensures Occurrences(Glyph(b, fill), '\n') == if b == NEWLINE then 1 else 0
  {
    if b == NEWLINE {
      OccurrencesAppend("\n", fill, '\n');
      OccurrencesAppend("\n" + fill, " | ", '\n');
      assert "\n"[..0] == [];
      assert Glyph(b, fill) == "\n" + fill + " | ";
    } else {
      assert (b as int as char) != '\n';
      assert Glyph(b, fill) == [b as int as char];
    }
  }

  /**
   * Length of the column: one character per ordinary byte, and per
   * newline byte the break, the placeholder and the three-character
   * delimiter.
   */
  lemma {:induction false} AsciiRunLength(bs: seq<uint8>, fill: seq<char>)
    ensures |AsciiRun(bs, fill)| == |bs| + Occurrences(bs, NEWLINE) * (3 + |fill|)
  {
    if bs != [] {
      var init, b := bs[..|bs| - 1], bs[|bs| - 1];
      var k := Occurrences(init, NEWLINE);
      AsciiRunLength(init, fill);
      assert |AsciiRun(bs, fill)| == |AsciiRun(init, fill)| + |Glyph(b, fill)|;
      assert bs == init + [b];
      if b == NEWLINE {
        assert Occurrences(bs, NEWLINE) == k + 1;
        MulStep(k + 1, 3 + |fill|);
      } else {
        assert Occurrences(bs, NEWLINE) == k;
      }
    }
  }
}
