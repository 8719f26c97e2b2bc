/**
 * The loop of `main` (src/main.rs:83-95): a buffer of `cols` bytes is
 * allocated once and refilled by every read; each non-empty read prints
 * one line made of the hex column, `" | "`, the character column and a
 * line break, both columns rendered from the WHOLE buffer. A read of zero
 * bytes ends the loop.
 *
 * The file itself is not modelled: `results` lists what the successive
 * `File::read` calls return, each at most `cols` bytes long; running out of
 * entries reads as end of file.
 */
module Driver {
  import opened Prelude
  import HexColumn
  import AsciiColumn

  /** `File::read` never returns more bytes than the buffer holds. */
  predicate ReadsFit(results: seq<seq<uint8>>, cols: nat)
  {
    forall k :: 0 <= k < |results| ==> |results[k]| <= cols
  }

  /** The buffer after a read put `data` at its front; the rest is left as it was. */
  function Overwrite(buf: seq<uint8>, data: seq<uint8>): seq<uint8>
    requires |data| <= |buf|
  {
    data + buf[|data|..]
  }

  /** One output line for the buffer `buf` (lines 89-94). */
  function Line(buf: seq<uint8>, split: nat, upper: bool): seq<char>
  {
    HexColumn.HexRun(buf, split, upper) + " | " + AsciiColumn.AsciiText(buf, split) + "\n"
  }

  /**
   * The successive contents of the buffer that get printed, starting from
   * `buf`: one per read, up to the first read of zero bytes.
   */
  function Buffers(buf: seq<uint8>, results: seq<seq<uint8>>): seq<seq<uint8>>
    requires ReadsFit(results, |buf|)
    decreases |results|
  {
    if results == [] || results[0] == [] then []
    else
      var next := Overwrite(buf, results[0]);
      [next] + Buffers(next, results[1..])
  }

  function Lines(bufs: seq<seq<uint8>>, split: nat, upper: bool): seq<char>
  {
    if bufs == [] then [] else Line(bufs[0], split, upper) + Lines(bufs[1..], split, upper)
  }

  /** The buffer as `vec![0; cols]` creates it. */
  function Zeros(cols: nat): (z: seq<uint8>)
    ensures |z| == cols
  {
    seq(cols, _ => 0)
  }

  /** Everything the program prints when the results return `results`. */
  function Dump(cols: uint8, split: nat, upper: bool, results: seq<seq<uint8>>): seq<char>
    requires ReadsFit(results, cols as nat)
  {
    Lines(Buffers(Zeros(cols as nat), results), split, upper)
  }

  /** `f.read(&mut buf)` returning `data`: only the first `|data|` bytes change. */
  method ReadInto(buf: array<uint8>, data: seq<uint8>) returns (s: nat)
    requires |data| <= buf.Length
    modifies buf
    ensures s == |data|
    ensures buf[..] == Overwrite(old(buf[..]), data)
  {
    for i := 0 to |data|
      invariant buf[..i] == data[..i]
      invariant buf[i..] == old(buf[i..])
    {
      buf[i] := data[i];
      assert buf[i + 1..] == old(buf[i + 1..]);
    }
    s := |data|;
  }

  lemma {:induction false} LinesAppend(bufs: seq<seq<uint8>>, buf: seq<uint8>, split: nat, upper: bool)
    ensures Lines(bufs + [buf], split, upper) == Lines(bufs, split, upper) + Line(buf, split, upper)
  {
    if bufs != [] {
      assert (bufs + [buf])[1..] == bufs[1..] + [buf];
      LinesAppend(bufs[1..], buf, split, upper);
    }
  }

  /** One round of the loop body (lines 89-94): both columns of the whole buffer. */
  method PrintLine(buf: array<uint8>, split: nat, upper: bool, out: seq<char>) returns (out': seq<char>)
    ensures out' == out + Line(buf[..], split, upper)
  {
    out' := HexColumn.PrintHex(buf, split, upper, out);
    out' := out' + " | ";
    out' := AsciiColumn.PrintAscii(buf, split, out');
    out' := out' + "\n";
  }

  /** The loop of `main`, printing to `out`. */
  method Run(cols: uint8, split: nat, upper: bool, results: seq<seq<uint8>>) returns (out: seq<char>)
    requires ReadsFit(results, cols as nat)
    ensures out == Dump(cols, split, upper, results)
  {
    var buf := new uint8[cols as nat](_ => 0);
    assert buf[..] == Zeros(cols as nat);
    out := [];
    var k := 0;
    ghost var shown: seq<seq<uint8>> := [];
    assert results[k..] == results;
    while true
      invariant 0 <= k <= |results|
      invariant buf.Length == cols as nat
      invariant ReadsFit(results[k..], buf.Length)
      invariant shown + Buffers(buf[..], results[k..]) == Buffers(Zeros(cols as nat), results)
      invariant out == Lines(shown, split, upper)
      decreases |results| - k
    {
      ghost var before, rest := buf[..], results[k..];
      var data := if k < |results| then results[k] else [];
      BuffersStep(shown, before, rest, data);
      var s := ReadInto(buf, data);
      if s == 0 {
        break;
      }
      assert rest[1..] == results[k + 1..];
      ghost var next := buf[..];
      LinesAppend(shown, next, split, upper);
      out := PrintLine(buf, split, upper, out);
      shown := shown + [next];
      k := k + 1;
    }
  }

  /**
   * One round of the loop on the buffers: the read `data` either ends the
   * loop with every buffer shown, or fills the buffer, which is then shown.
   */
  lemma BuffersStep(shown: seq<seq<uint8>>, buf: seq<uint8>, results: seq<seq<uint8>>, data: seq<uint8>)
    requires ReadsFit(results, |buf|)
    requires data == if results != [] then results[0] else []
    ensures |data| <= |buf|
    ensures data == [] ==> shown + Buffers(buf, results) == shown
    ensures data != [] ==>
      && ReadsFit(results[1..], |buf|)
      && (shown + [Overwrite(buf, data)]) + Buffers(Overwrite(buf, data), results[1..]) == shown + Buffers(buf, results)
  {
    if data != [] {
      var todo := Buffers(buf, results);
      assert todo == [Overwrite(buf, data)] + Buffers(Overwrite(buf, data), results[1..]);
      MoveFirst(shown, todo);
    }
  }

  /** Moving the first remaining buffer to the printed ones leaves their concatenation as it was. */
  lemma MoveFirst<T>(done: seq<T>, todo: seq<T>)
    requires todo != []
    ensures (done + [todo[0]]) + todo[1..] == done + todo
  {
    assert todo == [todo[0]] + todo[1..];
  }

  // ---------------------------------------------------------------------
  // Properties of the loop
  // ---------------------------------------------------------------------

  /**
   * One line per read, up to the first read of zero bytes; line `i` shows
   * the bytes of read `i` at the front of the buffer and, behind them, what
   * the buffer held before that read (zeros, or the previous line's bytes).
   */
  lemma {:induction false} BuffersShape(buf: seq<uint8>, results: seq<seq<uint8>>)
    requires ReadsFit(results, |buf|)
    ensures var bs := Buffers(buf, results);
      && |bs| <= |results|
      && (forall i :: 0 <= i < |bs| ==> results[i] != [])
      && (|bs| < |results| ==> results[|bs|] == [])
      && (forall i :: 0 <= i < |bs| ==> |bs[i]| == |buf|)
      && (forall i :: 0 <= i < |bs| ==> bs[i][..|results[i]|] == results[i])
      && (forall i :: 0 <= i < |bs| ==>
            bs[i][|results[i]|..] == (if i == 0 then buf else bs[i - 1])[|results[i]|..])
    decreases |results|
  {
    if results != [] && results[0] != [] {
      var next := Overwrite(buf, results[0]);
      var tail := results[1..];
      assert ReadsFit(tail, |next|);
      BuffersShape(next, tail);
      var bs := Buffers(buf, results);
      assert bs == [next] + Buffers(next, tail);
      forall i | 1 <= i < |bs|
        ensures results[i] == tail[i - 1] && bs[i] == Buffers(next, tail)[i - 1]
      {
      }
    }
  }

  /**
   * Every line's hex column has the width of a full buffer of `cols`
   * bytes, whatever the read that produced it returned.
   */
  lemma LineHexWidth(cols: uint8, split: nat, upper: bool, results: seq<seq<uint8>>, i: nat)
    requires ReadsFit(results, cols as nat)
    requires i < |Buffers(Zeros(cols as nat), results)|
    ensures var hex := HexColumn.HexRun(Buffers(Zeros(cols as nat), results)[i], split, upper);
      |hex| == 2 * (cols as nat) + HexColumn.SepCount(cols as nat, split) && '.' !in hex
  {
    var bs := Buffers(Zeros(cols as nat), results);
    BuffersShape(Zeros(cols as nat), results);
    HexColumn.HexRunLayout(bs[i], split, upper);
    assert !HexColumn.IsHexDigit('.');
  }

  /**
   * The bytes line `i` shows in its hex column: the bytes of read `i`,
   * followed by the stale bytes the previous line showed beyond them.
   */
  lemma LineShowsStaleBytes(cols: uint8, split: nat, upper: bool, results: seq<seq<uint8>>, i: nat)
    requires ReadsFit(results, cols as nat)
    requires 0 < i < |Buffers(Zeros(cols as nat), results)|
    ensures var bs := Buffers(Zeros(cols as nat), results);
      && i < |results|
      && |results[i]| <= |bs[i - 1]|
      && HexColumn.DecodeHex(HexColumn.Unspaced(HexColumn.HexRun(bs[i], split, upper)))
           == Some(results[i] + bs[i - 1][|results[i]|..])
  {
    var bs := Buffers(Zeros(cols as nat), results);
    BuffersShape(Zeros(cols as nat), results);
    assert bs[i] == bs[i][..|results[i]|] + bs[i][|results[i]|..];
    HexColumn.HexRoundTrip(bs[i], split, upper);
  }

  /** A read of zero bytes ends the loop: nothing after it is ever looked at. */
  lemma {:induction false} BuffersStopAtEmptyRead(buf: seq<uint8>, results: seq<seq<uint8>>, k: nat)
    requires ReadsFit(results, |buf|)
    requires k < |results| && results[k] == []
    ensures Buffers(buf, results) == Buffers(buf, results[..k])
    decreases k
  {
    if k > 0 && results[0] != [] {
      var next := Overwrite(buf, results[0]);
      assert results[1..][k - 1] == [];
      BuffersStopAtEmptyRead(next, results[1..], k - 1);
      assert results[..k][1..] == results[1..][..k - 1];
    }
  }

  /** The program prints nothing after a read of zero bytes. */
  lemma DumpStopsAtEmptyRead(cols: uint8, split: nat, upper: bool, results: seq<seq<uint8>>, k: nat)
    requires ReadsFit(results, cols as nat)
    requires k < |results| && results[k] == []
    ensures Dump(cols, split, upper, results) == Dump(cols, split, upper, results[..k])
  {
    BuffersStopAtEmptyRead(Zeros(cols as nat), results, k);
  }

  /** With `cols` 0 every read returns nothing, so the program prints nothing. */
  lemma NoColumnsNoOutput(split: nat, upper: bool, results: seq<seq<uint8>>)
    requires ReadsFit(results, 0)
    ensures Dump(0, split, upper, results) == []
  {
  }

  /**
   * A 20-byte file read with the default 16 columns: the second line shows
   * the last 4 bytes and then bytes 4-15 again, left in the buffer by the
   * first read; there is no dot fill.
   */
  lemma TwentyByteFile(file: seq<uint8>, split: nat, upper: bool)
    requires |file| == 20
    ensures ReadsFit([file[..16], file[16..]], 16)
    ensures Dump(16, split, upper, [file[..16], file[16..]])
        == Line(file[..16], split, upper) + Line(file[16..] + file[4..16], split, upper)
  {
    var results := [file[..16], file[16..]];
    var first := Overwrite(Zeros(16), results[0]);
    assert first == file[..16];
    var second := Overwrite(first, results[1]);
    assert second == file[16..] + file[4..16];
    assert results[1..][1..] == [];
    assert Buffers(first, results[1..]) == [second];
    var bs := Buffers(Zeros(16), results);
    assert bs == [first, second];
    assert bs[1..] == [second] && bs[1..][1..] == [];
    assert Lines(bs[1..], split, upper) == Line(second, split, upper);
    assert Lines(bs, split, upper) == Line(first, split, upper) + Line(second, split, upper);
  }
}
