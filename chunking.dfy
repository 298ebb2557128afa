/** The text chunker: `chunkText(text, size)` returns the matches of the
    global, dot-all regular expression `.{1,size}` over `text`, or the empty
    list when there is none. Without the `u` flag, `.` matches any single
    UTF-16 code unit, line terminators included. */
module Chunking {
  import opened JsText

  /** The chunk size the upload handler uses (it passes no size). */
  const DefaultSize: nat := 1000

  /** The chunks laid end to end. */
  function Concat(chunks: seq<JsString>): JsString
  {
    if chunks == [] then [] else chunks[0] + Concat(chunks[1..])
  }

  /** `chunkText(text, size)`. A global match starts where the previous one
      ended; the greedy `.{1,size}` takes `size` units, or all that remain when
      fewer do, and fails only at the end of the text. `size` must be at least
      1, since `.{1,0}` is not a valid pattern. */
  function Chunks(text: JsString, size: nat): (r: seq<JsString>)
    requires size >= 1
    ensures Concat(r) == text
    ensures forall i :: 0 <= i < |r| ==> 1 <= |r[i]| <= size
    ensures forall i :: 0 <= i < |r| - 1 ==> |r[i]| == size
    ensures r == [] <==> text == []
    decreases |text|
  {
    if text == [] then []
    else
      var n := Min(size, |text|);
      [text[..n]] + Chunks(text[n..], size)
  }

  /** There are ceil(|text| / size) chunks. */
  lemma ChunkCount(text: JsString, size: nat)
    requires size >= 1
    ensures |Chunks(text, size)| == (|text| + size - 1) / size
  {
    ChunkLength(text, size);
    PiecesIsCeiling(|text|, size);
  }

  /** How many pieces of at most `s` units cover `n` units, counted one piece at a time. */
  function Pieces(n: nat, s: nat): nat
    requires s >= 1
    decreases n
  {
    if n == 0 then 0 else if n <= s then 1 else 1 + Pieces(n - s, s)
  }

  lemma {:induction false} ChunkLength(text: JsString, size: nat)
    requires size >= 1
    ensures |Chunks(text, size)| == Pieces(|text|, size)
    decreases |text|
  {
    if text != [] {
      var n := Min(size, |text|);
      assert |Chunks(text, size)| == 1 + |Chunks(text[n..], size)|;
      ChunkLength(text[n..], size);
    }
  }

  lemma {:induction false} PiecesIsCeiling(n: nat, s: nat)
    requires s >= 1
    ensures Pieces(n, s) == (n + s - 1) / s
    decreases n
  {
    if n == 0 {
      DivUnique(s - 1, s, 0, s - 1);
    } else if n <= s {
      DivUnique(n + s - 1, s, 1, n - 1);
    } else {
      PiecesIsCeiling(n - s, s);
      DivShift(n + s - 1, s);
      assert n - s + s - 1 == n + s - 1 - s;
    }
  }

  lemma DivShift(a: nat, s: nat)
    requires s >= 1 && a >= s
    ensures (a - s) / s + 1 == a / s
  {
    var q, r := (a - s) / s, (a - s) % s;
    assert a - s == q * s + r;
    assert a == (q + 1) * s + r;
    DivUnique(a, s, q + 1, r);
  }

  lemma DivUnique(a: int, s: int, q: int, r: int)
    requires s > 0 && 0 <= r < s && a == q * s + r
    ensures a / s == q
  {
    var q', r' := a / s, a % s;
    assert a == q' * s + r';
    assert (q - q') * s == r' - r;
    if q > q' {
      MulAtLeast(q - q', s);
    } else if q < q' {
      MulAtLeast(q' - q, s);
    }
  }

  lemma {:induction false} MulAtLeast(k: int, s: int)
    requires k >= 1 && s > 0
    ensures k * s >= s
    decreases k
  {
    if k > 1 {
      MulAtLeast(k - 1, s);
      assert k * s == (k - 1) * s + s;
    }
  }

  /** The chunking is the only way to cut `text` into non-empty pieces of at
      most `size` units in which every piece but the last has exactly `size`
      units: the greedy matches are the maximal slices. */
  lemma {:induction false} ChunksUnique(text: JsString, size: nat, pieces: seq<JsString>)
    requires size >= 1
    requires Concat(pieces) == text
    requires forall i :: 0 <= i < |pieces| ==> 1 <= |pieces[i]| <= size
    requires forall i :: 0 <= i < |pieces| - 1 ==> |pieces[i]| == size
    ensures pieces == Chunks(text, size)
    decreases |pieces|
  {
    if pieces == [] {
    } else {
      var rest := pieces[1..];
      assert text == pieces[0] + Concat(rest);
      if rest != [] {
        assert |Concat(rest)| >= 1 by { assert Concat(rest) == rest[0] + Concat(rest[1..]); }
        assert |pieces[0]| == size;
      } else {
        assert Concat(rest) == [];
      }
      var n := Min(size, |text|);
      assert n == |pieces[0]|;
      assert text[..n] == pieces[0];
      assert text[n..] == Concat(rest);
      forall i | 0 <= i < |rest| ensures 1 <= |rest[i]| <= size { assert rest[i] == pieces[i + 1]; }
      forall i | 0 <= i < |rest| - 1 ensures |rest[i]| == size { assert rest[i] == pieces[i + 1]; }
      ChunksUnique(text[n..], size, rest);
    }
  }

  /** With the default size, a text of 2500 code units gives chunks of 1000,
      1000 and 500 units. */
  lemma ChunksOf2500(text: JsString)
    requires |text| == 2500
    ensures var r := Chunks(text, DefaultSize);
            |r| == 3 && |r[0]| == 1000 && |r[1]| == 1000 && |r[2]| == 500
  {
    ChunkCount(text, DefaultSize);
    var r := Chunks(text, DefaultSize);
    assert |Concat(r)| == |r[0]| + |r[1]| + |r[2]| by {
      assert Concat(r) == r[0] + (r[1] + (r[2] + Concat(r[3..])));
    }
  }

  /** Chunk boundaries ignore surrogate pairs: a pair that straddles a
      boundary is split, leaving a lone high surrogate at the end of a chunk. */
  lemma ChunksMaySplitSurrogatePair(prefix: JsString, size: nat)
    requires size >= 1 && |prefix| == size - 1
    ensures var r := Chunks(prefix + [0xD83D, 0xDE00], size);
            |r| == 2 && r[0] == prefix + [0xD83D] && r[1] == [0xDE00]
  {
    var text := prefix + [0xD83D, 0xDE00];
    assert text[..size] == prefix + [0xD83D];
    assert text[size..] == [0xDE00];
  }
}
