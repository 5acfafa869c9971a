// `split_chunks`: cut a text into windows of `size` characters, each window
// starting `overlap` characters before the previous one ended.
module Chunker {
  import opened Numbers
  import opened Strings

  /** Window length and overlap used when a caller gives no arguments. */
  const DefaultSize: nat := 1200
  const DefaultOverlap: int := 200

  /** The loop of `split_chunks` ends exactly when the cursor moves forward on
      every step or the first window already reaches the end of the text. */
  predicate Terminates(textLen: nat, size: nat, overlap: int)
  {
    overlap < size || textLen <= size
  }

  /** The windows produced once the cursor stands at `start`. A window that
      reaches the end of the text is the last one; otherwise the cursor moves
      to `end - overlap`. */
  function ChunksFrom(text: string, size: nat, overlap: int, start: nat): seq<string>
    requires overlap < size || start + size >= |text|
    decreases |text| - start
  {
    if start >= |text| then []
    else
      var end := Min(start + size, |text|);
      if end == |text| then [text[start..end]]
      else [text[start..end]] + ChunksFrom(text, size, overlap, end - overlap)
  }

  /** The result of `split_chunks(text, size, overlap)`. */
  function Chunks(text: string, size: nat, overlap: int): seq<string>
    requires Terminates(|text|, size, overlap)
  {
    ChunksFrom(text, size, overlap, 0)
  }

  /** The loop of `split_chunks`, as written: a cursor that appends one window
      per iteration and stops after the window that reaches the end. */
  method SplitChunks(text: string, size: nat, overlap: int) returns (chunks: seq<string>)
    requires Terminates(|text|, size, overlap)
    ensures chunks == Chunks(text, size, overlap)
  {
    chunks := [];
    var start: nat := 0;
    while start < |text|
      invariant overlap < size || start == 0
      invariant chunks + ChunksFrom(text, size, overlap, start) == Chunks(text, size, overlap)
      decreases |text| - start
    {
      var end := Min(start + size, |text|);
      chunks := chunks + [text[start..end]];
      if end == |text| {
        break;
      }
      start := end - overlap;
    }
  }

  // ---------------------------------------------------------------------
  // The cursor on its own, for any overlap
  // ---------------------------------------------------------------------

  /** A window starting at `start` is the last one when it reaches the end. */
  predicate IsLastWindow(textLen: nat, size: nat, start: int)
  {
    start >= textLen || start + size >= textLen
  }

  /** The cursor of `split_chunks` after `k` iterations, with no assumption on
      `overlap`; once a window is the last one the cursor stays put. */
  function CursorAfter(textLen: nat, size: nat, overlap: int, k: nat): int
  {
    if k == 0 then 0
    else
      var p := CursorAfter(textLen, size, overlap, k - 1);
      if IsLastWindow(textLen, size, p) then p else Min(p + size, textLen) - overlap
  }

  /** With `overlap < size` every iteration that does not stop moves the
      cursor strictly forward. */
  lemma CursorAdvances(textLen: nat, size: nat, overlap: int, k: nat)
    requires overlap < size
    requires !IsLastWindow(textLen, size, CursorAfter(textLen, size, overlap, k))
    ensures CursorAfter(textLen, size, overlap, k + 1) > CursorAfter(textLen, size, overlap, k)
  {
  }

  /** With `overlap >= size` and a text longer than one window the cursor never
      moves forward and never reaches a last window: the loop runs forever. */
  lemma {:induction false} CursorStalls(textLen: nat, size: nat, overlap: int, k: nat)
    requires overlap >= size && textLen > size
    ensures CursorAfter(textLen, size, overlap, k) <= 0
    ensures !IsLastWindow(textLen, size, CursorAfter(textLen, size, overlap, k))
  {
    if k > 0 {
      CursorStalls(textLen, size, overlap, k - 1);
    }
  }

  /** So the loop stops exactly under `Terminates`: then some number of
      iterations reaches a last window, and otherwise none does. */
  lemma TerminatesIff(textLen: nat, size: nat, overlap: int)
    ensures Terminates(textLen, size, overlap) <==>
      exists k: nat :: IsLastWindow(textLen, size, CursorAfter(textLen, size, overlap, k))
  {
    if !Terminates(textLen, size, overlap) {
      forall k: nat ensures !IsLastWindow(textLen, size, CursorAfter(textLen, size, overlap, k)) {
        CursorStalls(textLen, size, overlap, k);
      }
    } else if overlap < size {
      CursorReachesEnd(textLen, size, overlap, textLen);
      var p := CursorAfter(textLen, size, overlap, textLen);
      assert IsLastWindow(textLen, size, p);
    } else {
      var p := CursorAfter(textLen, size, overlap, 0);
      assert p == 0;
      assert IsLastWindow(textLen, size, p);
      assert exists k: nat :: IsLastWindow(textLen, size, CursorAfter(textLen, size, overlap, k));
    }
  }

  /** With `overlap < size` the cursor has reached a last window after at most
      `textLen` iterations (it is at least `k` while it has not). */
  lemma {:induction false} CursorReachesEnd(textLen: nat, size: nat, overlap: int, k: nat)
    requires overlap < size
    ensures IsLastWindow(textLen, size, CursorAfter(textLen, size, overlap, k))
      || CursorAfter(textLen, size, overlap, k) >= k
  {
    if k > 0 {
      CursorReachesEnd(textLen, size, overlap, k - 1);
      var p := CursorAfter(textLen, size, overlap, k - 1);
      if !IsLastWindow(textLen, size, p) {
        CursorAdvances(textLen, size, overlap, k - 1);
      }
    }
  }

  // ---------------------------------------------------------------------
  // The shape of the windows
  // ---------------------------------------------------------------------

  /** Window `i` starts at `start + i * (size - overlap)` and is the slice of
      the text up to `min(its start + size, len(text))`. It is followed by
      another window only when that bound falls short of the end of the text,
      and always when the next cursor, `min(start + size, len(text)) -
      overlap`, still lies inside the text (which a non-negative overlap
      guarantees; a negative one leaves gaps and may move past the end). */
  lemma {:induction false} ChunkFromAt(text: string, size: nat, overlap: int, start: nat, i: nat)
    requires overlap < size || start + size >= |text|
    requires i < |ChunksFrom(text, size, overlap, start)|
    ensures var s := start + WindowStart(size, overlap, i);
      0 <= s < |text|
      && ChunksFrom(text, size, overlap, start)[i] == text[s..Min(s + size, |text|)]
      && (i + 1 < |ChunksFrom(text, size, overlap, start)| ==> s + size < |text|)
      && (s + size < |text| && s + size - overlap < |text| ==>
            i + 1 < |ChunksFrom(text, size, overlap, start)|)
    decreases i
  {
    var cs := ChunksFrom(text, size, overlap, start);
    var end := Min(start + size, |text|);
    assert start < |text|;
    if end == |text| {
      assert cs == [text[start..end]];
    } else {
      var next := end - overlap;
      assert cs == [text[start..end]] + ChunksFrom(text, size, overlap, next);
      if i == 0 {
        if next < |text| {
          assert ChunksFrom(text, size, overlap, next) != [];
        }
      } else {
        ChunkFromAt(text, size, overlap, next, i - 1);
        NextWindowOffset(size, overlap, i);
      }
    }
  }

  /** Where window `i` starts, relative to the first: each step moves the
      cursor `size - overlap` characters on. */
  function WindowStart(size: nat, overlap: int, i: nat): int
  {
    if i == 0 then 0 else WindowStart(size, overlap, i - 1) + (size - overlap)
  }

  lemma NextWindowOffset(size: nat, overlap: int, i: nat)
    requires i > 0
    ensures WindowStart(size, overlap, i) == (size - overlap) + WindowStart(size, overlap, i - 1)
  {
  }

  /** In closed form, window `i` starts `i * (size - overlap)` characters in. */
  lemma {:induction false} WindowStartProduct(size: nat, overlap: int, i: nat)
    ensures WindowStart(size, overlap, i) == i * (size - overlap)
  {
    if i > 0 {
      WindowStartProduct(size, overlap, i - 1);
      assert (i - 1) * (size - overlap) + (size - overlap) == i * (size - overlap);
    }
  }

  /** The chunk shape `split_chunks` promises: window `i` is
      `text[s : min(s+size, len(text))]` with `s = i*(size-overlap)`, every
      window but the last holds exactly `size` characters, with a non-negative
      overlap the last one ends at the end of the text, and the empty text
      gives no window at all. */
  lemma ChunkShape(text: string, size: nat, overlap: int)
    requires Terminates(|text|, size, overlap)
    ensures var cs := Chunks(text, size, overlap);
      && (forall i: nat :: i < |cs| ==>
            var s := WindowStart(size, overlap, i);
            0 <= s < |text| && cs[i] == text[s..Min(s + size, |text|)])
      && (forall i :: 0 <= i < |cs| - 1 ==> |cs[i]| == size)
      && (0 <= overlap && cs != [] ==>
            Min(WindowStart(size, overlap, |cs| - 1) + size, |text|) == |text|)
      && (cs == [] <==> text == [])
  {
    WindowsAreSlices(text, size, overlap);
    LastWindowReachesEnd(text, size, overlap);
    NoWindowsIff(text, size, overlap);
  }

  lemma LastWindowReachesEnd(text: string, size: nat, overlap: int)
    requires Terminates(|text|, size, overlap)
    ensures var cs := Chunks(text, size, overlap);
      0 <= overlap && cs != [] ==>
        Min(WindowStart(size, overlap, |cs| - 1) + size, |text|) == |text|
  {
    var cs := Chunks(text, size, overlap);
    if 0 <= overlap && cs != [] {
      ChunkFromAt(text, size, overlap, 0, |cs| - 1);
    }
  }

  lemma NoWindowsIff(text: string, size: nat, overlap: int)
    requires Terminates(|text|, size, overlap)
    ensures Chunks(text, size, overlap) == [] <==> text == []
  {
  }

  lemma WindowsAreSlices(text: string, size: nat, overlap: int)
    requires Terminates(|text|, size, overlap)
    ensures var cs := Chunks(text, size, overlap);
      && (forall i: nat :: i < |cs| ==>
            var s := WindowStart(size, overlap, i);
            0 <= s < |text| && cs[i] == text[s..Min(s + size, |text|)])
      && (forall i :: 0 <= i < |cs| - 1 ==> |cs[i]| == size)
  {
    var cs := Chunks(text, size, overlap);
    forall i: nat | i < |cs|
      ensures var s := WindowStart(size, overlap, i);
        0 <= s < |text| && cs[i] == text[s..Min(s + size, |text|)]
      ensures i < |cs| - 1 ==> |cs[i]| == size
    {
      ChunkFromAt(text, size, overlap, 0, i);
    }
  }

  /** The cursor of the termination lemmas is the loop's own: window `i` of
      `split_chunks` starts where `CursorAfter` puts the cursor after `i`
      iterations, and every window but the last leaves the loop running. */
  lemma {:induction false} CursorIsWindowStart(text: string, size: nat, overlap: int, i: nat)
    requires Terminates(|text|, size, overlap)
    requires i < |Chunks(text, size, overlap)|
    ensures CursorAfter(|text|, size, overlap, i) == WindowStart(size, overlap, i)
    ensures i + 1 < |Chunks(text, size, overlap)| ==>
      !IsLastWindow(|text|, size, CursorAfter(|text|, size, overlap, i))
  {
    ChunkFromAt(text, size, overlap, 0, i);
    if i > 0 {
      CursorIsWindowStart(text, size, overlap, i - 1);
      ChunkFromAt(text, size, overlap, 0, i - 1);
      NextWindowOffset(size, overlap, i);
    }
  }

  /** And after the last window the cursor has stopped: the number of windows
      is a number of iterations after which the loop has exited. */
  lemma CursorStopsAfterLastWindow(text: string, size: nat, overlap: int)
    requires Terminates(|text|, size, overlap)
    ensures var n := |Chunks(text, size, overlap)|;
      IsLastWindow(|text|, size, CursorAfter(|text|, size, overlap, n))
  {
    var n := |Chunks(text, size, overlap)|;
    if n > 0 {
      CursorIsWindowStart(text, size, overlap, n - 1);
      ChunkFromAt(text, size, overlap, 0, n - 1);
    }
  }

  // ---------------------------------------------------------------------
  // Reassembly
  // ---------------------------------------------------------------------

  /** Each string with its first `k` characters removed (all of it when shorter). */
  function DropEach(parts: seq<string>, k: nat): (r: seq<string>)
    ensures |r| == |parts|
    ensures forall i :: 0 <= i < |parts| ==> r[i] == parts[i][Min(k, |parts[i]|)..]
  {
    seq(|parts|, i requires 0 <= i < |parts| => parts[i][Min(k, |parts[i]|)..])
  }

  /** The first window followed by every later window minus its first `overlap`
      characters. */
  function Reassemble(chunks: seq<string>, overlap: nat): string
  {
    if chunks == [] then "" else chunks[0] + Concat(DropEach(chunks[1..], overlap))
  }

  /** The windows from a cursor that lies `overlap` characters inside the text,
      each minus its first `overlap` characters, spell out the text from
      `start + overlap` on. */
  lemma {:induction false} TailsSpellSuffix(text: string, size: nat, overlap: nat, start: nat)
    requires overlap < size && start < |text| && start + overlap <= |text|
    ensures Concat(DropEach(ChunksFrom(text, size, overlap, start), overlap)) == text[start + overlap..]
    decreases |text| - start
  {
    var end := Min(start + size, |text|);
    var rest := ChunksFromStep(text, size, overlap, start);
    WindowTail(text, start, end, overlap);
    if end == |text| {
      SpellStep(text[start..end], rest, overlap, text[start + overlap..end], []);
    } else {
      var next := end - overlap;
      assert rest == ChunksFrom(text, size, overlap, next) && next + overlap == end;
      TailsSpellSuffix(text, size, overlap, next);
      SpellStep(text[start..end], rest, overlap, text[start + overlap..end], text[end..]);
      AdjacentSlices(text, start + overlap, end);
    }
  }

  /** One window in front of the rest: its part of the text comes first. */
  lemma SpellStep(c: string, rest: seq<string>, overlap: nat, piece: string, tail: string)
    requires c[Min(overlap, |c|)..] == piece
    requires Concat(DropEach(rest, overlap)) == tail
    ensures Concat(DropEach([c] + rest, overlap)) == piece + tail
  {
    DropEachCons(c, rest, overlap);
    ConcatCons(piece, DropEach(rest, overlap));
  }

  /** A window without its first `overlap` characters. */
  lemma WindowTail(t: string, start: nat, end: nat, overlap: nat)
    requires start + overlap <= end <= |t|
    ensures t[start..end][Min(overlap, end - start)..] == t[start + overlap..end]
  {
    SubSlice(t, start, end, overlap, end - start);
  }

  /** Two adjacent slices of a text, one after the other, are one slice. */
  lemma AdjacentSlices(t: string, a: nat, b: nat)
    requires a <= b <= |t|
    ensures t[a..b] + t[b..] == t[a..]
  {
  }

  /** One unfolding of the loop: the window at `start`, then the windows
      from the next cursor (none once the window reaches the end). */
  lemma ChunksFromStep(text: string, size: nat, overlap: int, start: nat) returns (rest: seq<string>)
    requires overlap < size && start < |text|
    ensures var end := Min(start + size, |text|);
      && ChunksFrom(text, size, overlap, start) == [text[start..end]] + rest
      && (end == |text| ==> rest == [])
      && (end < |text| ==> end - overlap >= 0 && rest == ChunksFrom(text, size, overlap, end - overlap))
  {
    var end := Min(start + size, |text|);
    rest := if end == |text| then [] else ChunksFrom(text, size, overlap, end - overlap);
  }

  lemma DropEachCons(p: string, rest: seq<string>, k: nat)
    ensures DropEach([p] + rest, k) == [p[Min(k, |p|)..]] + DropEach(rest, k)
  {
    var l := DropEach([p] + rest, k);
    var r := [p[Min(k, |p|)..]] + DropEach(rest, k);
    assert forall i | 1 <= i < |l| :: l[i] == DropEach(rest, k)[i - 1] by {
      forall i | 1 <= i < |l| ensures l[i] == DropEach(rest, k)[i - 1] {
        assert ([p] + rest)[i] == rest[i - 1];
      }
    }
    assert |l| == |r|;
  }

  /** Removing the overlaps gives the text back: no character is lost or
      repeated. */
  lemma Reconstruction(text: string, size: nat, overlap: nat)
    requires overlap < size
    ensures Reassemble(Chunks(text, size, overlap), overlap) == text
  {
    var cs := Chunks(text, size, overlap);
    if text != [] {
      var end := Min(size, |text|);
      var rest := ChunksFromStep(text, size, overlap, 0);
      assert cs[0] == text[..end] && cs[1..] == rest;
      if end == |text| {
        assert Reassemble(cs, overlap) == text[..end] + Concat([]);
      } else {
        TailsSpellSuffix(text, size, overlap, end - overlap);
        assert text[..end] + text[end..] == text;
      }
    }
  }

  /** Each window after the first starts with the last `overlap` characters of
      the window before it. */
  lemma AdjacentOverlap(text: string, size: nat, overlap: nat, i: nat)
    requires overlap < size
    requires 0 < i < |Chunks(text, size, overlap)|
    ensures var cs := Chunks(text, size, overlap);
      |cs[i]| >= overlap && |cs[i - 1]| >= overlap &&
      cs[i][..overlap] == cs[i - 1][|cs[i - 1]| - overlap..]
  {
    var cs := Chunks(text, size, overlap);
    ChunkFromAt(text, size, overlap, 0, i - 1);
    ChunkFromAt(text, size, overlap, 0, i);
    NextWindowOffset(size, overlap, i);
    var s0 := WindowStart(size, overlap, i - 1);
    var s1 := WindowStart(size, overlap, i);
    var e1 := Min(s1 + size, |text|);
    assert cs[i - 1] == text[s0..s0 + size];
    assert cs[i] == text[s1..e1] && s1 + overlap <= e1;
    SubSlice(text, s1, e1, 0, overlap);
    SubSlice(text, s0, s0 + size, size - overlap, size);
  }

  /** A slice of a slice is a slice of the whole. */
  lemma SubSlice(t: string, a: nat, b: nat, c: nat, d: nat)
    requires a <= b <= |t| && c <= d <= b - a
    ensures t[a..b][c..d] == t[a + c..a + d]
  {
    assert forall k | 0 <= k < d - c :: t[a..b][c..d][k] == t[a + c + k];
  }

  /** Example: "ABCDEFGHIJ", windows of 4, overlap 1. */
  lemma ExampleSplit()
    ensures Chunks("ABCDEFGHIJ", 4, 1) == ["ABCD", "DEFG", "GHIJ"]
  {
    var t := "ABCDEFGHIJ";
    assert t[0..4] == "ABCD" && t[3..7] == "DEFG" && t[6..10] == "GHIJ";
    assert ChunksFrom(t, 4, 1, 6) == ["GHIJ"];
    assert ChunksFrom(t, 4, 1, 3) == ["DEFG", "GHIJ"];
  }
}
