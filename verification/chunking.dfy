/** `split_text`: a window of `chunkSize` characters slides over the text,
    advancing `chunkSize - overlap` each time; every window is stripped and the
    empty results are dropped. */
module Chunking {
  import opened PyStr

  const DefaultChunkSize := 800
  const DefaultOverlap := 200

  /** The raw windows `text[start:start + chunkSize]` taken from `start` on,
      advancing by `step`, while the start offset is still inside the text. */
  function WindowsFrom(text: string, start: nat, chunkSize: int, step: int): seq<string>
    requires step > 0
    decreases |text| - start
  {
    if start >= |text| then []
    else [Slice(text, start, start + chunkSize)] + WindowsFrom(text, start + step, chunkSize, step)
  }

  /** Every window after `strip()`, in order. */
  function StripEach(ws: seq<string>): (rs: seq<string>)
    ensures |rs| == |ws|
  {
    if ws == [] then [] else [Strip(ws[0])] + StripEach(ws[1..])
  }

  lemma {:induction false} StripEachAt(ws: seq<string>, i: nat)
    requires i < |ws|
    ensures StripEach(ws)[i] == Strip(ws[i])
  {
    if i > 0 {
      StripEachAt(ws[1..], i - 1);
    }
  }

  /** The comprehension `[c for c in chunks if c]`. */
  function NonEmpty(xs: seq<string>): (r: seq<string>)
    ensures |r| <= |xs|
  {
    if xs == [] then []
    else (if xs[0] == [] then [] else [xs[0]]) + NonEmpty(xs[1..])
  }

  /** The filter keeps exactly the non-empty strings. */
  lemma {:induction false} NonEmptyMembers(xs: seq<string>)
    ensures forall c :: c in NonEmpty(xs) <==> c in xs && c != []
  {
    if xs != [] {
      NonEmptyMembers(xs[1..]);
      assert xs == [xs[0]] + xs[1..];
    }
  }

  /** The list the loop of `split_text` has built once its start offset has
      reached `start`, when it had built `acc` before: each further window is
      stripped and appended. */
  function Collect(text: string, start: nat, chunkSize: int, step: int, acc: seq<string>): seq<string>
    requires step > 0
    decreases |text| - start
  {
    if start >= |text| then acc
    else Collect(text, start + step, chunkSize, step, acc + [Strip(Slice(text, start, start + chunkSize))])
  }

  /** What `split_text(text, chunkSize, overlap)` returns. */
  function Chunks(text: string, chunkSize: int, overlap: int): seq<string>
    requires chunkSize - overlap > 0
  {
    NonEmpty(Collect(text, 0, chunkSize, chunkSize - overlap, []))
  }

  /** The loop of `split_text` (its only requirement is a positive step, without
      which the loop never ends on a non-empty text). */
  method SplitText(text: string, chunkSize: int, overlap: int) returns (result: seq<string>)
    requires chunkSize - overlap > 0
    ensures result == Chunks(text, chunkSize, overlap)
    ensures text == [] ==> result == []
  {
    ghost var all := Collect(text, 0, chunkSize, chunkSize - overlap, []);
    var chunks: seq<string> := [];
    var start: nat := 0;
    while start < |text|
      invariant Collect(text, start, chunkSize, chunkSize - overlap, chunks) == all
      decreases |text| - start
    {
      var chunk := Slice(text, start, start + chunkSize);
      chunks := chunks + [Strip(chunk)];
      start := start + (chunkSize - overlap);
    }
    result := NonEmpty(chunks);
  }

  /** The accumulated list is the stripped windows, in order. */
  lemma {:induction false} CollectIsStripEach(text: string, start: nat, chunkSize: int, step: int, acc: seq<string>)
    requires step > 0
    ensures Collect(text, start, chunkSize, step, acc) == acc + StripEach(WindowsFrom(text, start, chunkSize, step))
    decreases |text| - start
  {
    if start < |text| {
      var w := Slice(text, start, start + chunkSize);
      var rest := WindowsFrom(text, start + step, chunkSize, step);
      calc {
        Collect(text, start, chunkSize, step, acc);
        Collect(text, start + step, chunkSize, step, acc + [Strip(w)]);
        { CollectIsStripEach(text, start + step, chunkSize, step, acc + [Strip(w)]); }
        (acc + [Strip(w)]) + StripEach(rest);
        acc + ([Strip(w)] + StripEach(rest));
        { StripEachCons(w, rest); }
        acc + StripEach([w] + rest);
      }
    } else {
      assert acc + [] == acc;
    }
  }

  /** `split_text` is filtering the stripped windows. */
  lemma ChunksAreStrippedWindows(text: string, chunkSize: int, overlap: int)
    requires chunkSize - overlap > 0
    ensures Chunks(text, chunkSize, overlap) == NonEmpty(StripEach(WindowsFrom(text, 0, chunkSize, chunkSize - overlap)))
  {
    CollectIsStripEach(text, 0, chunkSize, chunkSize - overlap, []);
    assert [] + StripEach(WindowsFrom(text, 0, chunkSize, chunkSize - overlap))
        == StripEach(WindowsFrom(text, 0, chunkSize, chunkSize - overlap));
  }

  lemma StripEachCons(w: string, ws: seq<string>)
    ensures StripEach([w] + ws) == [Strip(w)] + StripEach(ws)
  {
    assert ([w] + ws)[1..] == ws;
  }

  // ---------------------------------------------------------------- properties

  /** Filtering keeps the order: it distributes over concatenation. */
  lemma {:induction false} NonEmptyAppend(a: seq<string>, b: seq<string>)
    ensures NonEmpty(a + b) == NonEmpty(a) + NonEmpty(b)
  {
    if a == [] {
      assert a + b == b;
    } else {
      assert (a + b)[0] == a[0];
      assert (a + b)[1..] == a[1..] + b;
      NonEmptyAppend(a[1..], b);
    }
  }

  /** Window `i` starts at offset `a == start + i * step`. */
  lemma {:induction false} WindowsFromAt(text: string, start: nat, chunkSize: int, step: int, i: nat, a: int)
    requires step > 0 && i < |WindowsFrom(text, start, chunkSize, step)|
    requires a == start + i * step
    ensures WindowsFrom(text, start, chunkSize, step)[i] == Slice(text, a, a + chunkSize)
    decreases i
  {
    if i > 0 {
      MulSucc(i - 1, step);
      WindowsFromAt(text, start + step, chunkSize, step, i - 1, a);
    }
  }

  /** Every window starts inside the text. */
  lemma {:induction false} WindowsFromInside(text: string, start: nat, chunkSize: int, step: int, i: nat)
    requires step > 0 && i < |WindowsFrom(text, start, chunkSize, step)|
    ensures start + i * step < |text|
    decreases i
  {
    if i > 0 {
      MulSucc(i - 1, step);
      WindowsFromInside(text, start + step, chunkSize, step, i - 1);
    }
  }

  /** The start offset after the last window is past the end of the text. */
  lemma {:induction false} WindowsFromEnd(text: string, start: nat, chunkSize: int, step: int)
    requires step > 0
    ensures start + |WindowsFrom(text, start, chunkSize, step)| * step >= |text|
    decreases |text| - start
  {
    if start < |text| {
      WindowsFromEnd(text, start + step, chunkSize, step);
      var n := |WindowsFrom(text, start + step, chunkSize, step)|;
      assert |WindowsFrom(text, start, chunkSize, step)| == n + 1;
      MulSucc(n, step);
    }
  }

  /** Window `i` of `split_text` is `text[i * step .. min(i * step + chunkSize, |text|)]`. */
  lemma WindowAt(text: string, chunkSize: int, overlap: int, i: nat)
    requires 0 < chunkSize && chunkSize - overlap > 0
    requires i < |WindowsFrom(text, 0, chunkSize, chunkSize - overlap)|
    ensures 0 <= i * (chunkSize - overlap) < |text|
    ensures WindowsFrom(text, 0, chunkSize, chunkSize - overlap)[i]
         == text[i * (chunkSize - overlap)..Min(i * (chunkSize - overlap) + chunkSize, |text|)]
  {
    var a := i * (chunkSize - overlap);
    MulMonotone(0, i, chunkSize - overlap);
    WindowsFromAt(text, 0, chunkSize, chunkSize - overlap, i, a);
    WindowsFromInside(text, 0, chunkSize, chunkSize - overlap, i);
    SliceClamped(text, a, a + chunkSize);
  }

  /** The exact windows: for `i = 0, 1, ...` while `i * step < |text|`, window `i`
      is `text[i * step .. min(i * step + chunkSize, |text|)]`. */
  lemma WindowsExact(text: string, chunkSize: int, overlap: int)
    requires 0 < chunkSize && chunkSize - overlap > 0
    ensures var ws, step := WindowsFrom(text, 0, chunkSize, chunkSize - overlap), chunkSize - overlap;
      && |ws| * step >= |text|
      && forall i :: 0 <= i < |ws| ==>
           i * step < |text| && ws[i] == text[i * step..Min(i * step + chunkSize, |text|)]
  {
    var ws, step := WindowsFrom(text, 0, chunkSize, chunkSize - overlap), chunkSize - overlap;
    WindowsFromEnd(text, 0, chunkSize, step);
    forall i | 0 <= i < |ws|
      ensures i * step < |text| && ws[i] == text[i * step..Min(i * step + chunkSize, |text|)]
    {
      WindowAt(text, chunkSize, overlap, i);
    }
  }

  /** Every chunk is non-empty and neither starts nor ends with whitespace. */
  lemma ChunkShape(text: string, chunkSize: int, overlap: int)
    requires chunkSize - overlap > 0
    ensures forall c :: c in Chunks(text, chunkSize, overlap) ==>
      c != [] && !IsSpace(c[0]) && !IsSpace(c[|c| - 1])
  {
    var ws := WindowsFrom(text, 0, chunkSize, chunkSize - overlap);
    var stripped := StripEach(ws);
    ChunksAreStrippedWindows(text, chunkSize, overlap);
    NonEmptyMembers(stripped);
    forall c | c in Chunks(text, chunkSize, overlap)
      ensures c != [] && !IsSpace(c[0]) && !IsSpace(c[|c| - 1])
    {
      var i :| 0 <= i < |stripped| && stripped[i] == c;
      StripEachAt(ws, i);
      StripShape(ws[i]);
    }
  }

  /** Every chunk is at most `chunkSize` long and a contiguous piece of the text. */
  lemma ChunkOrigin(text: string, chunkSize: int, overlap: int)
    requires 0 < chunkSize && chunkSize - overlap > 0
    ensures forall c :: c in Chunks(text, chunkSize, overlap) ==>
      |c| <= chunkSize && IsInfix(c, text)
  {
    var ws := WindowsFrom(text, 0, chunkSize, chunkSize - overlap);
    var stripped := StripEach(ws);
    ChunksAreStrippedWindows(text, chunkSize, overlap);
    NonEmptyMembers(stripped);
    forall c | c in Chunks(text, chunkSize, overlap)
      ensures |c| <= chunkSize && IsInfix(c, text)
    {
      var i :| 0 <= i < |stripped| && stripped[i] == c;
      StripEachAt(ws, i);
      WindowAt(text, chunkSize, overlap, i);
      StripShape(ws[i]);
      StripInfix(ws[i]);
      InfixAt(ws[i], text, i * (chunkSize - overlap));
      InfixTransitive(c, ws[i], text);
    }
  }

  /** With `overlap >= 0` the untrimmed windows leave no gap: every character of
      the text is inside some window, and each window reaches at least as far as
      the start of the next one. */
  lemma Coverage(text: string, chunkSize: int, overlap: int)
    requires 0 <= overlap < chunkSize
    ensures var ws, step := WindowsFrom(text, 0, chunkSize, chunkSize - overlap), chunkSize - overlap;
      && (forall k :: 0 <= k < |text| ==> Covered(ws, step, text, k))
      && (forall i :: 0 <= i < |ws| - 1 ==> (i + 1) * step <= i * step + |ws[i]|)
  {
    var ws, step := WindowsFrom(text, 0, chunkSize, chunkSize - overlap), chunkSize - overlap;
    WindowsFromEnd(text, 0, chunkSize, step);
    forall k | 0 <= k < |text|
      ensures Covered(ws, step, text, k)
    {
      var i := k / step;
      DivWindow(k, step);
      if |ws| <= i {
        MulMonotone(|ws|, i, step);
      }
      WindowAt(text, chunkSize, overlap, i);
      assert Covers(ws, step, i, text, k);
    }
    forall i | 0 <= i < |ws| - 1
      ensures (i + 1) * step <= i * step + |ws[i]|
    {
      WindowAt(text, chunkSize, overlap, i);
      WindowAt(text, chunkSize, overlap, i + 1);
      MulSucc(i, step);
    }
  }

  /** Some window holds character `k` of the text. */
  ghost predicate Covered(ws: seq<string>, step: int, text: string, k: int) {
    exists i :: 0 <= i < |ws| && Covers(ws, step, i, text, k)
  }

  /** Window `i`, which starts at `i * step`, holds character `k` of the text. */
  ghost predicate Covers(ws: seq<string>, step: int, i: nat, text: string, k: int)
    requires i < |ws|
  {
    i * step <= k < i * step + |ws[i]| && 0 <= k < |text| && ws[i][k - i * step] == text[k]
  }

  lemma MulMonotone(a: nat, b: nat, c: nat)
    requires a <= b
    ensures a * c <= b * c
  {
  }

  lemma MulSucc(i: nat, step: int)
    ensures (i + 1) * step == i * step + step
  {
  }

  /** Offset `k` lies in the step that starts at `(k / step) * step`. */
  lemma DivWindow(k: nat, step: int)
    requires step > 0
    ensures 0 <= (k / step) * step <= k < (k / step) * step + step
  {
  }

  /** With the defaults 800/200 a 1000-character text is cut at offsets 0 and
      600 only, so it yields at most two chunks. */
  lemma DefaultsOnThousandCharacters(text: string)
    requires |text| == 1000
    ensures WindowsFrom(text, 0, DefaultChunkSize, DefaultChunkSize - DefaultOverlap) == [text[0..800], text[600..1000]]
    ensures |Chunks(text, DefaultChunkSize, DefaultOverlap)| <= 2
  {
    assert WindowsFrom(text, 1200, 800, 600) == [];
    assert WindowsFrom(text, 600, 800, 600) == [text[600..1000]];
    assert WindowsFrom(text, 0, 800, 600) == [text[0..800]] + [text[600..1000]];
    ChunksAreStrippedWindows(text, DefaultChunkSize, DefaultOverlap);
  }
}
