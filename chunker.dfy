/**
  The token chunker: text is encoded to token ids, the ids are cut into
  overlapping windows, each window is decoded, and the decoded text is
  located in the original string to give the chunk's character span.
*/
module TokenChunking {
  import opened Wrappers
  import opened Text
  import opened Windowing

  /**
    The library's `Chunk` record: one window of the input, with its decoded
    text, its character span in the original and its size in tokens.
  */
  datatype ChunkRecord = ChunkRecord(text: string, startIndex: nat, endIndex: nat, tokenCount: nat)

  /**
    The tokenizer capability the chunker consumes. The engine behind it
    (byte-pair merges, vocabulary) is not modelled: `encode` and `decode`
    are arbitrary total functions.
  */
  datatype Tokenizer = Tokenizer(encode: string -> seq<int>, decode: seq<int> -> string)

  datatype Error =
    | ChunkSizeNotPositive(chunkSize: int)
    | NegativeOverlap(chunkOverlap: int)
    | OverlapNotBelowSize(chunkSize: int, chunkOverlap: int)
      /** A decoded window's text does not occur in the original at or after the search start. */
    | OffsetNotFound(windowText: string, searchFrom: nat)
      /** The chunking of the batch item at `index` failed with `cause`. */
    | BatchItemFailed(index: nat, cause: Error)

  /** Python's `s[lo:hi]` for non-negative bounds: out-of-range bounds are clamped. */
  function Slice(s: string, lo: nat, hi: nat): (r: string)
    ensures |r| <= |s|
    ensures lo <= hi <= |s| ==> r == s[lo..hi]
    ensures hi <= lo || |s| <= lo ==> r == []
  {
    var a := if lo < |s| then lo else |s|;
    var b := if hi < |s| then hi else |s|;
    if a <= b then s[a..b] else []
  }

  /**
    The index check of the test suite, walking the chunk list as its loop
    does: for every chunk, the original text sliced by the chunk's span and
    stripped equals the chunk's text stripped.
  */
  predicate IndicesVerified(chunks: seq<ChunkRecord>, original: string): (ok: bool)
    ensures ok <==> forall k :: 0 <= k < |chunks| ==> IndexMatches(chunks[k], original)
    decreases |chunks|
  {
    chunks == [] || (IndexMatches(chunks[0], original) && IndicesVerified(chunks[1..], original))
  }

  /** One chunk's part of the index check. */
  predicate IndexMatches(c: ChunkRecord, original: string) {
    Strip(Slice(original, c.startIndex, c.endIndex)) == Strip(c.text)
  }

  /** Every chunk holds at least one and at most `chunkSize` tokens. */
  predicate CountsBounded(chunks: seq<ChunkRecord>, chunkSize: nat) {
    forall k :: 0 <= k < |chunks| ==> 0 < chunks[k].tokenCount <= chunkSize
  }

  /** Start indices strictly increase along the chunk list. */
  predicate StartsIncreasing(chunks: seq<ChunkRecord>) {
    forall k :: 0 < k < |chunks| ==> chunks[k - 1].startIndex < chunks[k].startIndex
  }

  /** `c` is the chunk of a window of `tokenCount` tokens decoding to `windowText`, found in `original`. */
  predicate Locates(c: ChunkRecord, original: string, windowText: string, tokenCount: nat) {
    && c.text == windowText
    && c.tokenCount == tokenCount
    && c.startIndex <= c.endIndex <= |original|
    && original[c.startIndex..c.endIndex] == Strip(windowText)
  }

  /**
    Offset recovery for one window: the decoded text, with the whitespace
    a decoder may add or drop at its ends trimmed, is searched for in the
    original from `from` on; the first occurrence is the chunk's span.
  */
  function LocateWindow(original: string, windowText: string, tokenCount: nat, from: nat): Result<ChunkRecord, Error> {
    var needle := Strip(windowText);
    match Find(original, needle, from)
    case None => Err(OffsetNotFound(windowText, from))
    case Some(s) => Ok(ChunkRecord(windowText, s, s + |needle|, tokenCount))
  }

  /**
    A located window carries the window's text and token count and a span
    at or after `from` holding the window's text stripped; a failure names
    the window's text and the search start.
  */
  lemma LocateWindowLocates(original: string, windowText: string, tokenCount: nat, from: nat)
    ensures var r := LocateWindow(original, windowText, tokenCount, from);
            && (r.Ok? ==> Locates(r.value, original, windowText, tokenCount) && from <= r.value.startIndex)
            && (r.Err? ==> r.error == OffsetNotFound(windowText, from))
  {
    FindSound(original, Strip(windowText), from);
  }

  /**
    The located span is the first occurrence of the window's stripped text
    at or after `from`, and the search fails exactly when there is none.
  */
  lemma LocateWindowFirst(original: string, windowText: string, tokenCount: nat, from: nat)
    ensures var r := LocateWindow(original, windowText, tokenCount, from);
            && (r.Ok? ==> forall j :: from <= j < r.value.startIndex ==> !OccursAt(original, Strip(windowText), j))
            && (r.Err? <==> forall j: nat :: from <= j ==> !OccursAt(original, Strip(windowText), j))
  {
    FindSound(original, Strip(windowText), from);
  }

  /** `acc` followed by the chunks of `r`, or the failure of `r`. */
  function Prefixed(acc: seq<ChunkRecord>, r: Result<seq<ChunkRecord>, Error>): Result<seq<ChunkRecord>, Error> {
    match r
    case Ok(cs) => Ok(acc + cs)
    case Err(e) => Err(e)
  }

  lemma PrefixedEmpty(r: Result<seq<ChunkRecord>, Error>)
    ensures Prefixed([], r) == r
  {
    if r.Ok? { assert [] + r.value == r.value; }
  }

  /** The window of at most `size` tokens starting at `start`. */
  function WindowAtStart(tokens: seq<int>, size: nat, start: nat): (w: seq<int>)
    requires start < |tokens|
  {
    if start + size < |tokens| then tokens[start..start + size] else tokens[start..]
  }

  /**
    Decodes and locates the windows of `tokens` from `start` on, stepping by
    `size - overlap` tokens and stopping after the window that reaches the
    end. The search for each window starts one character past where the
    previous window's text was found, so start indices strictly increase.
    The first window that cannot be located ends the whole computation.
  */
  function LocateFrom(original: string, decode: seq<int> -> string, tokens: seq<int>, size: nat, overlap: nat,
                      start: nat, from: nat): Result<seq<ChunkRecord>, Error>
    requires overlap < size
    decreases |tokens| - start
  {
    if |tokens| <= start then Ok([])
    else
      var window := WindowAtStart(tokens, size, start);
      match LocateWindow(original, decode(window), |window|, from)
      case Err(e) => Err(e)
      case Ok(c) =>
        if |tokens| <= start + size then Ok([c])
        else Prefixed([c], LocateFrom(original, decode, tokens, size, overlap, start + size - overlap, c.startIndex + 1))
  }

  /** A successful `LocateFrom` gives one chunk per token window. */
  lemma {:induction false} LocateLength(original: string, decode: seq<int> -> string, tokens: seq<int>, size: nat, overlap: nat,
                                        start: nat, from: nat)
    requires overlap < size
    ensures var r := LocateFrom(original, decode, tokens, size, overlap, start, from);
            r.Ok? ==> |r.value| == |WindowsFrom(tokens, size, overlap, start)|
    decreases |tokens| - start
  {
    if start + size < |tokens| {
      var window := WindowAtStart(tokens, size, start);
      var located := LocateWindow(original, decode(window), |window|, from);
      if located.Ok? {
        LocateLength(original, decode, tokens, size, overlap, start + size - overlap, located.value.startIndex + 1);
      }
    }
  }

  /**
    Each chunk of a successful `LocateFrom` carries its window's decoded
    text and token count, and its span holds that text stripped.
  */
  lemma {:induction false} LocateEach(original: string, decode: seq<int> -> string, tokens: seq<int>, size: nat, overlap: nat,
                                      start: nat, from: nat)
    requires overlap < size
    ensures var r := LocateFrom(original, decode, tokens, size, overlap, start, from);
            var ws := WindowsFrom(tokens, size, overlap, start);
            r.Ok? ==> ChunksLocate(r.value, original, decode, ws)
    decreases |tokens| - start
  {
    if start < |tokens| {
      var ws := WindowsFrom(tokens, size, overlap, start);
      var window := WindowAtStart(tokens, size, start);
      var located := LocateWindow(original, decode(window), |window|, from);
      if located.Ok? {
        LocateWindowLocates(original, decode(window), |window|, from);
        if start + size < |tokens| {
          var next := start + size - overlap;
          var rest := LocateFrom(original, decode, tokens, size, overlap, next, located.value.startIndex + 1);
          LocateEach(original, decode, tokens, size, overlap, next, located.value.startIndex + 1);
          if rest.Ok? {
            assert ws == [window] + WindowsFrom(tokens, size, overlap, next);
            ConsLocates(original, decode, located.value, rest.value, window, WindowsFrom(tokens, size, overlap, next));
          }
        } else {
          assert ws == [window];
          ConsLocates(original, decode, located.value, [], window, []);
        }
      }
    }
  }

  /** Each chunk of `cs` locates the decoded window at the same position of `ws`. */
  predicate ChunksLocate(cs: seq<ChunkRecord>, original: string, decode: seq<int> -> string, ws: seq<seq<int>>)
    decreases |cs|
  {
    cs != [] && ws != [] ==>
      Locates(cs[0], original, decode(ws[0]), |ws[0]|) && ChunksLocate(cs[1..], original, decode, ws[1..])
  }

  /** `ChunksLocate` read at one position. */
  lemma {:induction false} ChunksLocateAt(cs: seq<ChunkRecord>, original: string, decode: seq<int> -> string, ws: seq<seq<int>>, k: nat)
    requires ChunksLocate(cs, original, decode, ws) && k < |cs| && k < |ws|
    ensures Locates(cs[k], original, decode(ws[k]), |ws[k]|)
    decreases k
  {
    if k > 0 {
      ChunksLocateAt(cs[1..], original, decode, ws[1..], k - 1);
    }
  }

  /** The text and token count that `ChunksLocate` gives the chunk at one position. */
  lemma ChunkCarriesWindow(cs: seq<ChunkRecord>, original: string, decode: seq<int> -> string, ws: seq<seq<int>>, k: nat)
    requires ChunksLocate(cs, original, decode, ws) && k < |cs| && k < |ws|
    ensures cs[k].text == decode(ws[k]) && cs[k].tokenCount == |ws[k]|
  {
    ChunksLocateAt(cs, original, decode, ws, k);
  }

  /** Putting a located window in front of chunks that locate their windows keeps every chunk located. */
  lemma ConsLocates(original: string, decode: seq<int> -> string, c: ChunkRecord, cs: seq<ChunkRecord>, w: seq<int>, ws: seq<seq<int>>)
    requires Locates(c, original, decode(w), |w|)
    requires ChunksLocate(cs, original, decode, ws)
    ensures ChunksLocate([c] + cs, original, decode, [w] + ws)
  {
    assert ([c] + cs)[1..] == cs;
    assert ([w] + ws)[1..] == ws;
  }

  /** The first chunk starts no earlier than the search start. */
  lemma LocateFirst(original: string, decode: seq<int> -> string, tokens: seq<int>, size: nat, overlap: nat,
                    start: nat, from: nat)
    requires overlap < size
    ensures var r := LocateFrom(original, decode, tokens, size, overlap, start, from);
            r.Ok? && r.value != [] ==> from <= r.value[0].startIndex
  {
    if start < |tokens| {
      var window := WindowAtStart(tokens, size, start);
      LocateWindowLocates(original, decode(window), |window|, from);
    }
  }

  /** The chunks of a successful `LocateFrom` have strictly increasing start indices. */
  lemma {:induction false} LocateIncreasing(original: string, decode: seq<int> -> string, tokens: seq<int>, size: nat, overlap: nat,
                                            start: nat, from: nat)
    requires overlap < size
    ensures var r := LocateFrom(original, decode, tokens, size, overlap, start, from);
            r.Ok? ==> StartsIncreasing(r.value)
    decreases |tokens| - start
  {
    if start + size < |tokens| {
      var window := WindowAtStart(tokens, size, start);
      var located := LocateWindow(original, decode(window), |window|, from);
      if located.Ok? {
        var c := located.value;
        var next := start + size - overlap;
        var rest := LocateFrom(original, decode, tokens, size, overlap, next, c.startIndex + 1);
        LocateIncreasing(original, decode, tokens, size, overlap, next, c.startIndex + 1);
        LocateFirst(original, decode, tokens, size, overlap, next, c.startIndex + 1);
        if rest.Ok? {
          ConsIncreasing(c, rest.value);
        }
      }
    }
  }

  /** A chunk starting before the first of a list of chunks with increasing starts extends the list. */
  lemma ConsIncreasing(c: ChunkRecord, cs: seq<ChunkRecord>)
    requires StartsIncreasing(cs) && (cs != [] ==> c.startIndex < cs[0].startIndex)
    ensures StartsIncreasing([c] + cs)
  {
    var cs' := [c] + cs;
    forall k | 1 < k < |cs'| ensures cs'[k - 1].startIndex < cs'[k].startIndex {
      assert cs'[k - 1] == cs[k - 2] && cs'[k] == cs[k - 1];
    }
  }

  /** A failing `LocateFrom` fails with an offset-recovery error. */
  lemma {:induction false} LocateFails(original: string, decode: seq<int> -> string, tokens: seq<int>, size: nat, overlap: nat,
                                       start: nat, from: nat)
    requires overlap < size
    ensures var r := LocateFrom(original, decode, tokens, size, overlap, start, from);
            r.Err? ==> r.error.OffsetNotFound?
    decreases |tokens| - start
  {
    if start < |tokens| {
      var window := WindowAtStart(tokens, size, start);
      var located := LocateWindow(original, decode(window), |window|, from);
      LocateWindowLocates(original, decode(window), |window|, from);
      if located.Ok? && start + size < |tokens| {
        LocateFails(original, decode, tokens, size, overlap, start + size - overlap, located.value.startIndex + 1);
      }
    }
  }

  /**
    The stripped decoded texts of the windows `ws` occur in `original` at
    the positions `qs`, one per window, none before `from` and each after
    the one before it.
  */
  predicate PlacedInOrder(original: string, decode: seq<int> -> string, ws: seq<seq<int>>, qs: seq<nat>, from: nat)
    decreases |ws|
  {
    && |qs| == |ws|
    && (ws != [] ==>
          && from <= qs[0]
          && OccursAt(original, Strip(decode(ws[0])), qs[0])
          && PlacedInOrder(original, decode, ws[1..], qs[1..], qs[0] + 1))
  }

  lemma PlacedFromEarlier(original: string, decode: seq<int> -> string, ws: seq<seq<int>>, qs: seq<nat>, from: nat, from': nat)
    requires PlacedInOrder(original, decode, ws, qs, from) && from' <= from
    ensures PlacedInOrder(original, decode, ws, qs, from')
  {
  }

  lemma PlacedCons(original: string, decode: seq<int> -> string, w: seq<int>, ws: seq<seq<int>>, q: nat, qs: seq<nat>, from: nat)
    requires from <= q && OccursAt(original, Strip(decode(w)), q)
    requires PlacedInOrder(original, decode, ws, qs, q + 1)
    ensures PlacedInOrder(original, decode, [w] + ws, [q] + qs, from)
  {
    assert ([w] + ws)[1..] == ws;
    assert ([q] + qs)[1..] == qs;
  }

  /** The start indices of a list of chunks. */
  function Starts(cs: seq<ChunkRecord>): seq<nat> {
    if cs == [] then [] else [cs[0].startIndex] + Starts(cs[1..])
  }

  /**
    When the windows' stripped texts occur in the original in increasing
    positions from `from` on, every search succeeds: each finds a first
    occurrence no later than the given one, so the next search starts no
    later than the next given position.
  */
  lemma {:induction false} LocateSucceeds(original: string, decode: seq<int> -> string, tokens: seq<int>, size: nat, overlap: nat,
                                          start: nat, from: nat, qs: seq<nat>)
    requires overlap < size
    requires PlacedInOrder(original, decode, WindowsFrom(tokens, size, overlap, start), qs, from)
    ensures LocateFrom(original, decode, tokens, size, overlap, start, from).Ok?
    decreases |tokens| - start
  {
    if start < |tokens| {
      PlacedFirstFound(original, decode, tokens, size, overlap, start, from, qs);
      if start + size < |tokens| {
        var next := start + size - overlap;
        var window := WindowAtStart(tokens, size, start);
        var c := LocateWindow(original, decode(window), |window|, from).value;
        LocateSucceeds(original, decode, tokens, size, overlap, next, c.startIndex + 1, qs[1..]);
        LocateFromCons(original, decode, tokens, size, overlap, start, from, c,
                       LocateFrom(original, decode, tokens, size, overlap, next, c.startIndex + 1).value);
      }
    }
  }

  /**
    The first window of an ordered placement is found, no later than its
    given position, and the later windows stay placed in order after it.
  */
  lemma PlacedFirstFound(original: string, decode: seq<int> -> string, tokens: seq<int>, size: nat, overlap: nat,
                         start: nat, from: nat, qs: seq<nat>)
    requires overlap < size && start < |tokens|
    requires PlacedInOrder(original, decode, WindowsFrom(tokens, size, overlap, start), qs, from)
    ensures var window := WindowAtStart(tokens, size, start);
            var r := LocateWindow(original, decode(window), |window|, from);
            && r.Ok? && 0 < |qs| && r.value.startIndex <= qs[0]
            && (start + size < |tokens| ==>
                  PlacedInOrder(original, decode, WindowsFrom(tokens, size, overlap, start + size - overlap), qs[1..], r.value.startIndex + 1))
  {
    var ws := WindowsFrom(tokens, size, overlap, start);
    var window := WindowAtStart(tokens, size, start);
    var located := LocateWindow(original, decode(window), |window|, from);
    assert ws[0] == window;
    LocateWindowFirst(original, decode(window), |window|, from);
    assert located.Ok? && located.value.startIndex <= qs[0];
    if start + size < |tokens| {
      assert ws[1..] == WindowsFrom(tokens, size, overlap, start + size - overlap);
      PlacedFromEarlier(original, decode, ws[1..], qs[1..], qs[0] + 1, located.value.startIndex + 1);
    }
  }

  /** A successful `LocateFrom` places the windows' stripped texts at its chunks' start indices. */
  lemma {:induction false} LocatePlaced(original: string, decode: seq<int> -> string, tokens: seq<int>, size: nat, overlap: nat,
                                        start: nat, from: nat)
    requires overlap < size
    ensures var r := LocateFrom(original, decode, tokens, size, overlap, start, from);
            r.Ok? ==> PlacedInOrder(original, decode, WindowsFrom(tokens, size, overlap, start), Starts(r.value), from)
    decreases |tokens| - start
  {
    if |tokens| <= start {
    } else if start + size < |tokens| {
      var window := WindowAtStart(tokens, size, start);
      var located := LocateWindow(original, decode(window), |window|, from);
      if located.Ok? {
        var c := located.value;
        var rest := LocateFrom(original, decode, tokens, size, overlap, start + size - overlap, c.startIndex + 1);
        if rest.Ok? {
          assert PlacedInOrder(original, decode, WindowsFrom(tokens, size, overlap, start), Starts([c] + rest.value), from) by {
            LocatePlaced(original, decode, tokens, size, overlap, start + size - overlap, c.startIndex + 1);
            LocatePlacedStep(original, decode, tokens, size, overlap, start, from, c, rest.value);
          }
          LocateFromCons(original, decode, tokens, size, overlap, start, from, c, rest.value);
        }
      }
    } else {
      LocatePlacedLast(original, decode, tokens, size, overlap, start, from);
    }
  }

  /** A located window followed by the located later windows is what `LocateFrom` returns. */
  lemma LocateFromCons(original: string, decode: seq<int> -> string, tokens: seq<int>, size: nat, overlap: nat,
                       start: nat, from: nat, c: ChunkRecord, cs: seq<ChunkRecord>)
    requires overlap < size && start + size < |tokens|
    requires LocateWindow(original, decode(WindowAtStart(tokens, size, start)), |WindowAtStart(tokens, size, start)|, from) == Ok(c)
    requires LocateFrom(original, decode, tokens, size, overlap, start + size - overlap, c.startIndex + 1) == Ok(cs)
    ensures LocateFrom(original, decode, tokens, size, overlap, start, from) == Ok([c] + cs)
  {
  }

  /** `LocatePlaced` for a window that is followed by more windows, given the placement of the later ones. */
  lemma LocatePlacedStep(original: string, decode: seq<int> -> string, tokens: seq<int>, size: nat, overlap: nat,
                         start: nat, from: nat, c: ChunkRecord, cs: seq<ChunkRecord>)
    requires overlap < size && start + size < |tokens|
    requires LocateWindow(original, decode(WindowAtStart(tokens, size, start)), |WindowAtStart(tokens, size, start)|, from) == Ok(c)
    requires PlacedInOrder(original, decode, WindowsFrom(tokens, size, overlap, start + size - overlap), Starts(cs), c.startIndex + 1)
    ensures PlacedInOrder(original, decode, WindowsFrom(tokens, size, overlap, start), Starts([c] + cs), from)
  {
    var window := WindowAtStart(tokens, size, start);
    LocateWindowLocates(original, decode(window), |window|, from);
    PlacedWindows(original, decode, tokens, size, overlap, start, c, cs, from);
  }

  /** The window at `start`, placed at `c`, in front of the later windows placed by `cs`. */
  lemma PlacedWindows(original: string, decode: seq<int> -> string, tokens: seq<int>, size: nat, overlap: nat,
                      start: nat, c: ChunkRecord, cs: seq<ChunkRecord>, from: nat)
    requires overlap < size && start + size < |tokens|
    requires from <= c.startIndex && OccursAt(original, Strip(decode(WindowAtStart(tokens, size, start))), c.startIndex)
    requires PlacedInOrder(original, decode, WindowsFrom(tokens, size, overlap, start + size - overlap), Starts(cs), c.startIndex + 1)
    ensures PlacedInOrder(original, decode, WindowsFrom(tokens, size, overlap, start), Starts([c] + cs), from)
  {
    var window := WindowAtStart(tokens, size, start);
    var later := WindowsFrom(tokens, size, overlap, start + size - overlap);
    PlacedStep(original, decode, window, later, c, cs, from);
    assert WindowsFrom(tokens, size, overlap, start) == [window] + later;
  }

  /** `LocatePlaced` for the window that reaches the end of the tokens. */
  lemma LocatePlacedLast(original: string, decode: seq<int> -> string, tokens: seq<int>, size: nat, overlap: nat,
                         start: nat, from: nat)
    requires overlap < size && start < |tokens| <= start + size
    ensures var r := LocateFrom(original, decode, tokens, size, overlap, start, from);
            r.Ok? ==> PlacedInOrder(original, decode, WindowsFrom(tokens, size, overlap, start), Starts(r.value), from)
  {
    var window := WindowAtStart(tokens, size, start);
    var located := LocateWindow(original, decode(window), |window|, from);
    if located.Ok? {
      var c := located.value;
      LocateWindowLocates(original, decode(window), |window|, from);
      PlacedStep(original, decode, window, [], c, [], from);
      assert [c] + [] == [c];
      assert WindowsFrom(tokens, size, overlap, start) == [window] + [];
    }
  }

  /** One located window in front of the rest keeps the placement ordered. */
  lemma PlacedStep(original: string, decode: seq<int> -> string, w: seq<int>, ws: seq<seq<int>>, c: ChunkRecord, cs: seq<ChunkRecord>, from: nat)
    requires from <= c.startIndex && OccursAt(original, Strip(decode(w)), c.startIndex)
    requires PlacedInOrder(original, decode, ws, Starts(cs), c.startIndex + 1)
    ensures PlacedInOrder(original, decode, [w] + ws, Starts([c] + cs), from)
  {
    assert ([c] + cs)[1..] == cs;
    PlacedCons(original, decode, w, ws, c.startIndex, Starts(cs), from);
  }

  lemma PrefixedEmptyRest(acc: seq<ChunkRecord>)
    ensures Prefixed(acc, Ok([])) == Ok(acc)
  {
    assert acc + [] == acc;
  }

  lemma PrefixedAppend(acc: seq<ChunkRecord>, c: ChunkRecord, r: Result<seq<ChunkRecord>, Error>)
    ensures Prefixed(acc, Prefixed([c], r)) == Prefixed(acc + [c], r)
  {
    if r.Ok? { assert acc + ([c] + r.value) == acc + [c] + r.value; }
  }

  /** A chunker with its sizing policy, fixed at construction. */
  datatype TokenChunker = TokenChunker(tokenizer: Tokenizer, chunkSize: nat, chunkOverlap: nat) {

    /** What construction checks: a positive window size and an overlap below it. */
    predicate Valid() {
      0 < chunkSize && chunkOverlap < chunkSize
    }

    /** The identity string `TokenChunker(chunk_size=<n>, chunk_overlap=<m>)`. */
    function Repr(): (r: string)
      ensures |r| > 41 && r[..24] == "TokenChunker(chunk_size=" && r[|r| - 1] == ')'
    {
      "TokenChunker(chunk_size=" + DecimalString(chunkSize) + ", chunk_overlap=" + DecimalString(chunkOverlap) + ")"
    }

    /** What `chunk(text)` returns, as a function of the text. */
    function Chunks(text: string): Result<seq<ChunkRecord>, Error>
      requires Valid()
    {
      if text == "" then Ok([])
      else LocateFrom(text, tokenizer.decode, tokenizer.encode(text), chunkSize, chunkOverlap, 0, 0)
    }

    /**
      The windows of `text`, decoded and stripped, can be placed in `text`
      at strictly increasing positions (trivially so for the empty text).
    */
    ghost predicate Locatable(text: string)
      requires Valid()
    {
      text == "" || exists qs :: PlacedInOrder(text, tokenizer.decode, Windows(tokenizer.encode(text), chunkSize, chunkOverlap), qs, 0)
    }

    /**
      `chunk(text)`: steps a token start index by `chunkSize - chunkOverlap`,
      decodes and locates each window, and stops after the window that
      reaches the end of the token sequence.
    */
    method Chunk(text: string) returns (r: Result<seq<ChunkRecord>, Error>)
      requires Valid()
      ensures r == Chunks(text)
      ensures r.Ok? <==> Locatable(text)
      ensures text == "" ==> r == Ok([])
      ensures r.Ok? ==> CountsBounded(r.value, chunkSize)
      ensures r.Ok? ==> IndicesVerified(r.value, text)
      ensures r.Ok? ==> StartsIncreasing(r.value)
      ensures r.Ok? && text != "" && tokenizer.encode(text) != [] ==> |r.value| > 0
    {
      if text == "" {
        r := Ok([]);
      } else {
        r := LocateWindows(text, tokenizer.encode(text));
      }
      ChunkFacts(this, text);
      ChunksSucceedExactly(this, text);
    }

    /**
      The loop of `chunk`: steps a token start index by `chunkSize -
      chunkOverlap`, decodes and locates each window, and stops after the
      window that reaches the end of `tokens`, or at the first window that
      cannot be located.
    */
    method LocateWindows(text: string, tokens: seq<int>) returns (r: Result<seq<ChunkRecord>, Error>)
      requires Valid()
      ensures r == LocateFrom(text, tokenizer.decode, tokens, chunkSize, chunkOverlap, 0, 0)
    {
      var n := |tokens|;
      var chunks: seq<ChunkRecord> := [];
      var start: nat, from: nat := 0, 0;
      ghost var all := LocateFrom(text, tokenizer.decode, tokens, chunkSize, chunkOverlap, 0, 0);
      PrefixedEmpty(all);
      while start < n
        invariant all == Prefixed(chunks, LocateFrom(text, tokenizer.decode, tokens, chunkSize, chunkOverlap, start, from))
        decreases n - start
      {
        var window := WindowAtStart(tokens, chunkSize, start);
        var located := LocateWindow(text, tokenizer.decode(window), |window|, from);
        if located.Err? {
          assert LocateFrom(text, tokenizer.decode, tokens, chunkSize, chunkOverlap, start, from) == Err(located.error);
          return Err(located.error);
        }
        if n <= start + chunkSize {
          assert LocateFrom(text, tokenizer.decode, tokens, chunkSize, chunkOverlap, start, from) == Ok([located.value]);
          return Ok(chunks + [located.value]);
        }
        var next: nat := start + chunkSize - chunkOverlap;
        assert all == Prefixed(chunks + [located.value], LocateFrom(text, tokenizer.decode, tokens, chunkSize, chunkOverlap, next, located.value.startIndex + 1)) by {
          assert LocateFrom(text, tokenizer.decode, tokens, chunkSize, chunkOverlap, start, from)
              == Prefixed([located.value], LocateFrom(text, tokenizer.decode, tokens, chunkSize, chunkOverlap, next, located.value.startIndex + 1));
          PrefixedAppend(chunks, located.value, LocateFrom(text, tokenizer.decode, tokens, chunkSize, chunkOverlap, next, located.value.startIndex + 1));
        }
        chunks := chunks + [located.value];
        start, from := next, located.value.startIndex + 1;
      }
      PrefixedEmptyRest(chunks);
      return Ok(chunks);
    }

    /** Calling the chunker directly is `chunk`. */
    method Call(text: string) returns (r: Result<seq<ChunkRecord>, Error>)
      requires Valid()
      ensures r == Chunks(text)
    {
      r := Chunk(text);
    }

    /**
      `chunk_batch(texts)`: chunks the texts one after another, in order,
      and fails on the first text whose chunking fails, naming its index.
    */
    method ChunkBatch(texts: seq<string>) returns (r: Result<seq<seq<ChunkRecord>>, Error>)
      requires Valid()
      ensures r.Ok? <==> forall k :: 0 <= k < |texts| ==> Chunks(texts[k]).Ok?
      ensures r.Ok? <==> forall k :: 0 <= k < |texts| ==> Locatable(texts[k])
      ensures r.Ok? ==> |r.value| == |texts| && forall k :: 0 <= k < |texts| ==> Chunks(texts[k]) == Ok(r.value[k])
      ensures r.Err? ==> && r.error.BatchItemFailed?
                         && r.error.index < |texts|
                         && Chunks(texts[r.error.index]) == Err(r.error.cause)
                         && forall k :: 0 <= k < r.error.index ==> Chunks(texts[k]).Ok?
      ensures r.Ok? ==> forall k :: 0 <= k < |texts| ==>
                CountsBounded(r.value[k], chunkSize) &&
                (texts[k] != "" && tokenizer.encode(texts[k]) != [] ==> |r.value[k]| > 0)
    {
      var results: seq<seq<ChunkRecord>> := [];
      var k := 0;
      while k < |texts|
        invariant 0 <= k <= |texts| && |results| == k
        invariant forall j :: 0 <= j < k ==> Chunks(texts[j]) == Ok(results[j])
        invariant forall j :: 0 <= j < k ==>
                    CountsBounded(results[j], chunkSize) &&
                    (texts[j] != "" && tokenizer.encode(texts[j]) != [] ==> |results[j]| > 0)
      {
        var chunks := Chunk(texts[k]);
        if chunks.Err? {
          return Err(BatchItemFailed(k, chunks.error));
        }
        assert forall j :: 0 <= j < k + 1 ==> Chunks(texts[j]) == Ok((results + [chunks.value])[j]) by {
          assert Chunks(texts[k]) == Ok(chunks.value);
        }
        results := results + [chunks.value];
        k := k + 1;
      }
      forall j | 0 <= j < |texts|
        ensures Locatable(texts[j])
      {
        ChunksSucceedExactly(this, texts[j]);
      }
      return Ok(results);
    }
  }

  /**
    `TokenChunker(tokenizer, chunk_size, chunk_overlap)`: succeeds exactly
    for a positive size and an overlap in `[0, size)`, keeping the three
    arguments unchanged; otherwise fails with the configuration error.
  */
  function Create(tokenizer: Tokenizer, chunkSize: int, chunkOverlap: int): (r: Result<TokenChunker, Error>)
    ensures r.Ok? <==> 0 < chunkSize && 0 <= chunkOverlap < chunkSize
    ensures r.Ok? ==> && r.value.Valid()
                      && r.value.tokenizer == tokenizer
                      && r.value.chunkSize == chunkSize
                      && r.value.chunkOverlap == chunkOverlap
    ensures chunkSize <= 0 ==> r == Err(ChunkSizeNotPositive(chunkSize))
    ensures 0 < chunkSize && chunkOverlap < 0 ==> r == Err(NegativeOverlap(chunkOverlap))
    ensures 0 < chunkSize <= chunkOverlap ==> r == Err(OverlapNotBelowSize(chunkSize, chunkOverlap))
  {
    if chunkSize <= 0 then Err(ChunkSizeNotPositive(chunkSize))
    else if chunkOverlap < 0 then Err(NegativeOverlap(chunkOverlap))
    else if chunkOverlap >= chunkSize then Err(OverlapNotBelowSize(chunkSize, chunkOverlap))
    else Ok(TokenChunker(tokenizer, chunkSize, chunkOverlap))
  }

  // ---------------------------------------------------------------------------
  // Properties of `Chunks`

  /** A chunk that `Locates` its window passes the index check. */
  lemma LocatedPassesIndexCheck(c: ChunkRecord, original: string, windowText: string, tokenCount: nat)
    requires Locates(c, original, windowText, tokenCount)
    ensures Strip(Slice(original, c.startIndex, c.endIndex)) == Strip(c.text)
  {
    assert Slice(original, c.startIndex, c.endIndex) == Strip(windowText);
    StripIdempotent(windowText);
  }

  /** The chunks correspond one to one to the token windows, and the windows stitch back to all the tokens. */
  lemma ChunksFollowWindows(c: TokenChunker, text: string)
    requires c.Valid() && text != "" && c.Chunks(text).Ok?
    ensures var tokens := c.tokenizer.encode(text);
            var ws := Windows(tokens, c.chunkSize, c.chunkOverlap);
            var cs := c.Chunks(text).value;
            && |cs| == |ws|
            && (forall k :: 0 <= k < |cs| ==> cs[k].text == c.tokenizer.decode(ws[k]) && cs[k].tokenCount == |ws[k]|)
            && Stitch(ws, c.chunkOverlap) == tokens
  {
    var tokens := c.tokenizer.encode(text);
    LocateLength(text, c.tokenizer.decode, tokens, c.chunkSize, c.chunkOverlap, 0, 0);
    LocateEach(text, c.tokenizer.decode, tokens, c.chunkSize, c.chunkOverlap, 0, 0);
    WindowsCover(tokens, c.chunkSize, c.chunkOverlap);
    var ws := Windows(tokens, c.chunkSize, c.chunkOverlap);
    var cs := c.Chunks(text).value;
    forall k | 0 <= k < |cs| ensures cs[k].text == c.tokenizer.decode(ws[k]) && cs[k].tokenCount == |ws[k]| {
      ChunkCarriesWindow(cs, text, c.tokenizer.decode, ws, k);
    }
  }

  /** All chunks but the last are full, so consecutive chunks share exactly `chunkOverlap` tokens. */
  lemma ChunksFullExceptLast(c: TokenChunker, text: string, k: nat)
    requires c.Valid() && text != "" && c.Chunks(text).Ok?
    requires k + 1 < |c.Chunks(text).value|
    ensures var ws := Windows(c.tokenizer.encode(text), c.chunkSize, c.chunkOverlap);
            && |ws| == |c.Chunks(text).value|
            && c.Chunks(text).value[k].tokenCount == |ws[k]| == c.chunkSize
            && c.chunkOverlap < |ws[k + 1]|
            && ws[k][c.chunkSize - c.chunkOverlap..] == ws[k + 1][..c.chunkOverlap]
  {
    var tokens := c.tokenizer.encode(text);
    var ws := Windows(tokens, c.chunkSize, c.chunkOverlap);
    var cs := c.Chunks(text).value;
    assert |ws| == |cs| by {
      LocateLength(text, c.tokenizer.decode, tokens, c.chunkSize, c.chunkOverlap, 0, 0);
    }
    assert cs[k].tokenCount == |ws[k]| by {
      LocateEach(text, c.tokenizer.decode, tokens, c.chunkSize, c.chunkOverlap, 0, 0);
      ChunkCarriesWindow(cs, text, c.tokenizer.decode, ws, k);
    }
    assert |ws[k]| == c.chunkSize && c.chunkOverlap < |ws[k + 1]| by {
      WindowsOverlap(tokens, c.chunkSize, c.chunkOverlap, 0, k);
    }
    assert ws[k][c.chunkSize - c.chunkOverlap..] == ws[k + 1][..c.chunkOverlap] by {
      WindowsOverlap(tokens, c.chunkSize, c.chunkOverlap, 0, k);
    }
  }

  /** More tokens than one window holds give more than one chunk. */
  lemma ChunksSplitLongInput(c: TokenChunker, text: string)
    requires c.Valid() && text != "" && c.Chunks(text).Ok?
    requires |c.tokenizer.encode(text)| > c.chunkSize
    ensures |c.Chunks(text).value| >= 2
  {
    var tokens := c.tokenizer.encode(text);
    var ws := Windows(tokens, c.chunkSize, c.chunkOverlap);
    assert ws == [tokens[..c.chunkSize]] + WindowsFrom(tokens, c.chunkSize, c.chunkOverlap, c.chunkSize - c.chunkOverlap);
    LocateLength(text, c.tokenizer.decode, tokens, c.chunkSize, c.chunkOverlap, 0, 0);
  }

  /** The properties the test suite asserts of every successful `chunk` call. */
  lemma ChunkFacts(c: TokenChunker, text: string)
    requires c.Valid()
    ensures text == "" ==> c.Chunks(text) == Ok([])
    ensures c.tokenizer.encode(text) == [] ==> c.Chunks(text) == Ok([])
    ensures c.Chunks(text).Ok? ==> CountsBounded(c.Chunks(text).value, c.chunkSize)
    ensures c.Chunks(text).Ok? ==> IndicesVerified(c.Chunks(text).value, text)
    ensures c.Chunks(text).Ok? ==> StartsIncreasing(c.Chunks(text).value)
    ensures c.Chunks(text).Ok? && text != "" && c.tokenizer.encode(text) != [] ==> |c.Chunks(text).value| > 0
    ensures c.Chunks(text).Ok? <==> c.Locatable(text)
  {
    ChunksSucceedExactly(c, text);
    if text != "" && c.Chunks(text).Ok? {
      var ws := Windows(c.tokenizer.encode(text), c.chunkSize, c.chunkOverlap);
      var cs := c.Chunks(text).value;
      var tokens := c.tokenizer.encode(text);
      LocateLength(text, c.tokenizer.decode, tokens, c.chunkSize, c.chunkOverlap, 0, 0);
      LocateEach(text, c.tokenizer.decode, tokens, c.chunkSize, c.chunkOverlap, 0, 0);
      LocateIncreasing(text, c.tokenizer.decode, tokens, c.chunkSize, c.chunkOverlap, 0, 0);
      forall k | 0 <= k < |cs|
        ensures 0 < cs[k].tokenCount <= c.chunkSize
        ensures Strip(Slice(text, cs[k].startIndex, cs[k].endIndex)) == Strip(cs[k].text)
      {
        ChunksLocateAt(cs, text, c.tokenizer.decode, ws, k);
        LocatedPassesIndexCheck(cs[k], text, c.tokenizer.decode(ws[k]), |ws[k]|);
      }
    }
  }

  /**
    `chunk` succeeds exactly when the windows' stripped texts occur in the
    text at strictly increasing positions.
  */
  lemma ChunksSucceedExactly(c: TokenChunker, text: string)
    requires c.Valid()
    ensures c.Chunks(text).Ok? <==> c.Locatable(text)
  {
    if text != "" {
      var tokens := c.tokenizer.encode(text);
      var ws := Windows(tokens, c.chunkSize, c.chunkOverlap);
      if c.Chunks(text).Ok? {
        LocatePlaced(text, c.tokenizer.decode, tokens, c.chunkSize, c.chunkOverlap, 0, 0);
        assert PlacedInOrder(text, c.tokenizer.decode, ws, Starts(c.Chunks(text).value), 0);
      }
      if c.Locatable(text) {
        var qs :| PlacedInOrder(text, c.tokenizer.decode, ws, qs, 0);
        LocateSucceeds(text, c.tokenizer.decode, tokens, c.chunkSize, c.chunkOverlap, 0, 0, qs);
      }
    }
  }

  /**
    Input of at most `chunkSize` tokens is one chunk holding all of them,
    provided the decoded text, up to whitespace at its ends, is the input.
  */
  lemma SingleChunk(c: TokenChunker, text: string, pre: string, post: string)
    requires c.Valid() && text != ""
    requires 0 < |c.tokenizer.encode(text)| <= c.chunkSize
    requires c.tokenizer.decode(c.tokenizer.encode(text)) == pre + text + post
    requires AllSpace(pre) && AllSpace(post)
    ensures c.Chunks(text).Ok? && |c.Chunks(text).value| == 1
    ensures var chunk := c.Chunks(text).value[0];
            && chunk.text == pre + text + post
            && chunk.tokenCount == |c.tokenizer.encode(text)|
            && chunk.startIndex <= chunk.endIndex <= |text|
            && text[chunk.startIndex..chunk.endIndex] == Strip(text)
  {
    var tokens := c.tokenizer.encode(text);
    var decoded := pre + text + post;
    assert WindowAtStart(tokens, c.chunkSize, 0) == tokens;
    StripIgnoresPadding(pre, text, post);
    StripOccurs(text);
    LocateWindowLocates(text, decoded, |tokens|, 0);
    LocateWindowFirst(text, decoded, |tokens|, 0);
  }

  /**
    When decoding gives back exactly the input and the input has no
    whitespace at its ends, its single chunk spans the whole input.
  */
  lemma ExactSingleChunk(c: TokenChunker, text: string)
    requires c.Valid() && text != "" && IsStripped(text)
    requires 0 < |c.tokenizer.encode(text)| <= c.chunkSize
    requires c.tokenizer.decode(c.tokenizer.encode(text)) == text
    ensures c.Chunks(text) == Ok([ChunkRecord(text, 0, |text|, |c.tokenizer.encode(text)|)])
  {
    var tokens := c.tokenizer.encode(text);
    assert WindowAtStart(tokens, c.chunkSize, 0) == tokens;
    StrippedIsFixed(text);
    assert text[0..|text|] == text;
    assert Find(text, text, 0) == Some(0);
  }

  // ---------------------------------------------------------------------------
  // The identity string

  /** Equal identity strings mean equal sizing policies. */
  lemma ReprIdentifiesPolicy(c: TokenChunker, d: TokenChunker)
    requires c.Repr() == d.Repr()
    ensures c.chunkSize == d.chunkSize && c.chunkOverlap == d.chunkOverlap
  {
    var head, mid := "TokenChunker(chunk_size=", ", chunk_overlap=";
    var x, y := DecimalString(c.chunkSize), DecimalString(d.chunkSize);
    var u, v := DecimalString(c.chunkOverlap), DecimalString(d.chunkOverlap);
    var restC, restD := mid + (u + ")"), mid + (v + ")");
    ReprShape(c);
    ReprShape(d);
    PrefixCancel(head, x + restC, y + restD);
    DigitRunUnique(x, restC, y, restD);
    PrefixCancel(mid, u + ")", v + ")");
    DigitRunUnique(u, ")", v, ")");
    DecimalInjective(c.chunkSize, d.chunkSize);
    DecimalInjective(c.chunkOverlap, d.chunkOverlap);
  }

  /** The identity string as its fixed head followed by the two decimal renderings and their separators. */
  lemma ReprShape(c: TokenChunker)
    ensures c.Repr() == "TokenChunker(chunk_size=" + (DecimalString(c.chunkSize) + (", chunk_overlap=" + (DecimalString(c.chunkOverlap) + ")")))
  {
    var x, u := DecimalString(c.chunkSize), DecimalString(c.chunkOverlap);
    var head, mid := "TokenChunker(chunk_size=", ", chunk_overlap=";
    assert c.Repr() == head + x + mid + u + ")";
    assert head + x + mid + u + ")" == head + (x + (mid + (u + ")")));
  }

  lemma PrefixCancel(h: string, x: string, y: string)
    requires h + x == h + y
    ensures x == y
  {
    assert x == (h + x)[|h|..];
    assert y == (h + y)[|h|..];
  }

  // ---------------------------------------------------------------------------
  // The scenarios of the test suite, with the tokenizer's behaviour as hypotheses

  /** A chunker built with size 512 and overlap 128 identifies itself with exactly those numbers. */
  lemma ReprOfDefaultPolicy(tokenizer: Tokenizer)
    ensures Create(tokenizer, 512, 128).Ok?
    ensures Create(tokenizer, 512, 128).value.Repr() == "TokenChunker(chunk_size=512, chunk_overlap=128)"
  {
    assert DecimalString(51) == "51" by { assert DecimalString(5) == "5"; }
    assert DecimalString(512) == "512";
    assert DecimalString(12) == "12" by { assert DecimalString(1) == "1"; }
    assert DecimalString(128) == "128";
  }

  /** "Hello", encoded to one token that decodes back to it, is one chunk of one token spanning the whole word. */
  lemma HelloIsOneChunk(tokenizer: Tokenizer)
    requires |tokenizer.encode("Hello")| == 1
    requires tokenizer.decode(tokenizer.encode("Hello")) == "Hello"
    ensures Create(tokenizer, 512, 128).Ok?
    ensures Create(tokenizer, 512, 128).value.Chunks("Hello") == Ok([ChunkRecord("Hello", 0, 5, 1)])
  {
    ExactSingleChunk(Create(tokenizer, 512, 128).value, "Hello");
  }

  /** "Hello, how are you?", encoded to six tokens that decode back to it, is one chunk of six tokens. */
  lemma GreetingIsOneChunk(tokenizer: Tokenizer)
    requires |tokenizer.encode("Hello, how are you?")| == 6
    requires tokenizer.decode(tokenizer.encode("Hello, how are you?")) == "Hello, how are you?"
    ensures Create(tokenizer, 512, 128).Ok?
    ensures Create(tokenizer, 512, 128).value.Chunks("Hello, how are you?") == Ok([ChunkRecord("Hello, how are you?", 0, 19, 6)])
  {
    ExactSingleChunk(Create(tokenizer, 512, 128).value, "Hello, how are you?");
  }

  /**
    A stride of whitespace only: " ab" as the tokens " ", "a", "b", with
    windows of two tokens overlapping by one. The first window's text is
    found at 1, the second window's text "ab" starts there too, and the
    search for it from 2 fails.
  */
  lemma WhitespaceStrideFails(tokenizer: Tokenizer)
    requires tokenizer.encode(" ab") == [0, 1, 2]
    requires tokenizer.decode([0, 1]) == " a" && tokenizer.decode([1, 2]) == "ab"
    ensures Create(tokenizer, 2, 1).Ok?
    ensures Create(tokenizer, 2, 1).value.Chunks(" ab") == Err(OffsetNotFound("ab", 2))
  {
    var tokens := [0, 1, 2];
    assert WindowAtStart(tokens, 2, 0) == [0, 1];
    assert WindowAtStart(tokens, 2, 1) == [1, 2];
    assert Strip(" a") == "a" by {
      assert StripSpan(" a") == (1, 2);
    }
    assert Strip("ab") == "ab" by {
      assert StripSpan("ab") == (0, 2);
    }
    assert Find(" ab", "a", 0) == Some(1) by {
      assert " ab"[0..1] != "a";
      assert " ab"[1..2] == "a";
    }
    assert Find(" ab", "ab", 2) == None;
  }

  /**
    Without overlap, a later chunk can still land inside the previous
    chunk's span, because the search starts one past the previous start:
    "aaa" as the tokens "aa", "a", with windows of one token, gives the
    spans [0, 2) and [1, 2), and the last chunk ends before the text does,
    although the decoded windows concatenate to the text.
  */
  lemma ZeroOverlapNested(tokenizer: Tokenizer)
    requires tokenizer.encode("aaa") == [0, 1]
    requires tokenizer.decode([0]) == "aa" && tokenizer.decode([1]) == "a"
    ensures Create(tokenizer, 1, 0).Ok?
    ensures Create(tokenizer, 1, 0).value.Chunks("aaa") == Ok([ChunkRecord("aa", 0, 2, 1), ChunkRecord("a", 1, 2, 1)])
  {
    var tokens := [0, 1];
    assert WindowAtStart(tokens, 1, 0) == [0];
    assert WindowAtStart(tokens, 1, 1) == [1];
    assert Strip("aa") == "aa" by {
      assert StripSpan("aa") == (0, 2);
    }
    assert Strip("a") == "a" by {
      assert StripSpan("a") == (0, 1);
    }
    assert Find("aaa", "aa", 0) == Some(0) by {
      assert "aaa"[0..2] == "aa";
    }
    assert Find("aaa", "a", 1) == Some(1) by {
      assert "aaa"[1..2] == "a";
    }
    var decode := tokenizer.decode;
    assert LocateWindow("aaa", "aa", 1, 0) == Ok(ChunkRecord("aa", 0, 2, 1));
    assert LocateWindow("aaa", "a", 1, 1) == Ok(ChunkRecord("a", 1, 2, 1));
    assert LocateFrom("aaa", decode, tokens, 1, 0, 1, 1) == Ok([ChunkRecord("a", 1, 2, 1)]);
    assert [ChunkRecord("aa", 0, 2, 1)] + [ChunkRecord("a", 1, 2, 1)] == [ChunkRecord("aa", 0, 2, 1), ChunkRecord("a", 1, 2, 1)];
    assert LocateFrom("aaa", decode, tokens, 1, 0, 0, 0)
        == Prefixed([ChunkRecord("aa", 0, 2, 1)], LocateFrom("aaa", decode, tokens, 1, 0, 1, 1));
  }
}
