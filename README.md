# TokenChunker, modelled in Dafny

This project models chonkie's `TokenChunker` as its test suite
(`tests/chunker/test_token_chunker.py`) pins it down, and proves
properties of that model.

A chunker is built from a tokenizer, a window size `chunk_size` and an
overlap `chunk_overlap`. `chunk(text)` works in four steps:

1. It encodes the text to token ids.
2. It cuts the ids into windows of at most `chunk_size` tokens. Window
   starts are `chunk_size - chunk_overlap` apart.
3. It decodes each window.
4. It finds each decoded window in the original text, which gives the
   chunk's character span.

Each window becomes a `Chunk(text, start_index, end_index, token_count)`,
the datatype `ChunkRecord` in the model.
`chunk_batch` chunks a list of texts, and calling the chunker is the same
as `chunk`.

The tokenizer is a pair of arbitrary total functions `encode` and `decode`.

The project has four modules:

- `Wrappers` (`wrappers.dfy`): `Option` and `Result`.
- `Text` (`text.dfy`):
  - Python's `str.strip()`, with `str.isspace()` written out character by character.
  - `str.find(sub, start)`.
  - The decimal rendering `str(n)` used by `repr`.
- `Windowing` (`windows.dfy`): the token windows as pure functions over
  `seq<int>`, with their bounds, overlap, coverage and last-window lemmas.
- `TokenChunking` (`chunker.dfy`):
  - The `ChunkRecord`, `Tokenizer`, `Error` and `TokenChunker` datatypes.
  - `Create`, the checked constructor.
  - The chunking loop as a method `TokenChunker.LocateWindows`, proved
    against the recursive specification `LocateFrom`.
  - `chunk`, `__call__`, `chunk_batch` and `__repr__`.
  - The test suite's index check `verify_chunk_indices`, as the predicate
    `IndicesVerified`.

The chunker's settings never change after construction, so `TokenChunker`
is a datatype with a `Valid()` predicate. Its methods change no state.

How the model decides the points the test suite leaves open:

- **Empty text.** The empty text gives no chunks. It is not encoded.
- **Search needle.** Each decoded window is trimmed of whitespace at both
  ends (`Strip`) before it is searched for. The chunk's span is where the
  trimmed text occurs. The chunk's `text` is the decoded text, untrimmed.
- **Search start.** The search for a window starts one character after the
  previous chunk's `start_index`. The first window is searched for from 0.
  This holds at every overlap, including 0. Searching from the previous
  chunk's `end_index` instead cannot work with a positive overlap: the next window
  repeats the previous window's last `chunk_overlap` tokens, so its text
  begins before the previous chunk ends. A search from `end_index` would
  not find that occurrence, and would fail or settle on a later repeat of
  the text. The model therefore uses the previous start plus one, which
  makes start indices strictly increase. This anchor can still fail: when
  the tokens between two window starts decode to whitespace only, the
  next window's stripped text may begin where the previous one was found,
  and the search one character later misses it (`WhitespaceStrideFails`).
  The anchor also lets a chunk land inside the previous chunk's span when
  the text repeats, even without overlap and with exact decoding
  (`ZeroOverlapNested`).
  `chunk` succeeds exactly when the windows' stripped texts can be placed
  in the text at strictly increasing positions (`Locatable`).
- **Failed search.** A window whose trimmed text is not found makes the
  whole call fail with `OffsetNotFound`. The call does not return a made-up
  span.
- **Last window.** Windowing stops after the first window that reaches the
  end of the token sequence. No window lies wholly inside the previous one.
- **Batch failure.** `chunk_batch` stops at the first text whose chunking
  fails. The error is `BatchItemFailed(index, cause)`.

## Model

| member | source | states |
|---|---|---|
| TokenChunking.Create | tests/chunker/test_token_chunker.py:37-46 | construction succeeds exactly when `0 < chunk_size` and `0 <= chunk_overlap < chunk_size`; the chunker then holds the given tokenizer, size and overlap unchanged; otherwise the error is, checked in this order, `ChunkSizeNotPositive(size)`, `NegativeOverlap(overlap)` or `OverlapNotBelowSize(size, overlap)` |
| TokenChunking.TokenChunker.Chunk | tests/chunker/test_token_chunker.py:75-88 | `chunk(text)`: the result is `Chunks(text)`; it succeeds exactly when the text is `Locatable`; empty text gives no chunks; every chunk has `0 < token_count <= chunk_size`; every chunk passes the index check; start indices strictly increase; a non-empty text that encodes to at least one token gives at least one chunk |
| TokenChunking.TokenChunker.LocateWindows | tests/chunker/test_token_chunker.py:79-80 | the chunking loop: stepping the token start by `chunk_size - chunk_overlap`, decoding and locating each window, stopping after the window that reaches the end or at the first window not found, computes exactly `LocateFrom` from start 0 |
| TokenChunking.TokenChunker.Call | tests/chunker/test_token_chunker.py:185-198 | calling the chunker gives the same result as `chunk` |
| TokenChunking.TokenChunker.ChunkBatch | tests/chunker/test_token_chunker.py:159-173 | `chunk_batch` succeeds exactly when every text chunks, that is, exactly when every text is `Locatable`; it then returns one chunk list per text, in order, each equal to `chunk` of that text, each with `0 < token_count <= chunk_size` and non-empty for non-empty input that encodes to tokens; on failure it names the first failing index and that text's error |
| TokenChunking.ChunkFacts | tests/chunker/test_token_chunker.py:80-85 | the facts the suite asserts of every successful `chunk` call, for every text and every tokenizer: empty text or no tokens gives no chunks, token counts are bounded, the index check holds, start indices increase, and tokens give at least one chunk; the call succeeds exactly when the text is `Locatable` |
| TokenChunking.ChunksSucceedExactly | tests/chunker/test_token_chunker.py:79-82 | `chunk` succeeds exactly when the windows' stripped texts occur in the text at strictly increasing positions |
| TokenChunking.LocateSucceeds | tests/chunker/test_token_chunker.py:79-82 | if the windows' stripped texts occur at increasing positions from the search start on, every search succeeds |
| TokenChunking.LocatePlaced | tests/chunker/test_token_chunker.py:200-204 | a successful chunking places each window's stripped text at its chunk's start index, in increasing order from the search start |
| TokenChunking.WhitespaceStrideFails | tests/chunker/test_token_chunker.py:79-82 | `" ab"` tokenized as `" "`, `"a"`, `"b"` with size 2 and overlap 1 fails with `OffsetNotFound("ab", 2)`: a stride that decodes to whitespace only defeats the search anchor |
| TokenChunking.ZeroOverlapNested | tests/chunker/test_token_chunker.py:79-80 | `"aaa"` tokenized as `"aa"`, `"a"` with size 1 and overlap 0 gives the chunks `("aa", 0, 2, 1)` and `("a", 1, 2, 1)`: the second span lies inside the first and the last chunk ends before the text |
| TokenChunking.IndicesVerified | tests/chunker/test_token_chunker.py:200-209 | the index check holds exactly when, for every chunk, the original sliced by the chunk's span and stripped equals the chunk's text stripped |
| TokenChunking.Slice | tests/chunker/test_token_chunker.py:204 | Python's clamping slice: never longer than the string, the exact sub-sequence for in-range bounds, and empty when the bounds are crossed or start past the end |
| TokenChunking.LocatedPassesIndexCheck | tests/chunker/test_token_chunker.py:200-214 | a chunk whose span holds its window's stripped text passes `verify_chunk_indices`: the span sliced from the original and stripped equals the chunk's text stripped |
| TokenChunking.LocateWindowLocates | tests/chunker/test_token_chunker.py:200-204 | a located window keeps the decoded text and token count, has a span inside the original at or after the search start, and the span holds the stripped decoded text; a failure is `OffsetNotFound` for that text and start |
| TokenChunking.LocateWindowFirst | tests/chunker/test_token_chunker.py:200-204 | the span found is the first occurrence of the stripped text at or after the search start, and the search fails exactly when there is no occurrence |
| TokenChunking.LocateLength | tests/chunker/test_token_chunker.py:80-82 | a successful chunking has exactly one chunk per token window |
| TokenChunking.LocateEach | tests/chunker/test_token_chunker.py:84-88 | each chunk carries the decoded text and token count of the window at the same position, and its span holds that text stripped |
| TokenChunking.LocateFirst | tests/chunker/test_token_chunker.py:200-204 | the first chunk starts no earlier than the search start |
| TokenChunking.LocateIncreasing | tests/chunker/test_token_chunker.py:200-204 | the start indices of a successful chunking strictly increase |
| TokenChunking.LocateFails | tests/chunker/test_token_chunker.py:75-80 | a failing chunking fails only because a window's text was not found, never with a configuration error |
| TokenChunking.ChunksFollowWindows | tests/chunker/test_token_chunker.py:84-86 | on success, chunks correspond one to one to the token windows, each chunk's text is its window decoded and its count is the window's length, and the windows stitch back to exactly the encoded tokens |
| TokenChunking.ChunksFullExceptLast | tests/chunker/test_token_chunker.py:79-84 | on success, every chunk but the last holds exactly `chunk_size` tokens, and consecutive windows share exactly `chunk_overlap` tokens |
| TokenChunking.ChunksSplitLongInput | tests/chunker/test_token_chunker.py:79-82 | a successful chunking of more than `chunk_size` tokens has at least two chunks |
| TokenChunking.SingleChunk | tests/chunker/test_token_chunker.py:135-156 | input of at most `chunk_size` tokens, decoding to itself up to whitespace at its ends, is exactly one chunk holding the decoded text and all the tokens; its span is the input stripped |
| TokenChunking.ExactSingleChunk | tests/chunker/test_token_chunker.py:135-156 | input of at most `chunk_size` tokens, with no whitespace at its ends and decoding to itself exactly, is the one chunk `(text, 0, len(text), token count)` |
| TokenChunking.HelloIsOneChunk | tests/chunker/test_token_chunker.py:135-144 | with a tokenizer that encodes "Hello" to one token and decodes it back, a (512, 128) chunker gives the one chunk `("Hello", 0, 5, 1)` |
| TokenChunking.GreetingIsOneChunk | tests/chunker/test_token_chunker.py:147-156 | with a tokenizer that encodes "Hello, how are you?" to six tokens and decodes them back, a (512, 128) chunker gives the one chunk `("Hello, how are you?", 0, 19, 6)` |
| TokenChunking.ReprOfDefaultPolicy | tests/chunker/test_token_chunker.py:176-182 | a chunker built with size 512 and overlap 128 has the identity string `TokenChunker(chunk_size=512, chunk_overlap=128)` |
| TokenChunking.TokenChunker.Repr | tests/chunker/test_token_chunker.py:182 | the identity string starts with `TokenChunker(chunk_size=`, ends with `)` and is longer than the fixed text around the two numbers |
| TokenChunking.ReprIdentifiesPolicy | tests/chunker/test_token_chunker.py:176-182 | two chunkers with equal identity strings have equal size and equal overlap |
| Windowing.WindowsFrom | tests/chunker/test_token_chunker.py:84-85 | every window holds between 1 and `size` tokens, and there is a window exactly when tokens remain |
| Windowing.WindowAt | tests/chunker/test_token_chunker.py:79-84 | window `k` is `tokens[start + k*stride .. min(start + k*stride + size, N)]` and starts inside the tokens |
| Windowing.WindowsOverlap | tests/chunker/test_token_chunker.py:79-84 | every window but the last is full, and each window's last `overlap` tokens are the next window's first `overlap` |
| Windowing.LastWindowReachesEnd | tests/chunker/test_token_chunker.py:79-84 | the last window ends at the end of the tokens |
| Windowing.StitchWindows | tests/chunker/test_token_chunker.py:79-84 | the windows, with each later window's shared overlap dropped, concatenate to exactly the tokens from the start index on |
| Windowing.WindowsCover | tests/chunker/test_token_chunker.py:79-84 | the windows stitch back to exactly the encoded tokens |
| Windowing.SingleWindow | tests/chunker/test_token_chunker.py:135-156 | the windows are the single window of all tokens exactly when there are between 1 and `size` tokens |
| Text.Strip | tests/chunker/test_token_chunker.py:206-207 | stripping never lengthens a string; `StripSpanSound` and `StripUnique` characterise what it keeps |
| Text.StripSpanSound | tests/chunker/test_token_chunker.py:206-207 | only whitespace lies outside the kept span, and a non-empty span starts and ends with non-whitespace |
| Text.StripIsStripped | tests/chunker/test_token_chunker.py:206-207 | a stripped string neither starts nor ends with whitespace |
| Text.StripUnique | tests/chunker/test_token_chunker.py:206-207 | any span with only whitespace outside it and non-whitespace at both of its ends is what `strip()` keeps |
| Text.StripIdempotent | tests/chunker/test_token_chunker.py:206-207 | stripping twice is stripping once |
| Text.StrippedIsFixed | tests/chunker/test_token_chunker.py:206-207 | a string with no whitespace at its ends is its own strip |
| Text.StripIgnoresPadding | tests/chunker/test_token_chunker.py:205-207 | whitespace added around a text does not change its strip |
| Text.SkipSpacesSound | tests/chunker/test_token_chunker.py:206-207 | the forward scan passes only whitespace and stops at non-whitespace or the end |
| Text.SkipSpacesBackSound | tests/chunker/test_token_chunker.py:206-207 | the backward scan passes only whitespace and stops after non-whitespace or at the lower bound |
| Text.FindSound | tests/chunker/test_token_chunker.py:200-204 | the search returns the first occurrence at or after the start index, and nothing exactly when there is no occurrence there |
| Text.DecimalString | tests/chunker/test_token_chunker.py:182 | a number's decimal rendering is a non-empty run of digits |
| Text.DecimalRoundTrip | tests/chunker/test_token_chunker.py:182 | reading back the decimal rendering of `n` gives `n` |
| Text.DecimalInjective | tests/chunker/test_token_chunker.py:182 | different numbers have different decimal renderings |
| Text.DigitRunUnique | tests/chunker/test_token_chunker.py:182 | a digit run followed by a non-digit splits a string in only one way |

## Left out

- The chonkie module that the suite imports (`from chonkie import Chunk, TokenChunker`) is not part of this model. The chunking algorithm is encode, cut into overlapping windows, decode and locate, constrained by what the suite asserts. The decisions above fill the gaps.
- Tokenizer engines are not modelled: `AutoTokenizer.from_pretrained`, `tiktoken.get_encoding` and `Tokenizer.from_pretrained` (lines 11-23). They are foreign libraries with vocabularies. `encode` and `decode` are arbitrary total functions.
- Exact GPT-2 token counts are not modelled. The one token of "Hello" and the six of "Hello, how are you?" appear only as hypotheses, in `HelloIsOneChunk` and `GreetingIsOneChunk`.
- Errors raised inside the tokenizer are not modelled. They are foreign calls.
- The sample paragraph (lines 26-29) is not modelled. It matters only through its token count. `ChunkFacts` holds for every text.
- Dataset loading with `load_dataset` (lines 31-34) is not modelled, because it is I/O. `ChunkBatch` takes any list of texts.
- The `type(...) is Chunk` and `is not None` assertions are not modelled. They hold by typing.
- The pytest runner and the failure messages (lines 209-214, 223-224) are not modelled.
- Batched or pipelined encoding and decoding for throughput are not modelled. `chunk_batch` is a sequential loop over `chunk`.
- `__call__` on a list of texts is not modelled. The suite calls it only on one string.
- TokenChunking.TokenChunker.Chunk: does not promise that the last chunk ends at the end of the text, and does not promise that a chunk's span starts after the previous chunk's span ends. Only the token windows are proved to reach the end (`Windowing.LastWindowReachesEnd`). Decoding may change the text. Even with exact decoding, a search starting one past the previous start can find a repeat inside the previous chunk: `"aaa"` as `"aa"`, `"a"` with size 1 and overlap 0 gives the spans `[0, 2)` and `[1, 2)` (`ZeroOverlapNested`).
- TokenChunking.TokenChunker.Chunk: the search start is the previous chunk's `start_index` plus one, not its `end_index`, at every overlap, including 0. A search from `end_index` cannot find the next window's text when windows overlap, because that text begins inside the previous chunk. Without overlap a search from `end_index` would avoid the nesting above, but the model keeps one rule for all overlaps.
- TokenChunking.TokenChunker.Chunk: does not succeed on every input. It fails with `OffsetNotFound` when the tokens between two window starts decode to whitespace only and the next window's stripped text begins where the previous one was found, e.g. `" ab"` as `" "`, `"a"`, `"b"` with size 2 and overlap 1 (`WhitespaceStrideFails`). Success is characterised exactly, as `Locatable` (`ChunksSucceedExactly`).
- TokenChunking.TokenChunker.ChunkBatch: the suite's non-empty result is promised only for texts that are `Locatable`, because `chunk` fails on the others.
- TokenChunking.ChunkFacts: the facts are stated for successful calls, and success holds exactly for `Locatable` texts; the suite's sample text is not modelled, so that it is `Locatable` is not proved.
- Text.Find: carries no `ensures` of its own; its meaning is stated by `FindSound`, which every caller uses.
