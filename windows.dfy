/**
  The token windowing of the chunker: a flat token-id sequence is cut into
  windows of at most `size` tokens whose start indices are `size - overlap`
  apart, the last window being the first one whose right edge reaches the
  end of the sequence.
*/
module Windowing {

  /**
    The windows `tokens[start + k * stride .. min(start + k * stride + size, |tokens|)]`
    for `k = 0, 1, ...`, where `stride = size - overlap`, stopping after the
    window that ends at `|tokens|`.
  */
  function WindowsFrom(tokens: seq<int>, size: nat, overlap: nat, start: nat): (ws: seq<seq<int>>)
    requires overlap < size
    ensures forall k :: 0 <= k < |ws| ==> 0 < |ws[k]| <= size
    ensures |ws| > 0 <==> start < |tokens|
    decreases |tokens| - start
  {
    if start >= |tokens| then []
    else if start + size >= |tokens| then [tokens[start..]]
    else [tokens[start..start + size]] + WindowsFrom(tokens, size, overlap, start + size - overlap)
  }

  /** All windows of a token sequence. */
  function Windows(tokens: seq<int>, size: nat, overlap: nat): seq<seq<int>>
    requires overlap < size
  {
    WindowsFrom(tokens, size, overlap, 0)
  }

  /** `w` without its first `n` tokens (all of them if it is shorter). */
  function Drop(w: seq<int>, n: nat): seq<int> {
    if n <= |w| then w[n..] else []
  }

  /** The windows after the first, each with its leading overlap removed, laid end to end. */
  function Tails(ws: seq<seq<int>>, overlap: nat): seq<int> {
    if ws == [] then [] else Drop(ws[0], overlap) + Tails(ws[1..], overlap)
  }

  /**
    Reassembles a token sequence from its windows: the first window whole,
    then every later window without the tokens it shares with its predecessor.
  */
  function Stitch(ws: seq<seq<int>>, overlap: nat): seq<int> {
    if ws == [] then [] else ws[0] + Tails(ws[1..], overlap)
  }

  /** Token index at which window `k` starts: `k` strides after `start`. */
  function WindowStart(start: nat, size: nat, overlap: nat, k: nat): nat
    requires overlap < size
  {
    start + k * (size - overlap)
  }

  lemma NextWindowStart(start: nat, size: nat, overlap: nat, k: nat)
    requires overlap < size && k > 0
    ensures WindowStart(start, size, overlap, k) == WindowStart(start + size - overlap, size, overlap, k - 1)
  {
    var stride := size - overlap;
    assert k * stride == (k - 1) * stride + stride;
  }

  /** Window `k` starts `k` strides after `start` and is cut off at `size` tokens or at the end. */
  lemma {:induction false} WindowAt(tokens: seq<int>, size: nat, overlap: nat, start: nat, k: nat)
    requires overlap < size
    requires k < |WindowsFrom(tokens, size, overlap, start)|
    ensures var lo := WindowStart(start, size, overlap, k);
            var hi := if lo + size < |tokens| then lo + size else |tokens|;
            lo < |tokens| && WindowsFrom(tokens, size, overlap, start)[k] == tokens[lo..hi]
    decreases k
  {
    if k > 0 {
      var next := start + size - overlap;
      assert WindowsFrom(tokens, size, overlap, start)[k] == WindowsFrom(tokens, size, overlap, next)[k - 1];
      WindowAt(tokens, size, overlap, next, k - 1);
      NextWindowStart(start, size, overlap, k);
    } else {
      assert WindowStart(start, size, overlap, 0) == start;
    }
  }

  /**
    Every window except the last is full, and consecutive windows share
    exactly `overlap` tokens: the tail of one is the head of the next.
  */
  lemma {:induction false} WindowsOverlap(tokens: seq<int>, size: nat, overlap: nat, start: nat, k: nat)
    requires overlap < size
    requires k + 1 < |WindowsFrom(tokens, size, overlap, start)|
    ensures var ws := WindowsFrom(tokens, size, overlap, start);
            |ws[k]| == size && overlap < |ws[k + 1]| &&
            ws[k][size - overlap..] == ws[k + 1][..overlap]
    decreases k
  {
    var ws := WindowsFrom(tokens, size, overlap, start);
    var next := start + size - overlap;
    assert start + size < |tokens|;
    var rest := WindowsFrom(tokens, size, overlap, next);
    assert ws == [tokens[start..start + size]] + rest;
    if k > 0 {
      WindowsOverlap(tokens, size, overlap, next, k - 1);
      assert ws[k] == rest[k - 1] && ws[k + 1] == rest[k];
    } else {
      var hi := if next + size < |tokens| then next + size else |tokens|;
      assert rest[0] == tokens[next..hi];
      assert ws[0][size - overlap..] == tokens[next..start + size];
      assert rest[0][..overlap] == tokens[next..start + size];
    }
  }

  /** The last window ends at the end of the token sequence. */
  lemma {:induction false} LastWindowReachesEnd(tokens: seq<int>, size: nat, overlap: nat, start: nat)
    requires overlap < size
    requires start < |tokens|
    ensures var ws := WindowsFrom(tokens, size, overlap, start);
            |ws[|ws| - 1]| <= |tokens| &&
            ws[|ws| - 1] == tokens[|tokens| - |ws[|ws| - 1]|..]
    decreases |tokens| - start
  {
    if start + size < |tokens| {
      LastWindowReachesEnd(tokens, size, overlap, start + size - overlap);
    }
  }

  /** Stitching the windows back together gives the tokens: nothing dropped, nothing duplicated. */
  lemma {:induction false} StitchWindows(tokens: seq<int>, size: nat, overlap: nat, start: nat)
    requires overlap < size && start <= |tokens|
    ensures Stitch(WindowsFrom(tokens, size, overlap, start), overlap) == tokens[start..]
    decreases |tokens| - start
  {
    var ws := WindowsFrom(tokens, size, overlap, start);
    if start + size < |tokens| {
      var next := start + size - overlap;
      var rest := WindowsFrom(tokens, size, overlap, next);
      assert ws[1..] == rest;
      StitchWindows(tokens, size, overlap, next);
      // Stitch(rest) == tokens[next..]; dropping the first window's overlap drops `overlap` tokens of it.
      assert |rest[0]| > overlap;
      var later := Tails(rest[1..], overlap);
      assert Tails(rest, overlap) == rest[0][overlap..] + later;
      DropConcat(rest[0], later, overlap);
      assert Tails(rest, overlap) == tokens[next..][overlap..];
      assert tokens[next..][overlap..] == tokens[start + size..];
      assert tokens[start..start + size] + tokens[start + size..] == tokens[start..];
    } else if start < |tokens| {
      assert ws[1..] == [];
    }
  }

  lemma DropConcat(a: seq<int>, b: seq<int>, n: nat)
    requires n <= |a|
    ensures a[n..] + b == (a + b)[n..]
  {
  }

  /** The whole token sequence is recovered from its windows. */
  lemma WindowsCover(tokens: seq<int>, size: nat, overlap: nat)
    requires overlap < size
    ensures Stitch(Windows(tokens, size, overlap), overlap) == tokens
  {
    StitchWindows(tokens, size, overlap, 0);
  }

  /** The windows are a single window holding all tokens exactly when there are 1 to `size` tokens. */
  lemma SingleWindow(tokens: seq<int>, size: nat, overlap: nat)
    requires overlap < size
    ensures Windows(tokens, size, overlap) == [tokens] <==> 0 < |tokens| <= size
  {
    var ws := Windows(tokens, size, overlap);
    assert tokens[0..] == tokens;
    if size < |tokens| {
      assert |WindowsFrom(tokens, size, overlap, size - overlap)| > 0;
      assert |ws| >= 2;
    }
  }
}
