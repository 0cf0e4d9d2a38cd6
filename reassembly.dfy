/**
 * The inner token loop of `GPT3Client.generate`: the tokens of one streamed
 * chunk are walked in order with a one-slot buffer (`temp_token`,
 * `temp_prob`) that holds a `bytes:` fragment back until the next token
 * completes it. The machine below is the loop's state after each token;
 * `ReassembleChunk` is the loop itself.
 */
module Reassembly {

  import opened Wrappers
  import opened Text

  /** The marker of a raw byte fragment. */
  const BytesPrefix := "bytes:"

  /** The model's end-of-text token. */
  const EndOfText := "<|endoftext|>"

  /** A token as `generate` prints it: its text and the log-probability that colours it. */
  datatype Emitted = Emitted(text: string, logprob: real)

  /** `logprobs["tokens"]` and `logprobs["token_logprobs"]` of one chunk. */
  datatype Frame = Frame(tokens: seq<string>, logprobs: seq<real>)

  /** The two arrays are index-aligned. */
  type AlignedFrame = f: Frame | |f.tokens| == |f.logprobs| witness Frame([], [])

  /**
   * The loop's variables after some tokens: `pending` is `temp_token`,
   * `pendingLogprob` is `temp_prob`, `emitted` what was printed, `halted`
   * whether the loop has broken out.
   */
  datatype Machine = Machine(pending: Option<string>, pendingLogprob: real,
                             emitted: seq<Emitted>, halted: bool)

  /** The state at the top of every chunk: `temp_token = None`, nothing printed. */
  const Start := Machine(None, 0.0, [], false)

  /** Python's truthiness of `temp_token`: `None` and `""` both count as nothing held. */
  predicate Holding(pending: Option<string>) {
    pending.Some? && pending.value != ""
  }

  predicate IsTerminator(token: string, stop: string) {
    token == stop || token == EndOfText
  }

  /**
   * One pass of the loop body for `token` with log-probability `lp`. After a
   * break nothing changes; otherwise the loop breaks exactly on a terminator,
   * at most one token is printed after the earlier ones, a held fragment is
   * released by the next token that is not a terminator, and a `bytes:`
   * fragment is taken up only when nothing was held, printing nothing.
   */
  function Step(m: Machine, token: string, lp: real, stop: string, decode: string -> string): (r: Machine)
    ensures m.halted ==> r == m
    ensures r.halted <==> m.halted || IsTerminator(token, stop)
    ensures |m.emitted| <= |r.emitted| <= |m.emitted| + 1 && r.emitted[..|m.emitted|] == m.emitted
    ensures !m.halted && Holding(m.pending) && !IsTerminator(token, stop) ==>
              !Holding(r.pending) && |r.emitted| == |m.emitted| + 1
    ensures !r.halted && Holding(r.pending) ==>
              StartsWith(token, BytesPrefix) && !Holding(m.pending) && r.emitted == m.emitted
  {
    if m.halted then m
    else if IsTerminator(token, stop) then m.(halted := true)
    else if StartsWith(token, BytesPrefix) && !Holding(m.pending) then
      m.(pending := Some(token[6..]), pendingLogprob := lp)
    else if Holding(m.pending) then
      m.(pending := None,
         emitted := m.emitted + [Emitted(decode(m.pending.value + Drop(token, 6)), m.pendingLogprob)])
    else
      m.(emitted := m.emitted + [Emitted(token, lp)])
  }

  /** The machine after the first `n` tokens of `f`, starting from `m`. */
  function Feed(m: Machine, f: AlignedFrame, n: nat, stop: string, decode: string -> string): Machine
    requires n <= |f.tokens|
  {
    if n == 0 then m
    else Step(Feed(m, f, n - 1, stop, decode), f.tokens[n - 1], f.logprobs[n - 1], stop, decode)
  }

  /** What one chunk prints, in order. */
  function ChunkEmits(f: AlignedFrame, stop: string, decode: string -> string): seq<Emitted> {
    Feed(Start, f, |f.tokens|, stop, decode).emitted
  }

  /**
   * The loop of lines 90-124: `decode` stands for
   * `codecs.escape_decode(bytestring, "utf-8")[0].decode("utf-8")`.
   */
  method ReassembleChunk(f: AlignedFrame, stop: string, decode: string -> string)
    returns (emitted: seq<Emitted>)
    ensures emitted == ChunkEmits(f, stop, decode)
  {
    var tempToken: Option<string> := None;
    var tempProb: real := 0.0;
    emitted := [];
    var i := 0;
    while i < |f.tokens|
      invariant 0 <= i <= |f.tokens|
      invariant Feed(Start, f, i, stop, decode) == Machine(tempToken, tempProb, emitted, false)
    {
      var token := f.tokens[i];
      var logProb := f.logprobs[i];
      if token == stop || token == EndOfText {
        HaltedStaysHalted(Start, f, i + 1, |f.tokens|, stop, decode);
        break;
      }
      if StartsWith(token, BytesPrefix) && !(tempToken.Some? && tempToken.value != "") {
        tempToken := Some(token[6..]);
        tempProb := logProb;
      } else {
        if tempToken.Some? && tempToken.value != "" {
          var bytestring := tempToken.value + Drop(token, 6);
          token := decode(bytestring);
          tempToken := None;
          logProb := tempProb;
        }
        emitted := emitted + [Emitted(token, logProb)];
      }
      i := i + 1;
    }
  }

  // ---------------------------------------------------------------------
  // Properties of the machine

  /** Once the loop has broken out, later tokens change nothing. */
  lemma {:induction false} HaltedStaysHalted(m: Machine, f: AlignedFrame, k: nat, n: nat,
                                             stop: string, decode: string -> string)
    requires k <= n <= |f.tokens| && Feed(m, f, k, stop, decode).halted
    ensures Feed(m, f, n, stop, decode) == Feed(m, f, k, stop, decode)
    decreases n - k
  {
    if k < n {
      HaltedStaysHalted(m, f, k, n - 1, stop, decode);
    }
  }

  /** A terminator is printed nowhere and makes the loop break. */
  lemma TerminatorBreaks(m: Machine, token: string, lp: real, stop: string, decode: string -> string)
    requires !m.halted && IsTerminator(token, stop)
    ensures Step(m, token, lp, stop, decode) == m.(halted := true)
  {
  }

  /** With nothing held, an ordinary token is printed as it is, with its own log-probability. */
  lemma PlainTokenPassesThrough(m: Machine, token: string, lp: real, stop: string, decode: string -> string)
    requires !m.halted && !Holding(m.pending)
    requires !IsTerminator(token, stop) && !StartsWith(token, BytesPrefix)
    ensures Step(m, token, lp, stop, decode) == m.(emitted := m.emitted + [Emitted(token, lp)])
  {
  }

  /** With nothing held, a fragment prints nothing; its bytes and log-probability are kept. */
  lemma FragmentIsHeld(m: Machine, bytes: string, lp: real, stop: string, decode: string -> string)
    requires !m.halted && !Holding(m.pending)
    requires !IsTerminator(BytesPrefix + bytes, stop)
    ensures Step(m, BytesPrefix + bytes, lp, stop, decode)
         == m.(pending := Some(bytes), pendingLogprob := lp)
  {
  }

  /**
   * The token after a held fragment completes it: the held bytes and the
   * token past its sixth character are decoded together and printed once,
   * with the fragment's log-probability, and the slot is emptied.
   */
  lemma HeldFragmentMerges(m: Machine, token: string, lp: real, stop: string, decode: string -> string)
    requires !m.halted && Holding(m.pending)
    requires !IsTerminator(token, stop)
    ensures Step(m, token, lp, stop, decode)
         == Machine(None, m.pendingLogprob,
                    m.emitted + [Emitted(decode(m.pending.value + Drop(token, 6)), m.pendingLogprob)], false)
  {
  }

  /** Feeding a prefix of the tokens depends only on that prefix. */
  lemma {:induction false} FeedPrefix(m: Machine, f: AlignedFrame, k: nat, n: nat,
                                      stop: string, decode: string -> string)
    requires n <= k <= |f.tokens|
    ensures Feed(m, Frame(f.tokens[..k], f.logprobs[..k]), n, stop, decode) == Feed(m, f, n, stop, decode)
    decreases n
  {
    if n > 0 {
      FeedPrefix(m, f, k, n - 1, stop, decode);
    }
  }

  /**
   * A terminator at position `k` ends the chunk: what is printed is what
   * the tokens before it print, and nothing after it matters.
   */
  lemma TerminatorEndsChunk(f: AlignedFrame, k: nat, stop: string, decode: string -> string)
    requires k < |f.tokens| && IsTerminator(f.tokens[k], stop)
    ensures ChunkEmits(f, stop, decode) == ChunkEmits(Frame(f.tokens[..k], f.logprobs[..k]), stop, decode)
  {
    var before := Frame(f.tokens[..k], f.logprobs[..k]);
    FeedPrefix(Start, f, k, k, stop, decode);
    var m := Feed(Start, f, k, stop, decode);
    assert Feed(Start, f, k + 1, stop, decode).emitted == m.emitted;
    assert Feed(Start, f, k + 1, stop, decode).halted;
    HaltedStaysHalted(Start, f, k + 1, |f.tokens|, stop, decode);
  }

  /** `stop` left at its default `""` matches an empty token. */
  lemma EmptyStopMatchesEmptyToken(f: AlignedFrame, k: nat, decode: string -> string)
    requires k < |f.tokens| && f.tokens[k] == ""
    ensures ChunkEmits(f, "", decode) == ChunkEmits(Frame(f.tokens[..k], f.logprobs[..k]), "", decode)
  {
    TerminatorEndsChunk(f, k, "", decode);
  }

  /** `|emitted| + (1 if a fragment is held)` never exceeds the tokens consumed. */
  lemma {:induction false} EmitCountBound(f: AlignedFrame, n: nat, stop: string, decode: string -> string)
    requires n <= |f.tokens|
    ensures var m := Feed(Start, f, n, stop, decode);
            |m.emitted| + (if Holding(m.pending) then 1 else 0) <= n
  {
    if n > 0 {
      EmitCountBound(f, n - 1, stop, decode);
    }
  }

  /** A chunk never prints more tokens than it carries. */
  lemma ChunkEmitsAtMostTokens(f: AlignedFrame, stop: string, decode: string -> string)
    ensures |ChunkEmits(f, stop, decode)| <= |f.tokens|
  {
    EmitCountBound(f, |f.tokens|, stop, decode);
  }

  /** No token of the chunk is a fragment or a terminator. */
  predicate PlainFrame(f: AlignedFrame, stop: string) {
    forall i :: 0 <= i < |f.tokens| ==>
      !StartsWith(f.tokens[i], BytesPrefix) && !IsTerminator(f.tokens[i], stop)
  }

  lemma {:induction false} PlainPrefixPassesThrough(f: AlignedFrame, n: nat, stop: string, decode: string -> string)
    requires n <= |f.tokens| && PlainFrame(f, stop)
    ensures var m := Feed(Start, f, n, stop, decode);
            m.pending == None && !m.halted && |m.emitted| == n &&
            forall i :: 0 <= i < n ==> m.emitted[i] == Emitted(f.tokens[i], f.logprobs[i])
  {
    if n > 0 {
      PlainPrefixPassesThrough(f, n - 1, stop, decode);
    }
  }

  /** Without fragments or terminators, a chunk prints its tokens unchanged and in order. */
  lemma PlainChunkUnchanged(f: AlignedFrame, stop: string, decode: string -> string)
    requires PlainFrame(f, stop)
    ensures |ChunkEmits(f, stop, decode)| == |f.tokens|
    ensures forall i :: 0 <= i < |f.tokens| ==>
              ChunkEmits(f, stop, decode)[i] == Emitted(f.tokens[i], f.logprobs[i])
  {
    PlainPrefixPassesThrough(f, |f.tokens|, stop, decode);
  }

  /** A character split as `bytes:A`, `bytes:B` is printed once as `decode(A + B)` with the first log-probability. */
  lemma SplitCharacterMerges(a: string, b: string, p: real, q: real, stop: string, decode: string -> string)
    requires a != []
    requires !IsTerminator(BytesPrefix + a, stop) && !IsTerminator(BytesPrefix + b, stop)
    ensures ChunkEmits(Frame([BytesPrefix + a, BytesPrefix + b], [p, q]), stop, decode)
         == [Emitted(decode(a + b), p)]
  {
    var f: AlignedFrame := Frame([BytesPrefix + a, BytesPrefix + b], [p, q]);
    FragmentIsHeld(Start, a, p, stop, decode);
    assert Feed(Start, f, 0, stop, decode) == Start;
    var m1 := Feed(Start, f, 1, stop, decode);
    assert m1 == Start.(pending := Some(a), pendingLogprob := p);
    HeldFragmentMerges(m1, BytesPrefix + b, q, stop, decode);
    assert Drop(BytesPrefix + b, 6) == b;
  }

  /** The continuation loses its first six characters even when it has no `bytes:` marker. */
  lemma ContinuationLosesSixCharacters(a: string, t: string, p: real, q: real, stop: string, decode: string -> string)
    requires a != []
    requires !IsTerminator(BytesPrefix + a, stop) && !IsTerminator(t, stop)
    ensures ChunkEmits(Frame([BytesPrefix + a, t], [p, q]), stop, decode)
         == [Emitted(decode(a + Drop(t, 6)), p)]
  {
    var f: AlignedFrame := Frame([BytesPrefix + a, t], [p, q]);
    FragmentIsHeld(Start, a, p, stop, decode);
    assert Feed(Start, f, 0, stop, decode) == Start;
    var m1 := Feed(Start, f, 1, stop, decode);
    assert m1 == Start.(pending := Some(a), pendingLogprob := p);
  }

  /** A bare `bytes:` holds an empty fragment, which counts as nothing held: the next token prints as it is. */
  lemma EmptyFragmentIsNotHeld(t: string, p: real, q: real, stop: string, decode: string -> string)
    requires !IsTerminator(BytesPrefix, stop) && !IsTerminator(t, stop) && !StartsWith(t, BytesPrefix)
    ensures ChunkEmits(Frame([BytesPrefix, t], [p, q]), stop, decode) == [Emitted(t, q)]
  {
    var f: AlignedFrame := Frame([BytesPrefix, t], [p, q]);
    assert StartsWith(BytesPrefix, BytesPrefix);
    assert Feed(Start, f, 0, stop, decode) == Start;
    var m1 := Feed(Start, f, 1, stop, decode);
    assert m1.pending == Some("") && m1.emitted == [] && !m1.halted;
  }

  /** A fragment still held when the chunk ends is never printed. */
  lemma TrailingFragmentIsDropped(a: string, p: real, stop: string, decode: string -> string)
    requires !IsTerminator(BytesPrefix + a, stop)
    ensures ChunkEmits(Frame([BytesPrefix + a], [p]), stop, decode) == []
  {
    var f: AlignedFrame := Frame([BytesPrefix + a], [p]);
    FragmentIsHeld(Start, a, p, stop, decode);
    assert Feed(Start, f, 0, stop, decode) == Start;
  }
}
