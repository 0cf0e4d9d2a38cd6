/**
 * The outer chunk loop of `GPT3Client.generate`: each streamed chunk loses
 * its `data: ` prefix; a short payload holding `[DONE]` ends the stream;
 * every other payload is parsed into a frame whose tokens the reassembly
 * loop prints. The HTTP stream is the sequence of chunks `iter_text`
 * delivers; `json.loads` and the key lookups are the `parse` parameter,
 * whose `None` is the exception they raise.
 */
module Stream {

  import opened Wrappers
  import opened Text
  import opened Reassembly

  /**
   * `json.loads` or the lookup of `choices[0].logprobs` failed on `payload`:
   * `generate` raises, after `printed` has already reached the console.
   */
  datatype ParseError = ParseError(payload: string, printed: seq<Emitted>)

  /** `chunk[6:]`: the payload after the six characters of `data: `. */
  function Payload(chunk: string): (text: string)
    ensures |chunk| >= 6 ==> chunk == chunk[..6] + text
    ensures |chunk| < 6 ==> text == []
  {
    Drop(chunk, 6)
  }

  /**
   * The end-of-stream test, `len(text) < 10 and "[DONE]" in text`: an end
   * payload has between six and nine characters.
   */
  predicate IsDone(text: string): (b: bool)
    ensures b ==> 6 <= |text| < 10
  {
    if |text| < 10 && Contains(text, "[DONE]") then
      ContainsFitsInside(text, "[DONE]");
      true
    else false
  }

  /**
   * What the chunks print, in order, up to the first end-of-stream chunk;
   * an error when some payload before it does not parse.
   */
  function StreamEmits(chunks: seq<string>, stop: string,
                       parse: string -> Option<AlignedFrame>, decode: string -> string)
    : Result<seq<Emitted>, ParseError>
  {
    if chunks == [] then Ok([])
    else
      var text := Payload(chunks[0]);
      if IsDone(text) then Ok([])
      else match parse(text)
        case None => Err(ParseError(text, []))
        case Some(f) => Prepend(ChunkEmits(f, stop, decode),
                                StreamEmits(chunks[1..], stop, parse, decode))
  }

  /** Output printed before the rest of the stream: it comes first, also when the rest raises. */
  function Prepend(out: seq<Emitted>, r: Result<seq<Emitted>, ParseError>): Result<seq<Emitted>, ParseError> {
    match r
    case Ok(rest) => Ok(out + rest)
    case Err(e) => Err(e.(printed := out + e.printed))
  }

  /** The chunk loop of lines 85-124, returning what it prints or the error it raises. */
  method Generate(chunks: seq<string>, stop: string,
                  parse: string -> Option<AlignedFrame>, decode: string -> string)
    returns (r: Result<seq<Emitted>, ParseError>)
    ensures r == StreamEmits(chunks, stop, parse, decode)
  {
    var printed: seq<Emitted> := [];
    var i := 0;
    PrependNothing(StreamEmits(chunks, stop, parse, decode));
    while i < |chunks|
      invariant 0 <= i <= |chunks|
      invariant StreamEmits(chunks, stop, parse, decode)
             == Prepend(printed, StreamEmits(chunks[i..], stop, parse, decode))
    {
      var text := Payload(chunks[i]);
      assert chunks[i..][0] == chunks[i];
      if IsDone(text) {
        PrependNothing(Ok(printed));
        break;
      }
      match parse(text)
      case None =>
        assert printed + [] == printed;
        return Err(ParseError(text, printed));
      case Some(frame) =>
        var emitted := ReassembleChunk(frame, stop, decode);
        assert chunks[i..][1..] == chunks[i + 1..];
        PrependTwice(printed, emitted, StreamEmits(chunks[i + 1..], stop, parse, decode));
        printed := printed + emitted;
      i := i + 1;
    }
    if i == |chunks| {
      assert chunks[i..] == [];
      PrependNothing(Ok(printed));
    }
    r := Ok(printed);
  }

  lemma PrependNothing(r: Result<seq<Emitted>, ParseError>)
    ensures Prepend([], r) == r
    ensures r.Ok? ==> Prepend(r.value, Ok([])) == r
  {
    if r.Ok? {
      assert [] + r.value == r.value;
      assert r.value + [] == r.value;
    } else {
      assert [] + r.error.printed == r.error.printed;
    }
  }

  lemma PrependTwice(a: seq<Emitted>, b: seq<Emitted>, r: Result<seq<Emitted>, ParseError>)
    ensures Prepend(a, Prepend(b, r)) == Prepend(a + b, r)
  {
    if r.Ok? {
      assert a + (b + r.value) == (a + b) + r.value;
    } else {
      assert a + (b + r.error.printed) == (a + b) + r.error.printed;
    }
  }

  // ---------------------------------------------------------------------
  // Properties of the stream

  /** The literal end chunk, with or without the blank line that ends an event, stops the stream. */
  lemma DoneChunks()
    ensures IsDone(Payload("data: [DONE]"))
    ensures IsDone(Payload("data: [DONE]\n\n"))
  {
  }

  /** Nothing after the first end-of-stream chunk is read, whatever it holds. */
  lemma {:induction false} DoneEndsStream(chunks: seq<string>, k: nat, stop: string,
                                          parse: string -> Option<AlignedFrame>, decode: string -> string)
    requires k < |chunks| && IsDone(Payload(chunks[k]))
    ensures StreamEmits(chunks, stop, parse, decode) == StreamEmits(chunks[..k], stop, parse, decode)
  {
    if k > 0 && !IsDone(Payload(chunks[0])) {
      assert chunks[1..][k - 1] == chunks[k];
      assert chunks[..k][1..] == chunks[1..][..k - 1];
      assert chunks[..k][0] == chunks[0];
      DoneEndsStream(chunks[1..], k - 1, stop, parse, decode);
    }
  }

  /**
   * The stream is cut into independent chunks: a data chunk prints exactly
   * what its own frame prints, since the fragment slot starts empty in each.
   */
  lemma ChunksAreIndependent(chunk: string, rest: seq<string>, f: AlignedFrame, stop: string,
                             parse: string -> Option<AlignedFrame>, decode: string -> string)
    requires !IsDone(Payload(chunk)) && parse(Payload(chunk)) == Some(f)
    ensures StreamEmits([chunk] + rest, stop, parse, decode)
         == Prepend(ChunkEmits(f, stop, decode), StreamEmits(rest, stop, parse, decode))
  {
  }

  /** A fragment that ends one chunk is not merged with the first token of the next. */
  lemma FragmentDoesNotCrossChunks(c1: string, c2: string, a: string, t: string, p: real, q: real,
                                   stop: string, parse: string -> Option<AlignedFrame>, decode: string -> string)
    requires !IsDone(Payload(c1)) && parse(Payload(c1)) == Some(Frame([BytesPrefix + a], [p]))
    requires !IsDone(Payload(c2)) && parse(Payload(c2)) == Some(Frame([t], [q]))
    requires !IsTerminator(BytesPrefix + a, stop) && !IsTerminator(t, stop) && !StartsWith(t, BytesPrefix)
    ensures StreamEmits([c1, c2], stop, parse, decode) == Ok([Emitted(t, q)])
  {
    TrailingFragmentIsDropped(a, p, stop, decode);
    var f2: AlignedFrame := Frame([t], [q]);
    assert Feed(Start, f2, 0, stop, decode) == Start;
    PlainTokenPassesThrough(Start, t, q, stop, decode);
    assert [c1, c2][1..] == [c2];
    assert [c2][1..] == [];
    assert ChunkEmits(f2, stop, decode) == [Emitted(t, q)];
    assert StreamEmits([c2][1..], stop, parse, decode) == Ok([]);
    assert StreamEmits([c2], stop, parse, decode) == Prepend([Emitted(t, q)], Ok([]));
    PrependNothing(Ok([Emitted(t, q)]));
    PrependNothing(StreamEmits([c2], stop, parse, decode));
  }

  /** Two one-token chunks and the end chunk print the two tokens in order. */
  lemma TwoTokensThenDone(c1: string, c2: string, p: real, q: real, stop: string,
                          parse: string -> Option<AlignedFrame>, decode: string -> string)
    requires !IsDone(Payload(c1)) && parse(Payload(c1)) == Some(Frame(["H"], [p]))
    requires !IsDone(Payload(c2)) && parse(Payload(c2)) == Some(Frame(["i"], [q]))
    requires stop != "H" && stop != "i"
    ensures StreamEmits([c1, c2, "data: [DONE]"], stop, parse, decode) == Ok([Emitted("H", p), Emitted("i", q)])
  {
    var chunks := [c1, c2, "data: [DONE]"];
    DoneChunks();
    DoneEndsStream(chunks, 2, stop, parse, decode);
    assert chunks[..2] == [c1, c2];
    assert !StartsWith("H", BytesPrefix) && !StartsWith("i", BytesPrefix);
    var f1: AlignedFrame := Frame(["H"], [p]);
    var f2: AlignedFrame := Frame(["i"], [q]);
    assert Feed(Start, f1, 0, stop, decode) == Start;
    assert Feed(Start, f2, 0, stop, decode) == Start;
    PlainTokenPassesThrough(Start, "H", p, stop, decode);
    PlainTokenPassesThrough(Start, "i", q, stop, decode);
    assert ChunkEmits(f1, stop, decode) == [Emitted("H", p)];
    assert ChunkEmits(f2, stop, decode) == [Emitted("i", q)];
    assert [c2][1..] == [];
    assert StreamEmits([c2][1..], stop, parse, decode) == Ok([]);
    assert StreamEmits([c2], stop, parse, decode) == Prepend([Emitted("i", q)], Ok([]));
    PrependNothing(Ok([Emitted("i", q)]));
    assert [c1, c2][1..] == [c2];
    assert StreamEmits([c1, c2], stop, parse, decode) == Prepend([Emitted("H", p)], Ok([Emitted("i", q)]));
    assert [Emitted("H", p)] + [Emitted("i", q)] == [Emitted("H", p), Emitted("i", q)];
  }

  /** No chunk up to and including the `k`-th ends the stream. */
  predicate NoDoneUpTo(chunks: seq<string>, k: nat)
    requires k < |chunks|
  {
    forall j :: 0 <= j <= k ==> !IsDone(Payload(chunks[j]))
  }

  /**
   * `generate` raises exactly when a payload that does not parse arrives
   * before any end-of-stream chunk.
   */
  lemma {:induction false} FailsIffUnparsableBeforeDone(chunks: seq<string>, stop: string,
                                                         parse: string -> Option<AlignedFrame>,
                                                         decode: string -> string)
    ensures StreamEmits(chunks, stop, parse, decode).Err? <==>
            exists k :: 0 <= k < |chunks| && NoDoneUpTo(chunks, k) && parse(Payload(chunks[k])).None?
  {
    if chunks != [] && !IsDone(Payload(chunks[0])) && parse(Payload(chunks[0])).Some? {
      var tail := chunks[1..];
      FailsIffUnparsableBeforeDone(tail, stop, parse, decode);
      if StreamEmits(chunks, stop, parse, decode).Err? {
        var k :| 0 <= k < |tail| && NoDoneUpTo(tail, k) && parse(Payload(tail[k])).None?;
        assert NoDoneUpTo(chunks, k + 1) by {
          forall j | 0 <= j <= k + 1 ensures !IsDone(Payload(chunks[j])) {
            if j > 0 { assert chunks[j] == tail[j - 1]; }
          }
        }
        assert chunks[k + 1] == tail[k];
      }
      if exists k :: 0 <= k < |chunks| && NoDoneUpTo(chunks, k) && parse(Payload(chunks[k])).None? {
        var k :| 0 <= k < |chunks| && NoDoneUpTo(chunks, k) && parse(Payload(chunks[k])).None?;
        assert k > 0;
        assert NoDoneUpTo(tail, k - 1) by {
          forall j | 0 <= j <= k - 1 ensures !IsDone(Payload(tail[j])) {
            assert tail[j] == chunks[j + 1];
          }
        }
        assert tail[k - 1] == chunks[k];
      }
    } else if chunks != [] && !IsDone(Payload(chunks[0])) {
      assert NoDoneUpTo(chunks, 0);
    } else if chunks != [] {
      assert forall k :: 0 <= k < |chunks| ==> !NoDoneUpTo(chunks, k);
    }
  }

  /**
   * When the `k`-th payload is the first that does not parse, the error
   * names it and keeps exactly what the chunks before it printed.
   */
  lemma {:induction false} ErrorKeepsPrinted(chunks: seq<string>, k: nat, stop: string,
                                             parse: string -> Option<AlignedFrame>, decode: string -> string)
    requires k < |chunks| && NoDoneUpTo(chunks, k) && parse(Payload(chunks[k])).None?
    requires forall j :: 0 <= j < k ==> parse(Payload(chunks[j])).Some?
    ensures StreamEmits(chunks[..k], stop, parse, decode).Ok?
    ensures StreamEmits(chunks, stop, parse, decode)
         == Err(ParseError(Payload(chunks[k]), StreamEmits(chunks[..k], stop, parse, decode).value))
  {
    assert !IsDone(Payload(chunks[0]));
    if k > 0 {
      var tail := chunks[1..];
      var f := parse(Payload(chunks[0])).value;
      assert NoDoneUpTo(tail, k - 1) by {
        forall j | 0 <= j <= k - 1 ensures !IsDone(Payload(tail[j])) {
          assert tail[j] == chunks[j + 1];
        }
      }
      forall j | 0 <= j < k - 1 ensures parse(Payload(tail[j])).Some? {
        assert tail[j] == chunks[j + 1];
      }
      assert tail[k - 1] == chunks[k];
      ErrorKeepsPrinted(tail, k - 1, stop, parse, decode);
      var before := chunks[..k];
      assert before[0] == chunks[0] && before[1..] == tail[..k - 1];
    }
  }

  /**
   * A token printed by one chunk stays printed when the next chunk does not
   * parse: the error comes after it.
   */
  lemma PrintedBeforeParseError(c1: string, c2: string, p: real, stop: string,
                                parse: string -> Option<AlignedFrame>, decode: string -> string)
    requires !IsDone(Payload(c1)) && parse(Payload(c1)) == Some(Frame(["H"], [p]))
    requires !IsDone(Payload(c2)) && parse(Payload(c2)) == None
    requires stop != "H"
    ensures StreamEmits([c1, c2], stop, parse, decode) == Err(ParseError(Payload(c2), [Emitted("H", p)]))
  {
    var chunks := [c1, c2];
    assert NoDoneUpTo(chunks, 1);
    ErrorKeepsPrinted(chunks, 1, stop, parse, decode);
    assert chunks[..1] == [c1];
    var f: AlignedFrame := Frame(["H"], [p]);
    assert Feed(Start, f, 0, stop, decode) == Start;
    assert !StartsWith("H", BytesPrefix);
    PlainTokenPassesThrough(Start, "H", p, stop, decode);
    assert ChunkEmits(f, stop, decode) == [Emitted("H", p)];
    assert [c1][1..] == [];
    assert StreamEmits([c1][1..], stop, parse, decode) == Ok([]);
    PrependNothing(Ok([Emitted("H", p)]));
  }

  /** When the stream ends well, it prints no more tokens than its chunks carry. */
  lemma {:induction false} StreamEmitsAtMostTokens(chunks: seq<string>, stop: string,
                                                   parse: string -> Option<AlignedFrame>, decode: string -> string)
    requires StreamEmits(chunks, stop, parse, decode).Ok?
    ensures |StreamEmits(chunks, stop, parse, decode).value| <= TokenCount(chunks, parse)
  {
    if chunks != [] && !IsDone(Payload(chunks[0])) {
      var f := parse(Payload(chunks[0])).value;
      ChunkEmitsAtMostTokens(f, stop, decode);
      StreamEmitsAtMostTokens(chunks[1..], stop, parse, decode);
    }
  }

  /** The number of tokens the parsable chunks carry. */
  function TokenCount(chunks: seq<string>, parse: string -> Option<AlignedFrame>): nat {
    if chunks == [] then 0
    else (match parse(Payload(chunks[0]))
          case None => 0
          case Some(f) => |f.tokens|) + TokenCount(chunks[1..], parse)
  }
}
