/**
 * The `ArmTTS` class: its initialisation flag, the classification of the
 * preprocessing service's reply in `process`, and `speak`, which chunks
 * the text, sends each chunk to the service, synthesises audio for the
 * returned ids and plays the concatenated audio once.
 *
 * The network request and the ONNX inference are not part of this model:
 * `speak` receives them as the functions `fetch` (a chunk to the decoded
 * reply, or None when the request yields no data) and `synthesize` (ids
 * and a speed to audio bytes).
 */
module Speaker {
  import opened Wrappers
  import opened Text
  import opened Chunker

  /** Swift's `Int32`, the element type of the ids. */
  newtype int32 = x: int | -0x8000_0000 <= x < 0x8000_0000

  /** One byte of `Data`. */
  newtype byte = x: int | 0 <= x < 0x100

  /** What `process` returns for one chunk: `rc` is 0 on success and -1 when the service rejected it. */
  datatype ProcessResult = ProcessResult(sequence: seq<int32>, rc: int, message: string)

  /** The fields of the service's JSON reply that `process` reads: "ids" when it is an `Int32` array, "message" when it is a string. */
  datatype Reply = Reply(ids: Option<seq<int32>>, message: Option<string>)

  /**
   * The completion handler of `process`. No data (a network error)
   * leaves the defaults, so it reads as success with no ids; a reply
   * with ids succeeds with them; any other reply fails with its message,
   * or "" when it has none.
   */
  function Classify(response: Option<Reply>): (r: ProcessResult)
    ensures r.rc == 0 || r.rc == -1
    ensures r.rc != 0 <==> response.Some? && response.value.ids.None?
    ensures r.rc == 0 ==> r.message == ""
    ensures r.rc == 0 && response.Some? ==> r.sequence == response.value.ids.value
    ensures r.rc != 0 ==> r.sequence == [] && r.message == response.value.message.GetOr("")
    ensures response.None? ==> r.sequence == []
  {
    match response
    case None => ProcessResult([], 0, "")
    case Some(reply) =>
      match reply.ids
      case Some(ids) => ProcessResult(ids, 0, "")
      case None => ProcessResult([], -1, reply.message.GetOr(""))
  }

  /** A request that yields no data cannot be told apart from a reply carrying an empty id list. */
  lemma NetworkErrorLooksLikeEmptyReply(message: Option<string>)
    ensures Classify(None) == Classify(Some(Reply(Some([]), message)))
  {
  }

  /**
   * `process(text)`: ask the service, then classify its reply into a
   * `ProcessResult`. It fails exactly when a reply arrives without ids.
   */
  function Process(chunk: string, fetch: string -> Option<Reply>): (r: ProcessResult)
    ensures r.rc == 0 || r.rc == -1
    ensures r.rc != 0 <==> fetch(chunk).Some? && fetch(chunk).value.ids.None?
    ensures r.rc == 0 ==> r.message == ""
  {
    Classify(fetch(chunk))
  }

  /** The results of processing every chunk. */
  function Results(chunks: seq<string>, fetch: string -> Option<Reply>): seq<ProcessResult> {
    seq(|chunks|, i requires 0 <= i < |chunks| => Process(chunks[i], fetch))
  }

  /** The position of the first result at or after `i` whose `rc` is not 0. */
  function FirstFailure(results: seq<ProcessResult>, i: nat): (r: Option<nat>)
    requires i <= |results|
    ensures r.None? <==> forall j :: i <= j < |results| ==> results[j].rc == 0
    ensures r.Some? ==>
      i <= r.value < |results| && results[r.value].rc != 0 &&
      forall j :: i <= j < r.value ==> results[j].rc == 0
    decreases |results| - i
  {
    if i == |results| then None
    else if results[i].rc != 0 then Some(i)
    else FirstFailure(results, i + 1)
  }

  /** The audio for each result, synthesised at the reversed speed `2 - speed`. */
  function Voiced(results: seq<ProcessResult>, speed: real, synthesize: (seq<int32>, real) -> seq<byte>): seq<seq<byte>> {
    seq(|results|, i requires 0 <= i < |results| => synthesize(results[i].sequence, 2.0 - speed))
  }

  /** What `speak` does once initialised and tokenised. */
  datatype Spoken =
    | NotInitialized
    | TokenizerSpins
    | Failed(index: nat, message: string)
    | Played(audio: seq<byte>)

  /**
   * The outcome of speaking `chunks`: the first rejected chunk aborts
   * with its message and nothing is played; otherwise the audio of every
   * chunk, in order, is played once.
   */
  function Speech(chunks: seq<string>, speed: real, fetch: string -> Option<Reply>,
                  synthesize: (seq<int32>, real) -> seq<byte>): (r: Spoken)
    ensures r.Failed? || r.Played?
    ensures r.Failed? ==> r.index < |chunks| && r.message == Process(chunks[r.index], fetch).message
  {
    var results := Results(chunks, fetch);
    match FirstFailure(results, 0)
    case Some(i) => Failed(i, results[i].message)
    case None => Played(Flatten(Voiced(results, speed, synthesize)))
  }

  /** Speaking fails at chunk `i` exactly when `i` is the first chunk the service rejects. */
  lemma SpeechFailsAtFirstRejection(chunks: seq<string>, speed: real, fetch: string -> Option<Reply>,
                                    synthesize: (seq<int32>, real) -> seq<byte>, i: nat)
    ensures Speech(chunks, speed, fetch, synthesize).Failed? &&
            Speech(chunks, speed, fetch, synthesize).index == i
        <==>
            i < |chunks| && Process(chunks[i], fetch).rc != 0 &&
            forall j :: 0 <= j < i ==> Process(chunks[j], fetch).rc == 0
    ensures Speech(chunks, speed, fetch, synthesize).Failed? ==>
      var s := Speech(chunks, speed, fetch, synthesize);
      s.index < |chunks| && s.message == Process(chunks[s.index], fetch).message
  {
    var results := Results(chunks, fetch);
    assert forall j :: 0 <= j < |chunks| ==> results[j] == Process(chunks[j], fetch);
    if FirstFailure(results, 0).Some? {
      var k := FirstFailure(results, 0).value;
      assert results[k].rc != 0;
    }
  }

  /** Audio is played exactly when the service accepts every chunk; with no chunks at all, empty audio is played. */
  lemma SpeechPlaysWhenAllAccepted(chunks: seq<string>, speed: real, fetch: string -> Option<Reply>,
                                   synthesize: (seq<int32>, real) -> seq<byte>)
    ensures Speech(chunks, speed, fetch, synthesize).Played? <==>
      forall j :: 0 <= j < |chunks| ==> Process(chunks[j], fetch).rc == 0
    ensures chunks == [] ==> Speech(chunks, speed, fetch, synthesize) == Played([])
  {
    var results := Results(chunks, fetch);
    assert forall j :: 0 <= j < |chunks| ==> results[j] == Process(chunks[j], fetch);
  }

  lemma VoicedSnoc(results: seq<ProcessResult>, r: ProcessResult, speed: real,
                   synthesize: (seq<int32>, real) -> seq<byte>)
    ensures Voiced(results + [r], speed, synthesize) ==
            Voiced(results, speed, synthesize) + [synthesize(r.sequence, 2.0 - speed)]
  {
  }

  lemma ResultsSnoc(chunks: seq<string>, i: nat, fetch: string -> Option<Reply>)
    requires i < |chunks|
    ensures Results(chunks[..i + 1], fetch) == Results(chunks[..i], fetch) + [Process(chunks[i], fetch)]
  {
  }

  /**
   * Accepting one more chunk appends its audio to what is played: the
   * audio of a longer text starts with the audio of its first chunks.
   */
  lemma {:induction false} SpeechExtends(chunks: seq<string>, chunk: string, speed: real,
                                         fetch: string -> Option<Reply>,
                                         synthesize: (seq<int32>, real) -> seq<byte>)
    requires Speech(chunks, speed, fetch, synthesize).Played?
    requires Process(chunk, fetch).rc == 0
    ensures Speech(chunks + [chunk], speed, fetch, synthesize) ==
      Played(Speech(chunks, speed, fetch, synthesize).audio +
             synthesize(Process(chunk, fetch).sequence, 2.0 - speed))
  {
    var all := chunks + [chunk];
    assert all[..|chunks|] == chunks;
    ResultsSnoc(all, |chunks|, fetch);
    assert all[..|chunks| + 1] == all;
    var results := Results(chunks, fetch);
    SpeechPlaysWhenAllAccepted(chunks, speed, fetch, synthesize);
    SpeechPlaysWhenAllAccepted(all, speed, fetch, synthesize);
    VoicedSnoc(results, Process(chunk, fetch), speed, synthesize);
  }

  class ArmTTS {
    /** Set once the ONNX model and its inference session have been loaded. */
    var isInitialized: bool

    /** The body of a successful `init?`: the model was found and the session created. */
    constructor()
      ensures isInitialized
    {
      isInitialized := true;
    }

    /**
     * `init?(X_RapidAPI_Key:)`: nil when the bundled model is missing or
     * the inference session cannot be created, otherwise an initialised
     * instance.
     */
    static method Load(modelLoaded: bool) returns (tts: ArmTTS?)
      ensures tts == null <==> !modelLoaded
      ensures tts != null ==> fresh(tts) && tts.isInitialized
    {
      if modelLoaded {
        tts := new ArmTTS();
      } else {
        tts := null;
      }
    }

    /** `checkInit()`: 0 when initialised, 1 otherwise. */
    function CheckInit(): (rc: int)
      reads this
      ensures rc == 0 <==> isInitialized
      ensures rc == 0 || rc == 1
    {
      if isInitialized then 0 else 1
    }

    /**
     * `speak(text:speed:)`. `sent` lists the chunks handed to `process`, in
     * order. Where `tokenize` would loop forever the outcome is
     * `TokenizerSpins` and nothing is sent.
     */
    method Speak(text: string, speed: real, fetch: string -> Option<Reply>,
                 synthesize: (seq<int32>, real) -> seq<byte>)
      returns (outcome: Spoken, sent: seq<string>)
      ensures !isInitialized ==> outcome == NotInitialized && sent == []
      ensures isInitialized && Chunks(Normalize(text)).Stuck? ==> outcome == TokenizerSpins && sent == []
      ensures isInitialized && Chunks(Normalize(text)).Done? ==>
        var chunks := Chunks(Normalize(text)).tokens;
        outcome == Speech(chunks, speed, fetch, synthesize) &&
        sent == if outcome.Failed? then chunks[..outcome.index + 1] else chunks
    {
      if CheckInit() != 0 {
        return NotInitialized, [];
      }
      var tokenized := Tokenize(text);
      if tokenized.Stuck? {
        return TokenizerSpins, [];
      }
      outcome, sent := SpeakChunks(tokenized.tokens, speed, fetch, synthesize);
    }

    /**
     * The loop of `speak` over the chunks: process each one, stop at the
     * first rejection, otherwise append its synthesised audio; play the
     * whole audio at the end.
     */
    static method SpeakChunks(tokens: seq<string>, speed: real, fetch: string -> Option<Reply>,
                              synthesize: (seq<int32>, real) -> seq<byte>)
      returns (outcome: Spoken, sent: seq<string>)
      ensures outcome == Speech(tokens, speed, fetch, synthesize)
      ensures sent == if outcome.Failed? then tokens[..outcome.index + 1] else tokens
    {
      var data: seq<byte> := [];
      sent := [];
      for i := 0 to |tokens|
        invariant sent == tokens[..i]
        invariant Speech(tokens[..i], speed, fetch, synthesize) == Played(data)
      {
        sent := sent + [tokens[i]];
        var processResult := Process(tokens[i], fetch);
        if processResult.rc != 0 {
          SpeechFailsAtFirstRejection(tokens, speed, fetch, synthesize, i);
          SpeechPlaysWhenAllAccepted(tokens[..i], speed, fetch, synthesize);
          return Failed(i, processResult.message), sent;
        }
        SpeechExtends(tokens[..i], tokens[i], speed, fetch, synthesize);
        assert tokens[..i] + [tokens[i]] == tokens[..i + 1];
        data := data + synthesize(processResult.sequence, 2.0 - speed);
      }
      assert tokens[..|tokens|] == tokens;
      return Played(data), sent;
    }
  }
}
