/** src/live_interaction.py: the Groq key check, the frame loop of
    `record_chunk`, the per-window output of the Groq loop, the backend
    dispatch of `run_live_transcription`, and the receive handler of the
    Gemini loop, whose `text_buffer` and `last_line_length` are the fields of
    the class `LiveTranscript`. Microphone reads and transcription replies
    are inputs; what the program prints is returned as a string. */
module LiveInteraction {
  import opened Wrappers
  import opened PyStr
  import opened Seqs
  import opened Config
  import opened Capture

  const GROQ_MODEL_TURBO: string := "whisper-large-v3-turbo"
  const GROQ_MODEL_LARGE: string := "whisper-large-v3"
  const GEMINI_LIVE_MODEL: string := "gemini-2.5-flash-native-audio-preview-12-2025"
  const SAMPLE_RATE: nat := 16000
  const CHUNK_SIZE: nat := 1024

  const GROQ_API_KEY: string := "GROQ_API_KEY"

  datatype TranscriptionError = TranscriptionError(message: string)

  const MISSING_GROQ_KEY_MESSAGE: string :=
    "GROQ_API_KEY environment variable is not set.\n"
    + "Get your free API key at: https://console.groq.com/keys\n"
    + "Then add to your .env file:\n"
    + "  GROQ_API_KEY=your-api-key-here"

  /** `get_groq_client`: the key a client is built with, or TranscriptionError
      when `GROQ_API_KEY` is absent or empty. */
  function GetGroqClient(env: Environment): (r: Result<string, TranscriptionError>)
    ensures r.Ok? <==> GROQ_API_KEY in env && env[GROQ_API_KEY] != ""
    ensures r.Ok? ==> r.value == env[GROQ_API_KEY]
    ensures r.Err? ==> r.error == TranscriptionError(MISSING_GROQ_KEY_MESSAGE)
  {
    match NonEmptyVariable(env, GROQ_API_KEY)
    case Some(key) => Ok(key)
    case None => Err(TranscriptionError(MISSING_GROQ_KEY_MESSAGE))
  }

  /** The frame loop of `record_chunk`: `read(k)` is what the k-th
      `stream.read` returns; exactly `totalChunks` reads are collected, in order. */
  method RecordChunk(totalChunks: nat, read: nat -> Chunk) returns (frames: seq<Chunk>)
    ensures |frames| == totalChunks
    ensures forall k :: 0 <= k < totalChunks ==> frames[k] == read(k)
  {
    frames := [];
    for k := 0 to totalChunks
      invariant |frames| == k
      invariant forall j :: 0 <= j < k ==> frames[j] == read(j)
    {
      frames := frames + [read(k)];
    }
  }

  // ---------------------------------------------------------------------------
  // The Groq loop
  // ---------------------------------------------------------------------------

  /** `max_status_len`. */
  const MAX_STATUS_LEN: nat := 50

  /** `"\r" + " " * max_status_len + "\r"`: blanks the status line. */
  function ClearStatus(): string
  {
    "\r" + Repeat(' ', MAX_STATUS_LEN) + "\r"
  }

  /** `f"{s:<width}"`: `s` padded on the right with spaces to `width` characters. */
  function LeftAligned(s: string, width: nat): (r: string)
    ensures |r| == if |s| < width then width else |s|
    ensures r[..|s|] == s
    ensures forall k :: |s| <= k < |r| ==> r[k] == ' '
  {
    if |s| < width then s + Repeat(' ', width - |s|) else s
  }

  const TRANSCRIBING: string := "\U{1F504} Transcribing..."

  /** The status shown while a recorded window is transcribed. */
  function TranscribingStatus(): string
  {
    "\r" + LeftAligned(TRANSCRIBING, MAX_STATUS_LEN)
  }

  /** The status shown while a window is recorded; `duration` is the chunk
      duration as Python formats the float. */
  function RecordingStatus(duration: string): string
  {
    "\U{1F534} Recording (" + duration + "s)..."
  }

  /** What one window of the Groq loop produced: reply text, or the message of
      the exception raised while transcribing it. */
  datatype WindowResult = Transcribed(text: string) | Raised(message: string)

  /** The `try` body of one window: `transcribe_audio_bytes` looks the Groq key
      up first, then calls the service, whose reply is `reply`. */
  function TranscribeWindow(env: Environment, reply: Result<string, string>): (w: WindowResult)
    ensures GetGroqClient(env).Err? ==> w == Raised(MISSING_GROQ_KEY_MESSAGE)
    ensures GetGroqClient(env).Ok? && reply.Ok? ==> w == Transcribed(reply.value)
    ensures GetGroqClient(env).Ok? && reply.Err? ==> w == Raised(reply.error)
  {
    match GetGroqClient(env)
    case Err(e) => Raised(e.message)
    case Ok(_) =>
      match reply
      case Ok(text) => Transcribed(text)
      case Err(message) => Raised(message)
  }

  /** The line printed for a window once its result is known. */
  function RenderResult(w: WindowResult): string
  {
    match w
    case Transcribed(text) =>
      if Strip(text) != [] then ClearStatus() + "\U{1F4DD} " + Strip(text) + "\n"
      else ClearStatus() + "   (silence)\n"
    case Raised(message) => ClearStatus() + "\U{274C} Error: " + message + "\n"
  }

  /** Every result line first blanks the 50-character status line; then it
      shows the stripped text when that is non-blank, `(silence)` when the
      text is blank, and the error message for an exception. */
  lemma RenderResultCases(w: WindowResult)
    ensures var line := RenderResult(w); var n := |ClearStatus()|;
      n == 52 && |line| > n && line[..n] == ClearStatus()
      && (w.Transcribed? && Strip(w.text) != [] ==> line[n..] == "\U{1F4DD} " + Strip(w.text) + "\n")
      && (w.Transcribed? && Strip(w.text) == [] ==> line[n..] == "   (silence)\n")
      && (w.Raised? ==> line[n..] == "\U{274C} Error: " + w.message + "\n")
  {
    var n := |ClearStatus()|;
    var line := RenderResult(w);
    match w
    case Transcribed(text) =>
      if Strip(text) != [] {
        assert line == ClearStatus() + ("\U{1F4DD} " + Strip(text) + "\n");
      } else {
        assert line == ClearStatus() + "   (silence)\n";
      }
    case Raised(message) =>
      assert line == ClearStatus() + ("\U{274C} Error: " + message + "\n");
  }

  /** The three kinds of result line can be told apart by their first
      character after the clearing prefix. */
  lemma RenderResultDistinguishes(w: WindowResult)
    ensures var body := RenderResult(w)[|ClearStatus()|..];
      body[0] == (if w.Raised? then '\U{274C}' else if Strip(w.text) != [] then '\U{1F4DD}' else ' ')
  {
    RenderResultCases(w);
  }

  /** Everything one window prints. */
  function WindowOutput(env: Environment, duration: string, reply: Result<string, string>): string
  {
    RecordingStatus(duration) + TranscribingStatus() + RenderResult(TranscribeWindow(env, reply))
  }

  /** Everything the windows print, in order. */
  function WindowsOutput(env: Environment, duration: string, replies: seq<Result<string, string>>): string
  {
    FlatMap(reply => WindowOutput(env, duration, reply), replies)
  }

  /** The lines printed when Ctrl+C stops the loop. */
  function StoppedOutput(): string
  {
    ClearStatus() + "\n" + "\U{1F6D1} Transcription stopped.\n"
  }

  /** The loop of `run_groq_transcription` after its banner: `replies[k]` is
      the service's reply for window k; Ctrl+C arrives while the window after
      the last reply is being recorded. An exception in one window is shown
      and the loop goes on to the next. */
  method RunGroqTranscription(env: Environment, duration: string, replies: seq<Result<string, string>>)
    returns (output: string)
    ensures output == WindowsOutput(env, duration, replies) + RecordingStatus(duration) + StoppedOutput()
  {
    output := "";
    for k := 0 to |replies|
      invariant output == WindowsOutput(env, duration, replies[..k])
    {
      var result := TranscribeWindow(env, replies[k]);
      var window := RecordingStatus(duration) + TranscribingStatus() + RenderResult(result);
      WindowsOutputSnoc(env, duration, replies[..k], replies[k]);
      PrefixSnoc(replies, k);
      output := output + window;
    }
    assert replies[..|replies|] == replies;
    output := output + RecordingStatus(duration) + StoppedOutput();
  }

  lemma WindowsOutputSnoc(env: Environment, duration: string, front: seq<Result<string, string>>, reply: Result<string, string>)
    ensures WindowsOutput(env, duration, front + [reply]) == WindowsOutput(env, duration, front) + WindowOutput(env, duration, reply)
  {
    FlatMapSnoc(reply => WindowOutput(env, duration, reply), front, reply);
  }

  /** The windows print independently: the output of a run is the output of
      its first part followed by that of the rest, so a window that raised
      does not end or alter the windows after it. */
  lemma WindowsOutputConcat(env: Environment, duration: string,
                              front: seq<Result<string, string>>, back: seq<Result<string, string>>)
    ensures WindowsOutput(env, duration, front + back) == WindowsOutput(env, duration, front) + WindowsOutput(env, duration, back)
  {
    FlatMapConcat(reply => WindowOutput(env, duration, reply), front, back);
  }

  /** Without a Groq key every window shows the key error, so the output
      depends only on the number of windows, not on any reply. */
  lemma {:induction false} MissingGroqKeyEveryWindowFails(env: Environment, duration: string,
                                                           replies1: seq<Result<string, string>>, replies2: seq<Result<string, string>>)
    requires GetGroqClient(env).Err? && |replies1| == |replies2|
    ensures WindowsOutput(env, duration, replies1) == WindowsOutput(env, duration, replies2)
    decreases |replies1|
  {
    if replies1 != [] {
      var n := |replies1| - 1;
      MissingGroqKeyEveryWindowFails(env, duration, replies1[..n], replies2[..n]);
    }
  }

  // ---------------------------------------------------------------------------
  // Backend dispatch
  // ---------------------------------------------------------------------------

  /** The two live loops. */
  datatype LiveLoop = GroqLoop | GeminiLoop

  /** `run_live_transcription`: the loop the backend name selects, or the ValueError message. */
  function RunLiveTranscription(backend: string): (r: Result<LiveLoop, string>)
    ensures r.Ok? <==> backend == "groq" || backend == "gemini"
    ensures r == Ok(GroqLoop) <==> backend == "groq"
    ensures r.Err? ==> r.error == "Unknown backend: " + backend + ". Use 'groq' or 'gemini'."
  {
    if backend == "groq" then Ok(GroqLoop)
    else if backend == "gemini" then Ok(GeminiLoop)
    else Err("Unknown backend: " + backend + ". Use 'groq' or 'gemini'.")
  }

  // ---------------------------------------------------------------------------
  // The Gemini receive handler
  // ---------------------------------------------------------------------------

  /** `response.server_content.input_transcription`. */
  datatype Transcription = Transcription(text: Option<string>)

  /** `response.server_content`; an absent `turn_complete` reads as false. */
  datatype ServerContent = ServerContent(inputTranscription: Option<Transcription>, turnComplete: bool)

  /** One message of the live session. */
  datatype Response = Response(serverContent: Option<ServerContent>)

  /** The two variables of the handler, as a value. */
  datatype Screen = Screen(buffer: seq<string>, lastLineLength: nat)

  const InitialScreen: Screen := Screen([], 0)

  /** The line shown for the buffered text. */
  function DisplayLine(buffer: seq<string>): string
  {
    "\U{1F4DD} " + Strip(Concat(buffer))
  }

  /** `"\r" + " " * previous + "\r" + text`. */
  function Redraw(previous: nat, text: string): string
  {
    "\r" + Repeat(' ', previous) + "\r" + text
  }

  /** A transcript event: a non-empty text is appended and the line redrawn;
      an absent or empty text changes nothing. */
  function AppendText(s: Screen, text: Option<string>): (Screen, string)
  {
    if text.Some? && text.value != "" then
      var buffer := s.buffer + [text.value];
      (Screen(buffer, |DisplayLine(buffer)|), Redraw(s.lastLineLength, DisplayLine(buffer)))
    else (s, "")
  }

  /** A turn-complete event: a non-empty buffer is printed as a finished
      line and both variables are reset; an empty buffer changes nothing. */
  function CompleteTurn(s: Screen): (Screen, string)
  {
    if s.buffer != [] then (InitialScreen, Redraw(s.lastLineLength, DisplayLine(s.buffer)) + "\n")
    else (s, "")
  }

  /** One response: the transcript is handled before the turn-complete flag. */
  function Step(s: Screen, r: Response): (Screen, string)
  {
    match r.serverContent
    case None => (s, "")
    case Some(content) =>
      var (s1, out1) :=
        if content.inputTranscription.Some? then AppendText(s, content.inputTranscription.value.text) else (s, "");
      var (s2, out2) := if content.turnComplete then CompleteTurn(s1) else (s1, "");
      (s2, out1 + out2)
  }

  /** The screen and the printed text after a sequence of responses. */
  function Run(s: Screen, responses: seq<Response>): (Screen, string)
  {
    if responses == [] then (s, "")
    else
      var (s1, out1) := Run(s, responses[..|responses| - 1]);
      var (s2, out2) := Step(s1, responses[|responses| - 1]);
      (s2, out1 + out2)
  }

  /** The invariant the handler keeps: the buffer holds only non-empty
      pieces, and `last_line_length` is the length of the line on screen
      (0 when nothing is buffered). */
  predicate Consistent(s: Screen)
  {
    (forall k :: 0 <= k < |s.buffer| ==> s.buffer[k] != "")
    && s.lastLineLength == (if s.buffer == [] then 0 else |DisplayLine(s.buffer)|)
  }

  /** A transcript event with text appends exactly that text and records the
      length of the new line; the redraw blanks exactly the previous length. */
  lemma AppendTextEffect(s: Screen, text: string)
    requires text != ""
    ensures var (s1, out) := AppendText(s, Some(text));
      s1.buffer == s.buffer + [text] && |s1.buffer| == |s.buffer| + 1
      && s1.lastLineLength == |"\U{1F4DD} " + Strip(Concat(s.buffer + [text]))|
      && out == "\r" + Repeat(' ', s.lastLineLength) + "\r" + "\U{1F4DD} " + Strip(Concat(s.buffer + [text]))
  {
  }

  /** On turn-complete with pieces buffered, the finished line is the
      stripped join of the pieces, and the screen is reset. */
  lemma CompleteTurnFlushes(s: Screen)
    requires s.buffer != []
    ensures var (s1, out) := CompleteTurn(s);
      s1 == Screen([], 0)
      && out == "\r" + Repeat(' ', s.lastLineLength) + "\r" + "\U{1F4DD} " + Strip(Concat(s.buffer)) + "\n"
  {
  }

  /** A transcript event whose text is absent or empty leaves the screen as
      it was and prints nothing. */
  lemma AppendNothing(s: Screen, text: Option<string>)
    requires text.None? || text.value == ""
    ensures AppendText(s, text) == (s, "")
  {
  }

  /** Turn-complete with nothing buffered changes nothing and prints nothing. */
  lemma CompleteEmptyTurn(s: Screen)
    requires s.buffer == []
    ensures CompleteTurn(s) == (s, "")
  {
  }

  /** A response carrying both a text and turn-complete prints the line with
      that text as finished and ends with an empty buffer. */
  lemma TextThenTurnComplete(s: Screen, text: string)
    requires text != ""
    ensures var r := Response(Some(ServerContent(Some(Transcription(Some(text))), true)));
      var (s1, out) := Step(s, r);
      var line := DisplayLine(s.buffer + [text]);
      s1 == InitialScreen
      && out == Redraw(s.lastLineLength, line) + Redraw(|line|, line) + "\n"
  {
  }

  /** Each response keeps the invariant. */
  lemma StepKeepsConsistent(s: Screen, r: Response)
    requires Consistent(s)
    ensures Consistent(Step(s, r).0)
  {
    if r.serverContent.Some? && r.serverContent.value.inputTranscription.Some? {
      var text := r.serverContent.value.inputTranscription.value.text;
      if text.Some? && text.value != "" {
        var b := s.buffer + [text.value];
        assert forall k :: 0 <= k < |b| ==> b[k] != "" by {
          forall k | 0 <= k < |b| ensures b[k] != "" {
            if k < |s.buffer| { assert b[k] == s.buffer[k]; }
          }
        }
      }
    }
  }

  /** Every reachable screen is consistent. */
  lemma {:induction false} RunKeepsConsistent(s: Screen, responses: seq<Response>)
    requires Consistent(s)
    ensures Consistent(Run(s, responses).0)
  {
    if responses != [] {
      RunKeepsConsistent(s, responses[..|responses| - 1]);
      StepKeepsConsistent(Run(s, responses[..|responses| - 1]).0, responses[|responses| - 1]);
    }
  }

  /** On a consistent screen with text buffered, any redraw blanks exactly
      as many cells as the line on screen has. */
  lemma RedrawCoversScreen(s: Screen, r: Response)
    requires Consistent(s) && s.buffer != []
    requires Step(s, r).1 != ""
    ensures var clear := "\r" + Repeat(' ', |DisplayLine(s.buffer)|) + "\r";
      |Step(s, r).1| >= |clear| && Step(s, r).1[..|clear|] == clear
  {
  }

  /** Whether a response ends a turn. */
  predicate EndsTurn(r: Response)
  {
    r.serverContent.Some? && r.serverContent.value.turnComplete
  }

  /** The non-empty transcript texts of a sequence of responses, in order. */
  function Texts(responses: seq<Response>): seq<string>
  {
    if responses == [] then []
    else
      var r := responses[|responses| - 1];
      var piece :=
        if r.serverContent.Some? && r.serverContent.value.inputTranscription.Some?
           && r.serverContent.value.inputTranscription.value.text.Some?
           && r.serverContent.value.inputTranscription.value.text.value != ""
        then [r.serverContent.value.inputTranscription.value.text.value] else [];
      Texts(responses[..|responses| - 1]) + piece
  }

  /** A response that ends a turn leaves the buffer empty, whatever it held. */
  lemma TurnEndEmptiesBuffer(s: Screen, r: Response)
    requires EndsTurn(r)
    ensures Step(s, r).0.buffer == []
  {
  }

  /** After a run of responses none of which ends a turn, the buffer is the
      starting buffer followed by the run's texts. */
  lemma {:induction false} RunBuffersTexts(s: Screen, responses: seq<Response>)
    requires forall k :: 0 <= k < |responses| ==> !EndsTurn(responses[k])
    ensures Run(s, responses).0.buffer == s.buffer + Texts(responses)
  {
    if responses != [] {
      var n := |responses| - 1;
      RunBuffersTexts(s, responses[..n]);
    }
  }

  lemma {:induction false} RunConcat(s: Screen, front: seq<Response>, back: seq<Response>)
    ensures Run(s, front + back).0 == Run(Run(s, front).0, back).0
    decreases |back|
  {
    if back == [] {
      assert front + back == front;
    } else {
      var n := |back| - 1;
      ConcatPrefix(front, back, n);
      RunConcat(s, front, back[..n]);
    }
  }

  /** One more response steps the screen the run left. */
  lemma RunSnocScreen(s: Screen, responses: seq<Response>, r: Response)
    ensures Run(s, responses + [r]).0 == Step(Run(s, responses).0, r).0
  {
    assert (responses + [r])[..|responses|] == responses;
  }

  /** After any run from the initial screen, the buffer holds exactly the
      non-empty texts received since the last response that ended a turn. */
  lemma BufferHoldsTextsSinceLastTurn(responses: seq<Response>, j: nat)
    requires j < |responses| && EndsTurn(responses[j])
    requires forall k :: j < k < |responses| ==> !EndsTurn(responses[k])
    ensures Run(InitialScreen, responses).0.buffer == Texts(responses[j + 1..])
  {
    var before, back := responses[..j], responses[j + 1..];
    var front := before + [responses[j]];
    assert responses == front + back;
    RunConcat(InitialScreen, front, back);
    RunSnocScreen(InitialScreen, before, responses[j]);
    TurnEndEmptiesBuffer(Run(InitialScreen, before).0, responses[j]);
    var turnEnd := Run(InitialScreen, front).0;
    assert turnEnd.buffer == [];
    forall k | 0 <= k < |back|
      ensures !EndsTurn(back[k])
    {
      assert back[k] == responses[j + 1 + k];
    }
    RunBuffersTexts(turnEnd, back);
    assert [] + Texts(back) == Texts(back);
  }

  /** The handler's state, updated in place as responses arrive. */
  class LiveTranscript {
    var textBuffer: seq<string>
    var lastLineLength: nat

    function Current(): Screen
      reads this
    {
      Screen(textBuffer, lastLineLength)
    }

    predicate Valid()
      reads this
    {
      Consistent(Current())
    }

    constructor ()
      ensures Valid()
      ensures textBuffer == [] && lastLineLength == 0
    {
      textBuffer := [];
      lastLineLength := 0;
    }

    /** The transcript branch of the handler; returns what it prints. */
    method OnTranscript(text: Option<string>) returns (printed: string)
      requires Valid()
      modifies this
      ensures Valid()
      ensures (Current(), printed) == AppendText(old(Current()), text)
    {
      printed := "";
      if text.Some? && text.value != "" {
        var clear := "\r" + Repeat(' ', lastLineLength) + "\r";
        textBuffer := textBuffer + [text.value];
        var display := DisplayLine(textBuffer);
        printed := clear + display;
        lastLineLength := |display|;
        StepKeepsConsistent(old(Current()), Response(Some(ServerContent(Some(Transcription(text)), false))));
      }
    }

    /** The turn-complete branch of the handler; returns what it prints. */
    method OnTurnComplete() returns (printed: string)
      requires Valid()
      modifies this
      ensures Valid()
      ensures (Current(), printed) == CompleteTurn(old(Current()))
    {
      printed := "";
      if textBuffer != [] {
        var finalText := Strip(Concat(textBuffer));
        printed := Redraw(lastLineLength, "\U{1F4DD} " + finalText) + "\n";
        textBuffer := [];
        lastLineLength := 0;
      }
    }

    /** The body of `async for response in turn`. */
    method OnResponse(r: Response) returns (printed: string)
      requires Valid()
      modifies this
      ensures Valid()
      ensures (Current(), printed) == Step(old(Current()), r)
    {
      printed := "";
      if r.serverContent.Some? {
        var content := r.serverContent.value;
        if content.inputTranscription.Some? {
          printed := OnTranscript(content.inputTranscription.value.text);
        }
        ghost var middle := Current();
        ghost var first := printed;
        if content.turnComplete {
          var more := OnTurnComplete();
          printed := printed + more;
          assert (Current(), more) == CompleteTurn(middle);
        } else {
          assert printed == first + "";
        }
      }
    }

    /** `receive_transcription` over the responses received before the
        session ends. */
    method ReceiveAll(responses: seq<Response>) returns (printed: string)
      requires Valid()
      modifies this
      ensures Valid()
      ensures (Current(), printed) == Run(old(Current()), responses)
    {
      printed := "";
      for k := 0 to |responses|
        invariant Valid()
        invariant (Current(), printed) == Run(old(Current()), responses[..k])
      {
        assert responses[..k + 1][..k] == responses[..k];
        var out := OnResponse(responses[k]);
        printed := printed + out;
      }
      assert responses[..|responses|] == responses;
    }
  }
}
