/** The voice-recorder page as a state machine over its three hooks:
    `isRecording`, `hasRecording` and `transcription`. Speech capture and
    transcription are mocked in the page: stopping always yields the same
    text. */
module VoiceRecorder {

  datatype Recorder = Recorder(isRecording: bool, hasRecording: bool, transcription: string)

  const Initial := Recorder(false, false, "")

  /** The fixed text stopping a recording produces. */
  const MockTranscription := "I just had the most profound realization about fear. It's not something to overcome, but something to understand. My father used to say that courage isn't the absence of fear, but acting despite it..."

  /** `toggleRecording`, behind both the microphone button and "Record
      Again": stopping keeps the (mock) recording and its transcription;
      starting drops any previous recording and transcription. */
  function Toggle(s: Recorder): (r: Recorder)
    ensures r.isRecording == !s.isRecording
    ensures r.hasRecording == s.isRecording
    ensures r.transcription == if s.isRecording then MockTranscription else ""
  {
    if s.isRecording then Recorder(false, true, MockTranscription)
    else Recorder(true, false, "")
  }

  /** `discard`: back to the initial state, from any state. */
  function Discard(s: Recorder): (r: Recorder)
    ensures !r.isRecording && !r.hasRecording && r.transcription == ""
  {
    Recorder(false, false, "")
  }

  /** Editing the transcription box, which exists only while a recording is
      held. */
  function EditTranscription(s: Recorder, text: string): (r: Recorder)
    ensures s.hasRecording ==> r == s.(transcription := text)
    ensures !s.hasRecording ==> r == s
  {
    if s.hasRecording then s.(transcription := text) else s
  }

  /** Discarding twice is discarding once. */
  lemma DiscardIdempotent(s: Recorder)
    ensures Discard(Discard(s)) == Discard(s) == Initial
  {
  }

  /** The states the page can reach: never recording and holding a
      recording at once, and no transcription unless a recording is held. */
  predicate Consistent(s: Recorder)
  {
    && !(s.isRecording && s.hasRecording)
    && (!s.hasRecording ==> s.transcription == "")
  }

  /** The three screens of the page. */
  datatype Phase = Ready | Recording | Review

  function PhaseOf(s: Recorder): Phase
  {
    if s.isRecording then Recording else if s.hasRecording then Review else Ready
  }

  /** In a reachable state the phase determines the state, apart from the
      transcription the user may have edited during review. */
  lemma PhaseDeterminesState(s: Recorder)
    requires Consistent(s)
    ensures PhaseOf(s) == Ready ==> s == Initial
    ensures PhaseOf(s) == Recording ==> s == Recorder(true, false, "")
    ensures PhaseOf(s) == Review ==> s.hasRecording && !s.isRecording
  {
  }

  /** The toggle cycles Ready -> Recording -> Review -> Recording: "Record
      Again" from review starts a fresh recording. */
  lemma ToggleCycle(s: Recorder)
    requires Consistent(s)
    ensures PhaseOf(s) == Ready ==> PhaseOf(Toggle(s)) == Recording
    ensures PhaseOf(s) == Recording ==> PhaseOf(Toggle(s)) == Review
    ensures PhaseOf(s) == Review ==> Toggle(s) == Recorder(true, false, "")
  {
  }

  datatype RecorderEvent = ToggleRecording | DiscardRecording | Edit(text: string)

  function Step(s: Recorder, e: RecorderEvent): (r: Recorder)
    ensures Consistent(s) ==> Consistent(r)
  {
    match e
    case ToggleRecording => Toggle(s)
    case DiscardRecording => Discard(s)
    case Edit(text) => EditTranscription(s, text)
  }

  function Run(s: Recorder, es: seq<RecorderEvent>): Recorder
    decreases |es|
  {
    if es == [] then s else Run(Step(s, es[0]), es[1..])
  }

  /** Every state reachable from the initial one is consistent: the page
      never records while holding a recording, and whenever it records the
      transcription is empty. */
  lemma {:induction false} ReachableConsistent(s: Recorder, es: seq<RecorderEvent>)
    requires Consistent(s)
    ensures Consistent(Run(s, es))
    ensures Run(s, es).isRecording ==> Run(s, es).transcription == ""
    decreases |es|
  {
    if es != [] {
      ReachableConsistent(Step(s, es[0]), es[1..]);
    }
  }

  lemma FromInitialConsistent(es: seq<RecorderEvent>)
    ensures Consistent(Run(Initial, es))
  {
    ReachableConsistent(Initial, es);
  }
}
