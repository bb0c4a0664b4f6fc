/**
 The utterance state machine of the streaming recogniser. The recorder is
 idle or recording; while recording it accumulates recognised fragments in
 a buffer. For each finalised fragment it answers whether the listening loop
 goes on, and the call of the command processor is an emitted command.
 The recogniser, the audio stream and its queue are not part of this model.
 */
module VoiceRecorder {
  import opened Wrappers
  import opened Text

  /** The activation, end and stop keywords, lower-cased when the recorder is built. */
  datatype Recorder = Recorder(activation: string, end: string, stop: string)

  /** The recorder's mutable fields: `recording` and `interaction_transcript`. */
  datatype State = State(recording: bool, transcript: string)

  /** What one fragment produces: the next state, whether listening goes on,
      and the command handed to the command processor, if any. */
  datatype Step = Step(state: State, listening: bool, command: Option<string>)

  /** The constructor's keyword handling: each keyword is lower-cased once. */
  function NewRecorder(activation: string, end: string, stop: string): (r: Recorder)
    ensures IsLowerCase(r.activation) && IsLowerCase(r.end) && IsLowerCase(r.stop)
    ensures |r.activation| == |activation| && |r.end| == |end| && |r.stop| == |stop|
    ensures forall i :: 0 <= i < |activation| ==> r.activation[i] == LowerChar(activation[i])
    ensures forall i :: 0 <= i < |end| ==> r.end[i] == LowerChar(end[i])
    ensures forall i :: 0 <= i < |stop| ==> r.stop[i] == LowerChar(stop[i])
  {
    LowerIsLowerCase(activation);
    LowerIsLowerCase(end);
    LowerIsLowerCase(stop);
    LowerEach(activation);
    LowerEach(end);
    LowerEach(stop);
    Recorder(Lower(activation), Lower(end), Lower(stop))
  }

  /** The recorder built with the default keywords. */
  function DefaultRecorder(): Recorder {
    NewRecorder("Hello Ada", "thanks", "stop recording")
  }

  /** Freshly built: not recording, empty buffer. */
  const Initial: State := State(false, "")

  /** The buffer is empty whenever the recorder is idle. */
  ghost predicate Valid(st: State) {
    !st.recording ==> st.transcript == ""
  }

  /** `start_interaction`: only the flag changes; the buffer is kept, so a
      leftover buffer would be continued rather than replaced. */
  function StartInteraction(st: State): (r: State)
    ensures r.recording
    ensures r.transcript == st.transcript
  {
    st.(recording := true)
  }

  /** `stop_interaction`: the buffer goes to the command processor and is cleared. */
  function StopInteraction(st: State): (r: (State, string))
    ensures r.0 == Initial
    ensures r.1 == st.transcript
  {
    (State(false, ""), st.transcript)
  }

  /** The tail of `process_result`: while recording, the fragment is appended after a space. */
  function AppendIfRecording(st: State, fragment: string): State {
    if st.recording then st.(transcript := st.transcript + " " + fragment) else st
  }

  /** `process_result` for one recognised fragment. Keywords are matched as
      case-sensitive substrings of the fragment. */
  function ProcessResult(rec: Recorder, st: State, fragment: string): (r: Step)
    ensures r.command.Some? <==> st.recording && Contains(fragment, rec.end)
    ensures r.command.Some? ==> r.command.value == st.transcript && r.state == Initial && r.listening
    ensures !r.listening <==>
              && !(Contains(fragment, rec.activation) && !st.recording)
              && !(Contains(fragment, rec.end) && st.recording)
              && Contains(fragment, rec.stop)
    ensures !r.listening ==> r.state == st && r.command.None?
    ensures r.listening && r.command.None? ==>
              && r.state.recording == (st.recording || Contains(fragment, rec.activation))
              && r.state.transcript == (if r.state.recording then st.transcript + " " + fragment else st.transcript)
  {
    if Contains(fragment, rec.activation) && !st.recording then
      Step(AppendIfRecording(StartInteraction(st), fragment), true, None)
    else if Contains(fragment, rec.end) && st.recording then
      var (next, command) := StopInteraction(st);
      Step(AppendIfRecording(next, fragment), true, Some(command))
    else if Contains(fragment, rec.stop) then
      Step(st, false, None)
    else
      Step(AppendIfRecording(st, fragment), true, None)
  }

  /** Every step keeps the buffer empty while idle. */
  lemma ProcessResultKeepsValid(rec: Recorder, st: State, fragment: string)
    requires Valid(st)
    ensures Valid(ProcessResult(rec, st, fragment).state)
  {
  }

  /* ---------------- the listening loop ---------------- */

  /** What feeding a run of fragments produces: the final state, whether the
      loop is still listening, and the commands in the order emitted. */
  datatype Outcome = Outcome(state: State, listening: bool, commands: seq<string>)

  /** The consumer loop of `continuous_listen` over a finite run of finalised
      fragments: each goes through `process_result`, and the loop breaks at
      the first one that answers "stop". Each fragment hands at most one
      command on. */
  function Listen(rec: Recorder, st: State, fragments: seq<string>): (r: Outcome)
    ensures |r.commands| <= |fragments|
    decreases |fragments|
  {
    if |fragments| == 0 then Outcome(st, true, [])
    else
      var step := ProcessResult(rec, st, fragments[0]);
      if !step.listening then Outcome(step.state, false, [])
      else
        var rest := Listen(rec, step.state, fragments[1..]);
        var emitted := if step.command.Some? then [step.command.value] else [];
        Outcome(rest.state, rest.listening, emitted + rest.commands)
  }

  /** The buffer stays empty while idle, however many fragments are fed. */
  lemma {:induction false} ListenKeepsValid(rec: Recorder, st: State, fragments: seq<string>)
    requires Valid(st)
    ensures Valid(Listen(rec, st, fragments).state)
    decreases |fragments|
  {
    if |fragments| > 0 {
      ProcessResultKeepsValid(rec, st, fragments[0]);
      ListenKeepsValid(rec, ProcessResult(rec, st, fragments[0]).state, fragments[1..]);
    }
  }

  /** The fragments, each preceded by one space, in order. */
  function Spaced(fragments: seq<string>): string
    decreases |fragments|
  {
    if |fragments| == 0 then "" else " " + fragments[0] + Spaced(fragments[1..])
  }

  /** No fragment of the run holds the end or the stop keyword. */
  predicate Plain(rec: Recorder, fragments: seq<string>) {
    forall i :: 0 <= i < |fragments| ==>
      !Contains(fragments[i], rec.end) && !Contains(fragments[i], rec.stop)
  }

  /** While recording, plain fragments are appended in order, each after a
      space; the activation keyword has no effect then. */
  lemma {:induction false} ListenAccumulates(rec: Recorder, st: State, fragments: seq<string>)
    requires st.recording
    requires Plain(rec, fragments)
    ensures Listen(rec, st, fragments) == Outcome(State(true, st.transcript + Spaced(fragments)), true, [])
    decreases |fragments|
  {
    if |fragments| > 0 {
      var next := State(true, st.transcript + " " + fragments[0]);
      assert ProcessResult(rec, st, fragments[0]) == Step(next, true, None);
      ListenAccumulates(rec, next, fragments[1..]);
      assert next.transcript + Spaced(fragments[1..]) == st.transcript + Spaced(fragments);
    }
  }

  /** A first fragment that keeps the loop going without a command leaves
      the rest of the run to be fed from the state it produced. */
  lemma ListenQuietHead(rec: Recorder, st: State, x: string, xs: seq<string>)
    requires ProcessResult(rec, st, x).listening
    requires ProcessResult(rec, st, x).command.None?
    ensures Listen(rec, st, [x] + xs) == Listen(rec, ProcessResult(rec, st, x).state, xs)
  {
    assert ([x] + xs)[0] == x;
    assert ([x] + xs)[1..] == xs;
  }

  /** A fragment with the end keyword after a plain run emits exactly one
      command: the buffer with the whole run appended. The recorder is then idle
      with an empty buffer, and the closing fragment is not appended. */
  lemma {:induction false} ListenThenEnd(rec: Recorder, st: State, fragments: seq<string>, last: string)
    requires st.recording
    requires Plain(rec, fragments)
    requires Contains(last, rec.end)
    ensures Listen(rec, st, fragments + [last]) == Outcome(Initial, true, [st.transcript + Spaced(fragments)])
    decreases |fragments|
  {
    if |fragments| == 0 {
      assert fragments + [last] == [last];
      assert [last][1..] == [];
      assert st.transcript + Spaced(fragments) == st.transcript;
    } else {
      var next := State(true, st.transcript + " " + fragments[0]);
      assert ProcessResult(rec, st, fragments[0]) == Step(next, true, None);
      assert fragments + [last] == [fragments[0]] + (fragments[1..] + [last]);
      ListenQuietHead(rec, st, fragments[0], fragments[1..] + [last]);
      assert Plain(rec, fragments[1..]);
      ListenThenEnd(rec, next, fragments[1..], last);
      assert next.transcript + Spaced(fragments[1..]) == st.transcript + Spaced(fragments);
    }
  }

  /** A whole interaction from the idle state: the activating fragment, a
      plain run, and a closing fragment emit exactly one command, which holds
      the activating fragment and the run, each after a space. */
  lemma Interaction(rec: Recorder, first: string, fragments: seq<string>, last: string)
    requires Contains(first, rec.activation)
    requires Plain(rec, fragments)
    requires Contains(last, rec.end)
    ensures Listen(rec, Initial, [first] + fragments + [last]) ==
            Outcome(Initial, true, [" " + first + Spaced(fragments)])
  {
    var started := State(true, " " + first);
    assert ProcessResult(rec, Initial, first) == Step(started, true, None);
    assert [first] + fragments + [last] == [first] + (fragments + [last]);
    ListenQuietHead(rec, Initial, first, fragments + [last]);
    ListenThenEnd(rec, started, fragments, last);
  }

  /** Feeding two runs one after the other: the second run is fed only when
      the first did not stop, from the state the first left, and the
      commands come in the order they were emitted. */
  lemma {:induction false} ListenAppend(rec: Recorder, st: State, xs: seq<string>, ys: seq<string>)
    ensures !Listen(rec, st, xs).listening ==> Listen(rec, st, xs + ys) == Listen(rec, st, xs)
    ensures Listen(rec, st, xs).listening ==>
              var rest := Listen(rec, Listen(rec, st, xs).state, ys);
              Listen(rec, st, xs + ys) == Outcome(rest.state, rest.listening, Listen(rec, st, xs).commands + rest.commands)
    decreases |xs|
  {
    if |xs| == 0 {
      assert xs + ys == ys;
    } else {
      assert (xs + ys)[0] == xs[0];
      assert (xs + ys)[1..] == xs[1..] + ys;
      var step := ProcessResult(rec, st, xs[0]);
      if step.listening {
        ListenAppend(rec, step.state, xs[1..], ys);
        var emitted := if step.command.Some? then [step.command.value] else [];
        var tail := Listen(rec, step.state, xs[1..]);
        if tail.listening {
          var rest := Listen(rec, tail.state, ys);
          assert emitted + (tail.commands + rest.commands) == (emitted + tail.commands) + rest.commands;
        }
      }
    }
  }

  /** The loop breaks at the first fragment that answers "stop", wherever it
      is in the run: the state and commands are those before it, and later
      fragments are never processed. */
  lemma ListenBreaksAtStop(rec: Recorder, st: State, xs: seq<string>, x: string, ys: seq<string>)
    requires Listen(rec, st, xs).listening
    requires !ProcessResult(rec, Listen(rec, st, xs).state, x).listening
    ensures Listen(rec, st, xs + [x] + ys) ==
            Outcome(Listen(rec, st, xs).state, false, Listen(rec, st, xs).commands)
  {
    assert xs + [x] + ys == xs + ([x] + ys);
    ListenAppend(rec, st, xs, [x] + ys);
    ListenHalts(rec, Listen(rec, st, xs).state, x, ys);
    assert Listen(rec, st, xs).commands + [] == Listen(rec, st, xs).commands;
  }

  /** Fragments after the one that answers "stop" are never processed. */
  lemma ListenHalts(rec: Recorder, st: State, fragment: string, later: seq<string>)
    requires !ProcessResult(rec, st, fragment).listening
    ensures Listen(rec, st, [fragment] + later) == Outcome(st, false, [])
  {
    assert ([fragment] + later)[0] == fragment;
  }

  /* ---------------- the default keywords ---------------- */

  lemma DefaultKeywords()
    ensures DefaultRecorder() == Recorder("hello ada", "thanks", "stop recording")
  {
    LowerHelloAda();
    LowerThanks();
    LowerStopRecording();
  }

  lemma LowerThanks()
    ensures Lower("thanks") == "thanks"
  {
    LowerOfLowerCase("thanks");
  }

  lemma LowerHelloAda()
    ensures Lower("Hello Ada") == "hello ada"
  {
    assert "Hello Ada" == "Hell" + "o Ada";
    LowerAppend("Hell", "o Ada");
  }

  lemma LowerStopRecording()
    ensures Lower("stop recording") == "stop recording"
  {
    LowerOfLowerCase("stop recording");
  }

  lemma HelloAdaMatches()
    ensures !Contains("Hello Ada", "hello ada")
    ensures !Contains("Hello Ada", "stop recording")
    ensures Contains("hello ada", "hello ada")
  {
    ContainsAt("hello ada", "hello ada", 0);
  }

  /** Matching is case-sensitive against the lower-cased keywords: with the
      default recorder a capitalised "Hello Ada" does not start an
      interaction, "hello ada" does. */
  lemma CapitalisedActivationIgnored()
    ensures ProcessResult(DefaultRecorder(), Initial, "Hello Ada") == Step(Initial, true, None)
    ensures ProcessResult(DefaultRecorder(), Initial, "hello ada").state.recording
  {
    DefaultKeywords();
    HelloAdaMatches();
  }

  /** "build", "the" and "thing" hold neither the end nor the stop keyword
      of the default recorder, and spaced they give " build the thing". */
  lemma BuildTheThingIsPlain()
    ensures Plain(Recorder("hello ada", "thanks", "stop recording"), ["build", "the", "thing"])
    ensures Spaced(["build", "the", "thing"]) == " build the thing"
  {
    var fragments := ["build", "the", "thing"];
    forall i | 0 <= i < |fragments|
      ensures !Contains(fragments[i], "thanks") && !Contains(fragments[i], "stop recording")
    {
      ShorterAbsent(fragments[i], "thanks");
      ShorterAbsent(fragments[i], "stop recording");
    }
  }

  /** With the default recorder, three plain fragments fed while recording
      from an empty buffer leave " build the thing" in the buffer: each
      fragment is preceded by a space. */
  lemma SpacedFragments()
    ensures Listen(DefaultRecorder(), State(true, ""), ["build", "the", "thing"]) ==
            Outcome(State(true, " build the thing"), true, [])
  {
    DefaultKeywords();
    BuildTheThingIsPlain();
    ListenAccumulates(Recorder("hello ada", "thanks", "stop recording"), State(true, ""), ["build", "the", "thing"]);
  }
}
