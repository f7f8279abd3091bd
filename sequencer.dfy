/**
 * The voice-guidance sequencer of script.js (`speakSingleStep`,
 * `startVoiceGuidance` and its inner `speakNextStep`, and the handlers they
 * install), as a value `Playback` and one function per event that changes it.
 *
 * The speech engine and the directions panel are reduced to what the code
 * observes of them: which utterance is being spoken, the list of steps handed
 * to the engine so far, how many step rows the panel shows, and which rows
 * carry the `speaking-step` class.
 */
module Sequencer {
  import opened Opt

  /** One routing instruction; only its text is read by the sequencer. */
  datatype RouteStep = RouteStep(text: string)

  datatype Playback = Playback(
    steps: seq<RouteStep>,      // the global `steps`
    rows: nat,                  // step rows in the directions panel
    highlighted: set<int>,      // rows with the `speaking-step` class
    currentSpeakingIndex: int,  // the global `currentSpeakingIndex`
    idx: int,                   // cursor of the latest `startVoiceGuidance` closure
    handlersInstalled: bool,    // `speechSynthesis.onend`/`onerror` set by `speakNextStep`
    outstanding: Option<int>,   // step of the utterance being spoken, if any
    narrated: seq<int>)         // steps handed to `speechSynthesis.speak`, in order

  /** Page load: no steps, nothing highlighted, nothing spoken. */
  function Initial(): (s: Playback)
    ensures Valid(s) && s.narrated == [] && s.outstanding == None && s.highlighted == {}
  {
    Playback([], 0, {}, -1, 0, false, None, [])
  }

  /**
   * The states the events below can reach. At most the row of
   * `currentSpeakingIndex` is highlighted, only rows that exist are, and the
   * utterance in flight is the one for `currentSpeakingIndex`.
   */
  ghost predicate Valid(s: Playback) {
    -1 <= s.currentSpeakingIndex &&
    0 <= s.idx &&
    (s.rows == 0 || s.rows == |s.steps|) &&
    s.highlighted <= {s.currentSpeakingIndex} &&
    (forall k :: k in s.highlighted ==> 0 <= k < s.rows) &&
    (s.outstanding.Some? ==> 0 <= s.outstanding.value == s.currentSpeakingIndex)
  }

  /** `dirPanel.children[k]` is a step row. */
  predicate RowExists(s: Playback, k: int) {
    0 <= k < s.rows
  }

  /** `dirPanel.children[k].classList.remove('speaking-step')`, guarded by the row existing. */
  function Unhighlight(s: Playback, k: int): (h: set<int>) {
    if RowExists(s, k) then s.highlighted - {k} else s.highlighted
  }

  /**
   * `speakSingleStep(i)`. With no steps it only alerts. Otherwise it cancels
   * the utterance in flight, moves the highlight from `currentSpeakingIndex`
   * to row `i`, and speaks step `i`.
   */
  function SpeakSingleStep(s: Playback, i: int): (r: Playback)
    requires Valid(s)
    requires s.steps == [] || 0 <= i < |s.steps|
    ensures Valid(r)
    ensures s.steps == [] ==> r == s
    ensures s.steps != [] ==>
      r.currentSpeakingIndex == i && r.outstanding == Some(i) &&
      r.narrated == s.narrated + [i] &&
      r.highlighted == (if RowExists(s, i) then {i} else {}) &&
      r.steps == s.steps && r.rows == s.rows &&
      r.idx == s.idx && r.handlersInstalled == s.handlersInstalled
  {
    if s.steps == [] then s
    else
      var h := if s.currentSpeakingIndex != -1 then Unhighlight(s, s.currentSpeakingIndex) else s.highlighted;
      var h' := if RowExists(s, i) then h + {i} else h;
      s.(highlighted := h', currentSpeakingIndex := i, outstanding := Some(i), narrated := s.narrated + [i])
  }

  /**
   * `speakNextStep`, the body of the guidance closure. Past the last step it
   * clears the highlight of `currentSpeakingIndex` and resets it to -1;
   * otherwise it speaks step `idx` and (re)installs the global handlers.
   */
  function SpeakNextStep(s: Playback): (r: Playback)
    requires Valid(s)
    requires s.outstanding == None
    ensures Valid(r)
    ensures r.steps == s.steps && r.rows == s.rows && r.idx == s.idx
    ensures s.idx >= |s.steps| ==>
      r.currentSpeakingIndex == -1 && r.highlighted == {} && r.outstanding == None &&
      r.narrated == s.narrated && r.handlersInstalled == s.handlersInstalled
    ensures s.idx < |s.steps| ==>
      r.currentSpeakingIndex == s.idx && r.outstanding == Some(s.idx) &&
      r.narrated == s.narrated + [s.idx] && r.handlersInstalled &&
      r.highlighted == (if RowExists(s, s.idx) then {s.idx} else {})
  {
    if s.idx >= |s.steps| then
      var h := if s.currentSpeakingIndex != -1 then Unhighlight(s, s.currentSpeakingIndex) else s.highlighted;
      s.(highlighted := h, currentSpeakingIndex := -1)
    else
      SpeakSingleStep(s, s.idx).(handlersInstalled := true)
  }

  /**
   * `startVoiceGuidance`. With no steps nothing changes. Otherwise it cancels
   * speech, resets `currentSpeakingIndex` to -1, starts a closure with
   * `idx = 0` and speaks step 0. Its one caller runs it right after the panel
   * is re-rendered, so no row is highlighted on entry.
   */
  function StartVoiceGuidance(s: Playback): (r: Playback)
    requires Valid(s)
    requires s.highlighted == {}
    ensures Valid(r)
    ensures s.steps == [] ==> r == s
    ensures s.steps != [] ==>
      r.idx == 0 && r.handlersInstalled &&
      r.currentSpeakingIndex == 0 && r.outstanding == Some(0) &&
      r.narrated == s.narrated + [0] &&
      r.highlighted == (if s.rows > 0 then {0} else {}) &&
      r.steps == s.steps && r.rows == s.rows
  {
    if s.steps == [] then s
    else SpeakNextStep(s.(outstanding := None, currentSpeakingIndex := -1, idx := 0))
  }

  /**
   * The utterance in flight finishes. Its own `onend` only logs. If guidance
   * has installed `speechSynthesis.onend`, that handler un-highlights row
   * `idx`, advances `idx` and runs `speakNextStep`. With nothing in flight no
   * event arrives.
   */
  function NarrationEnd(s: Playback): (r: Playback)
    requires Valid(s)
    ensures Valid(r)
    ensures r.steps == s.steps && r.rows == s.rows && r.handlersInstalled == s.handlersInstalled
    ensures s.outstanding == None ==> r == s
    ensures s.outstanding.Some? && !s.handlersInstalled ==> r == s.(outstanding := None)
    ensures s.outstanding.Some? && s.handlersInstalled ==>
      r.idx == s.idx + 1 &&
      if s.idx + 1 < |s.steps| then
        r.currentSpeakingIndex == s.idx + 1 && r.outstanding == Some(s.idx + 1) &&
        r.narrated == s.narrated + [s.idx + 1] &&
        r.highlighted == (if RowExists(s, s.idx + 1) then {s.idx + 1} else {})
      else
        r.currentSpeakingIndex == -1 && r.outstanding == None &&
        r.narrated == s.narrated && r.highlighted == {}
  {
    match s.outstanding
    case None => s
    case Some(_) =>
      var t := s.(outstanding := None);
      if !t.handlersInstalled then t
      else SpeakNextStep(t.(highlighted := Unhighlight(t, t.idx), idx := t.idx + 1))
  }

  /**
   * The engine reports an error for the utterance in flight. The utterance's
   * `onerror` removes the highlight of the row it was spoken for and resets
   * `currentSpeakingIndex`; if guidance has installed `speechSynthesis.onerror`,
   * that handler cancels speech, un-highlights row `idx` and resets it too.
   */
  function NarrationError(s: Playback): (r: Playback)
    requires Valid(s)
    ensures Valid(r)
    ensures s.outstanding == None ==> r == s
    ensures s.outstanding.Some? ==>
      r.currentSpeakingIndex == -1 && r.highlighted == {} && r.outstanding == None &&
      r.narrated == s.narrated && r.idx == s.idx && r.steps == s.steps &&
      r.rows == s.rows && r.handlersInstalled == s.handlersInstalled
  {
    match s.outstanding
    case None => s
    case Some(k) =>
      var t := s.(highlighted := s.highlighted - {k}, currentSpeakingIndex := -1, outstanding := None);
      if !t.handlersInstalled then t
      else t.(highlighted := Unhighlight(t, t.idx), currentSpeakingIndex := -1)
  }

  /**
   * `getRoute.onclick` once both endpoints are set (`ready`): speech is
   * cancelled and the panel emptied. Without both endpoints it only alerts.
   */
  function RequestRoute(s: Playback, ready: bool): (r: Playback)
    requires Valid(s)
    ensures Valid(r)
    ensures !ready ==> r == s
    ensures ready ==>
      r.outstanding == None && r.rows == 0 && r.highlighted == {} &&
      r.steps == s.steps && r.narrated == s.narrated &&
      r.currentSpeakingIndex == s.currentSpeakingIndex && r.idx == s.idx &&
      r.handlersInstalled == s.handlersInstalled
  {
    if !ready then s else s.(outstanding := None, rows := 0, highlighted := {})
  }

  /**
   * The `routesfound` handler: store the new steps, render one fresh row per
   * step, and start guidance. An empty route starts nothing, so an utterance
   * still in flight is not cancelled.
   */
  function RoutesFound(s: Playback, newSteps: seq<RouteStep>): (r: Playback)
    requires Valid(s)
    ensures Valid(r)
    ensures r.steps == newSteps && r.rows == |newSteps|
    ensures newSteps == [] ==>
      r.highlighted == {} && r.outstanding == s.outstanding && r.narrated == s.narrated &&
      r.currentSpeakingIndex == s.currentSpeakingIndex && r.idx == s.idx &&
      r.handlersInstalled == s.handlersInstalled
    ensures newSteps != [] ==>
      r.idx == 0 && r.handlersInstalled && r.currentSpeakingIndex == 0 &&
      r.outstanding == Some(0) && r.highlighted == {0} && r.narrated == s.narrated + [0]
  {
    StartVoiceGuidance(s.(steps := newSteps, rows := |newSteps|, highlighted := {}))
  }

  /** The state after `n` narrations in a row finish with no other event between them. */
  function Completions(s: Playback, n: nat): (r: Playback)
    requires Valid(s)
    ensures Valid(r)
    ensures r.steps == s.steps && r.rows == s.rows
  {
    if n == 0 then s else NarrationEnd(Completions(s, n - 1))
  }

  /** The indices 0 .. n-1 in order. */
  function Upto(n: nat): (r: seq<int>)
    ensures |r| == n && forall i :: 0 <= i < n ==> r[i] == i
  {
    seq(n, i => i)
  }

  /**
   * Guidance on a new route speaks step 0, then, at each completion, the next
   * step; after `k < n` completions step `k` is the one spoken and the only
   * one highlighted, and after `n` completions all `n` steps have been spoken
   * in order, `currentSpeakingIndex` is -1 and no row is highlighted.
   */
  lemma {:induction false} GuidanceSpeaksInOrder(s: Playback, steps: seq<RouteStep>, k: nat)
    requires Valid(s)
    requires steps != [] && k <= |steps|
    ensures var r := Completions(RoutesFound(s, steps), k);
      r.narrated == s.narrated + Upto(if k < |steps| then k + 1 else k) &&
      r.handlersInstalled && r.idx == k && r.rows == |steps| &&
      (k < |steps| ==>
        r.currentSpeakingIndex == k && r.outstanding == Some(k) && r.highlighted == {k}) &&
      (k == |steps| ==>
        r.currentSpeakingIndex == -1 && r.outstanding == None && r.highlighted == {})
  {
    var t := RoutesFound(s, steps);
    if k == 0 {
      assert Upto(1) == [0];
    } else {
      GuidanceSpeaksInOrder(s, steps, k - 1);
      var p := Completions(t, k - 1);
      assert Completions(t, k) == NarrationEnd(p);
      if k < |steps| {
        assert Upto(k) + [k] == Upto(k + 1);
      }
    }
  }

  /** With nothing in flight, no completion arrives, so nothing changes. */
  lemma {:induction false} SettledStaysSettled(s: Playback, m: nat)
    requires Valid(s) && s.outstanding == None
    ensures Completions(s, m) == s
  {
    if m > 0 {
      SettledStaysSettled(s, m - 1);
    }
  }

  /**
   * A narration error while guidance speaks step `k` ends guidance: the
   * highlight is gone, `currentSpeakingIndex` is -1, steps 0..k are all that
   * was spoken, and no completion alone speaks another step (a click does:
   * see `ClickAfterErrorResumesGuidance`).
   */
  lemma ErrorStopsGuidance(s: Playback, steps: seq<RouteStep>, k: nat, m: nat)
    requires Valid(s)
    requires k < |steps|
    ensures var e := NarrationError(Completions(RoutesFound(s, steps), k));
      e.currentSpeakingIndex == -1 && e.highlighted == {} && e.outstanding == None &&
      e.narrated == s.narrated + Upto(k + 1) &&
      Completions(e, m) == e
  {
    GuidanceSpeaksInOrder(s, steps, k);
    SettledStaysSettled(NarrationError(Completions(RoutesFound(s, steps), k)), m);
  }

  /**
   * The global `onend` handler is never removed: a step clicked while guidance
   * runs is spoken, and when it finishes guidance resumes at `idx + 1`.
   */
  lemma ClickDuringGuidanceResumesAtCursor(s: Playback, i: int)
    requires Valid(s)
    requires s.handlersInstalled && s.rows == |s.steps|
    requires 0 <= i < |s.steps| && s.idx + 1 < |s.steps|
    ensures var r := NarrationEnd(SpeakSingleStep(s, i));
      r.narrated == s.narrated + [i, s.idx + 1] &&
      r.currentSpeakingIndex == s.idx + 1 && r.highlighted == {s.idx + 1}
  {
  }

  /**
   * The global handlers outlive the guidance that installed them: after an
   * error at step `k`, a clicked row `i` is spoken and, when it finishes,
   * guidance resumes with step `k + 1`.
   */
  lemma ClickAfterErrorResumesGuidance(s: Playback, steps: seq<RouteStep>, k: nat, i: int)
    requires Valid(s)
    requires k + 1 < |steps| && 0 <= i < |steps|
    ensures var e := NarrationError(Completions(RoutesFound(s, steps), k));
      var r := NarrationEnd(SpeakSingleStep(e, i));
      r.narrated == s.narrated + Upto(k + 1) + [i, k + 1] &&
      r.currentSpeakingIndex == k + 1 && r.outstanding == Some(k + 1) && r.highlighted == {k + 1}
  {
    GuidanceSpeaksInOrder(s, steps, k);
    var e := NarrationError(Completions(RoutesFound(s, steps), k));
    assert e.narrated + [i] + [k + 1] == s.narrated + Upto(k + 1) + [i, k + 1];
  }

  /**
   * Once guidance has spoken every step, a clicked row `i` is spoken and
   * highlighted, and when it finishes the past-the-end branch of
   * `speakNextStep` removes its highlight and resets `currentSpeakingIndex`.
   */
  lemma ClickAfterGuidanceClearsHighlight(s: Playback, steps: seq<RouteStep>, i: int)
    requires Valid(s)
    requires 0 <= i < |steps|
    ensures var f := Completions(RoutesFound(s, steps), |steps|);
      var c := SpeakSingleStep(f, i);
      var r := NarrationEnd(c);
      c.highlighted == {i} && c.narrated == s.narrated + Upto(|steps|) + [i] &&
      r.highlighted == {} && r.currentSpeakingIndex == -1 && r.outstanding == None &&
      r.narrated == c.narrated
  {
    GuidanceSpeaksInOrder(s, steps, |steps|);
  }

  /** However events interleave, at most one row is highlighted. */
  lemma AtMostOneHighlight(s: Playback)
    requires Valid(s)
    ensures |s.highlighted| <= 1
  {
    if s.highlighted != {} {
      assert s.highlighted == {s.currentSpeakingIndex};
    }
  }
}
