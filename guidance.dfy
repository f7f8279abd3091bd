/**
 * The voice-guidance code of script.js as it runs: global variables and the
 * closure cursor as fields of one object, and one method per function or
 * event handler, each proved to perform the matching transition of
 * `Sequencer`, whose properties are proved there.
 */
module Guidance {
  import opened Opt
  import Sequencer

  class VoiceGuidance {
    var steps: seq<Sequencer.RouteStep>
    var rows: nat
    var highlighted: set<int>
    var currentSpeakingIndex: int
    var idx: int
    var handlersInstalled: bool
    var outstanding: Option<int>
    var narrated: seq<int>

    /** The fields as one `Sequencer.Playback` value. */
    function View(): Sequencer.Playback
      reads this
    {
      Sequencer.Playback(steps, rows, highlighted, currentSpeakingIndex, idx,
                         handlersInstalled, outstanding, narrated)
    }

    /** Page load. */
    constructor ()
      ensures View() == Sequencer.Initial()
    {
      steps, rows, highlighted := [], 0, {};
      currentSpeakingIndex, idx, handlersInstalled := -1, 0, false;
      outstanding, narrated := None, [];
    }

    /** `dirPanel.children[k]` guarded `classList.remove('speaking-step')`. */
    method RemoveHighlight(k: int)
      modifies this`highlighted
      ensures highlighted == Sequencer.Unhighlight(old(View()), k)
    {
      if 0 <= k < rows {
        highlighted := highlighted - {k};
      }
    }

    /** `speakSingleStep(i)`; `spoken` is false when it only alerts. */
    method SpeakSingleStep(i: int) returns (spoken: bool)
      requires Sequencer.Valid(View())
      requires steps == [] || 0 <= i < |steps|
      modifies this
      ensures spoken <==> old(steps) != []
      ensures View() == Sequencer.SpeakSingleStep(old(View()), i)
    {
      if steps == [] {
        return false;
      }
      outstanding := None;
      if currentSpeakingIndex != -1 {
        RemoveHighlight(currentSpeakingIndex);
      }
      if 0 <= i < rows {
        highlighted := highlighted + {i};
      }
      currentSpeakingIndex := i;
      outstanding := Some(i);
      narrated := narrated + [i];
      spoken := true;
    }

    /** `speakNextStep`, the guidance closure. */
    method SpeakNextStep()
      requires Sequencer.Valid(View())
      requires outstanding == None
      modifies this
      ensures View() == Sequencer.SpeakNextStep(old(View()))
    {
      if idx >= |steps| {
        if currentSpeakingIndex != -1 {
          RemoveHighlight(currentSpeakingIndex);
        }
        currentSpeakingIndex := -1;
        return;
      }
      var _ := SpeakSingleStep(idx);
      handlersInstalled := true;
    }

    /** `startVoiceGuidance`, run right after the steps are rendered; `started` is false on an empty route. */
    method StartVoiceGuidance() returns (started: bool)
      requires Sequencer.Valid(View())
      requires highlighted == {}
      modifies this
      ensures started <==> old(steps) != []
      ensures View() == Sequencer.StartVoiceGuidance(old(View()))
    {
      if steps == [] {
        return false;
      }
      outstanding := None;
      currentSpeakingIndex := -1;
      idx := 0;
      SpeakNextStep();
      started := true;
    }

    /** The utterance in flight finishes: its `onend`, then `speechSynthesis.onend` if installed. */
    method OnNarrationEnd()
      requires Sequencer.Valid(View())
      modifies this
      ensures View() == Sequencer.NarrationEnd(old(View()))
    {
      if outstanding == None {
        return;
      }
      outstanding := None;
      if handlersInstalled {
        RemoveHighlight(idx);
        idx := idx + 1;
        SpeakNextStep();
      }
    }

    /** The utterance in flight fails: its `onerror`, then `speechSynthesis.onerror` if installed. */
    method OnNarrationError()
      requires Sequencer.Valid(View())
      modifies this
      ensures View() == Sequencer.NarrationError(old(View()))
    {
      match outstanding
      case None =>
      case Some(k) =>
        highlighted := highlighted - {k};
        currentSpeakingIndex := -1;
        outstanding := None;
        if handlersInstalled {
          RemoveHighlight(idx);
          currentSpeakingIndex := -1;
        }
    }

    /** `getRoute.onclick`: with both endpoints set, cancel speech and empty the panel. */
    method RequestRoute(ready: bool)
      requires Sequencer.Valid(View())
      modifies this
      ensures View() == Sequencer.RequestRoute(old(View()), ready)
    {
      if !ready {
        return;
      }
      outstanding := None;
      rows := 0;
      highlighted := {};
    }

    /** The `routesfound` handler: store the steps, render them, start guidance. */
    method RoutesFound(newSteps: seq<Sequencer.RouteStep>)
      requires Sequencer.Valid(View())
      modifies this
      ensures View() == Sequencer.RoutesFound(old(View()), newSteps)
    {
      steps := newSteps;
      rows := |newSteps|;
      highlighted := {};
      var _ := StartVoiceGuidance();
    }
  }
}
