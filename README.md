# Map navigation page: voice guidance, instruction icons, favorites

This project models the logic inside `script.js`, the browser script of a
map-based navigation page. It covers four pieces, each apart from the browser:

- **Voice guidance** (`speakSingleStep`, `startVoiceGuidance` / `speakNextStep`
  and the handlers they install). The route's steps are read aloud one after
  another. Each step's row in the directions panel is highlighted while it is
  read, and a row can be clicked to hear that step. `Sequencer` describes the
  state as a value (`Playback`) and gives one transition function per event:
  a row click, the start of guidance, the end of a narration, a narration
  error, a new route request and a found route. `Guidance.VoiceGuidance` is the
  same code as a class. Its fields are the script's globals and the closure
  cursor `idx`, and each method is proved to perform the matching `Sequencer`
  transition.
- **Instruction icons** (`iconFor`). The text is lower-cased, then a cascade of
  keywords is tried in a fixed order, and the first match picks the emoji.
  `Icons` states the cascade both as code and as a table, and proves that the
  two agree.
- **Favorites** (`saveFav.onclick`, `removeFavorite`). A list of `(from, to)`
  pairs gets append-unless-duplicate and remove-at-index-with-bounds-check.
  `Favorites` has the pure list functions and a class `FavoriteStore` whose
  methods update the list in place.
- **The "Get Directions" button** (`enableRoutingButton`). `Routing.RoutingForm`
  holds the two endpoints and the button's `disabled` flag.

How the speech engine and the page are modelled:

- The engine is reduced to the utterance in flight (`outstanding`) and the
  list of steps handed to `speak` (`narrated`).
- The panel is reduced to the number of step rows (`rows`) and the set of
  rows with the `speaking-step` class (`highlighted`).
- An end or error event arrives only for the utterance in flight.
- `cancel()` silences the cancelled utterance: it gets no event.
- On an error, both the utterance's own `onerror` and the global
  `speechSynthesis.onerror` run, if the global one is installed.

The central invariant is `Sequencer.Valid`. It says that at most the row of
`currentSpeakingIndex` is highlighted, and that the utterance in flight is for
that step. Every transition preserves it.

Where the code does not do what a reader might expect of voice guidance,
the model follows the code:

- A manually clicked step can chain into further steps. The global `onend`
  handler is never removed, so when a row clicked during guidance finishes,
  guidance resumes at `idx + 1` (`Sequencer.ClickDuringGuidanceResumesAtCursor`).
- The same holds after a narration error: the error stops guidance, but a row
  clicked afterwards resumes it at the step after the one that failed
  (`Sequencer.ClickAfterErrorResumesGuidance`).
- Once guidance has spoken every step, a clicked step loses its highlight when
  it finishes. Its end runs the past-the-end branch of `speakNextStep`
  (`Sequencer.ClickAfterGuidanceClearsHighlight`).
- No generation number tags an utterance, so nothing tells a stale event from
  a current one.
- A found route with no steps does not cancel an utterance that is still in
  flight. That utterance's end is handled by the handlers and `idx` of the
  earlier guidance.

`startVoiceGuidance` resets `currentSpeakingIndex` to -1 before it highlights
step 0. So it keeps the single-highlight invariant only because its one caller
(the `routesfound` handler) re-renders the rows first. Its model requires that
no row is highlighted on entry.

## Model

| member | source | states |
|---|---|---|
| `Icons.ToLower` | script.js:274 | lower-casing keeps the length and maps every character through `LowerChar` |
| `Icons.Contains` | script.js:275-283 | `includes` is false for a key longer than the text, and true for the empty key and for a key at the start of the text |
| `Icons.ContainsIffOccurs` | script.js:275 | `includes` holds exactly when the key occurs at some position of the text |
| `Icons.LoweringKeepsLowerKeyword` | script.js:274-275 | a lower-case keyword found in the raw text is still found after `toLowerCase` |
| `Icons.Glyph` | script.js:275-284 | each icon is one emoji character, followed by the emoji presentation selector U+FE0F for the arrows |
| `Icons.GlyphInjective` | script.js:275-284 | distinct icons show distinct characters; the "head"/"start" and "continue" branches return the same arrow and are one icon |
| `Icons.IconFor` | script.js:273-285 | `iconFor` equals the first rule, in source order, whose keywords occur in the lower-cased text, with the pin as default |
| `Icons.RulesUnfold` | script.js:275-284 | the rule table, read one rule at a time, tests the same keywords in the same order as the cascade |
| `Icons.FirstRuleWins` | script.js:275-284 | in a first-match cascade, the first matching rule decides whatever later rules also match |
| `Icons.KeywordDecides` | script.js:275-283 | when rule `j` is the first whose keyword occurs in the lower-cased text, `iconFor` returns rule `j`'s icon |
| `Icons.StartOutranksLeft` | script.js:275-276 | text containing both "start" and "left" gets the up arrow, not the left arrow |
| `Icons.IconForPinIffNoKeyword` | script.js:273-284 | `iconFor` returns the pin exactly when no keyword occurs in the lower-cased text |
| `Icons.IconForIgnoresCase` | script.js:274 | two texts equal up to ASCII letter case get the same icon |
| `Favorites.SaveVerdict` | script.js:442-453 | the save is refused as missing a field exactly when either text is empty, and as a duplicate exactly when some stored entry has the same `f` and `t` |
| `Favorites.Saved` | script.js:441-458 | an accepted save appends the pair at the end (length + 1) and otherwise changes nothing; earlier entries are unchanged; the pair is then stored iff it was already stored or both fields are non-empty; duplicate-freedom is preserved |
| `Favorites.Removed` | script.js:521-529 | an index outside `[0, length)` leaves the list unchanged; otherwise exactly that entry is removed, the others keep their order, and the multiset loses just that entry |
| `Favorites.RemovedKeepsNoDuplicates` | script.js:523-524 | removing an entry keeps the list free of duplicates |
| `Favorites.SaveIdempotent` | script.js:449-454 | saving the same pair twice gives the same list as saving it once |
| `Favorites.RemoveUndoesSave` | script.js:521-529 | removing the index of a just-appended entry restores the list as it was before the save |
| `Favorites.FavoriteStore.constructor` | script.js:446 | with nothing stored, the list is empty |
| `Favorites.FavoriteStore.SaveFavorite` | script.js:441-458 | the returned outcome is `SaveVerdict` and the new list is `Saved` of the old one |
| `Favorites.FavoriteStore.RemoveFavorite` | script.js:521-529 | reports success iff the index is in range, and the new list is `Removed` of the old one |
| `Routing.RoutingForm.constructor` | script.js:27-28 | both endpoints start unset |
| `Routing.RoutingForm.EnableRoutingButton` | script.js:83-85 | the button is disabled exactly when the from-point or the to-point is unset |
| `Sequencer.Initial` | script.js:312 | at page load there are no steps, no highlight, nothing in flight and nothing spoken, and the invariant holds |
| `Sequencer.SpeakSingleStep` | script.js:318-357 | with no steps nothing changes; otherwise `currentSpeakingIndex` becomes `i`, step `i` is spoken next, the previous highlight is gone and row `i` is the only highlighted row; the invariant is preserved |
| `Sequencer.SpeakNextStep` | script.js:371-399 | past the last step: `currentSpeakingIndex` is -1 and no row is highlighted; otherwise step `idx` is spoken, is the only highlight, and the global handlers are installed |
| `Sequencer.StartVoiceGuidance` | script.js:362-401 | with no steps nothing changes; otherwise `idx` starts at 0, step 0 is spoken and is the only highlight |
| `Sequencer.NarrationEnd` | script.js:382-389 | with handlers installed, row `idx` loses its highlight and `idx` advances by one; then the next step is spoken and highlighted, or after the last step `currentSpeakingIndex` is -1 and nothing is highlighted; without handlers only the utterance ends |
| `Sequencer.NarrationError` | script.js:347-398 | an error of the utterance in flight leaves `currentSpeakingIndex` at -1, no row highlighted and nothing in flight, and speaks nothing more |
| `Sequencer.RequestRoute` | script.js:183-202 | with both endpoints set, speech is cancelled and the panel emptied, while the steps, the spoken list, `currentSpeakingIndex`, `idx` and the installed handlers stay as they were; otherwise nothing changes |
| `Sequencer.RoutesFound` | script.js:248-255 | the new steps are stored and rendered; a non-empty route starts guidance at step 0; an empty route clears the highlight and leaves the utterance in flight, `currentSpeakingIndex`, `idx` and the installed handlers as they were |
| `Sequencer.Completions` | script.js:382-389 | any number of narration ends in a row keeps the invariant and the steps |
| `Sequencer.GuidanceSpeaksInOrder` | script.js:362-401 | after a route of `n` steps is found, `k` completions leave `idx` at `k`; `k < n` completions leave step `k` spoken and alone highlighted, with steps 0..k spoken in order; after `n` completions exactly 0..n-1 have been spoken, `currentSpeakingIndex` is -1 and nothing is highlighted |
| `Sequencer.SettledStaysSettled` | script.js:390-398 | with nothing in flight, no completion changes the state |
| `Sequencer.ErrorStopsGuidance` | script.js:390-398 | an error while step `k` is spoken clears the highlight, resets `currentSpeakingIndex` to -1, leaves 0..k as all that was spoken, and no completion alone speaks another step |
| `Sequencer.ClickAfterErrorResumesGuidance` | script.js:382-398 | after an error at step `k`, a clicked row `i` is spoken, and when it finishes guidance speaks step `k + 1`, which is then the only highlight |
| `Sequencer.ClickAfterGuidanceClearsHighlight` | script.js:372-389 | after guidance has spoken all `n` steps, a clicked row is spoken and highlighted, and when it finishes no row is highlighted and `currentSpeakingIndex` is -1 |
| `Sequencer.ClickDuringGuidanceResumesAtCursor` | script.js:382-389 | a row clicked during guidance is spoken, and when it finishes guidance speaks step `idx + 1`, which is then the only highlight |
| `Sequencer.AtMostOneHighlight` | script.js:325-336 | in every reachable state at most one row is highlighted |
| `Guidance.VoiceGuidance.constructor` | script.js:312 | the fields start as `Sequencer.Initial` |
| `Guidance.VoiceGuidance.RemoveHighlight` | script.js:326-328 | removes the class from row `k` only when that row exists |
| `Guidance.VoiceGuidance.SpeakSingleStep` | script.js:318-357 | performs `Sequencer.SpeakSingleStep`; reports whether anything was spoken |
| `Guidance.VoiceGuidance.SpeakNextStep` | script.js:371-399 | performs `Sequencer.SpeakNextStep` |
| `Guidance.VoiceGuidance.StartVoiceGuidance` | script.js:362-401 | performs `Sequencer.StartVoiceGuidance`; reports whether guidance started |
| `Guidance.VoiceGuidance.OnNarrationEnd` | script.js:382-389 | performs `Sequencer.NarrationEnd` |
| `Guidance.VoiceGuidance.OnNarrationError` | script.js:347-398 | performs `Sequencer.NarrationError` |
| `Guidance.VoiceGuidance.RequestRoute` | script.js:183-202 | performs `Sequencer.RequestRoute` |
| `Guidance.VoiceGuidance.RoutesFound` | script.js:248-255 | performs `Sequencer.RoutesFound` |

## Left out

- Icons.ToLower: lower-cases the ASCII letters only. JavaScript's `toLowerCase` also maps other Unicode letters, and can change the length of a string. None of the keywords needs that.
- Event dispatch: the Web Speech API dispatches `end` and `error` to the utterance, not to `speechSynthesis`. The model assumes that `speechSynthesis.onend` and `onerror` run when the utterance in flight ends or fails, as the code intends. Whether a browser ever calls them is outside the model.
- Cancellation events: some engines report an error or an end for an utterance cut short by `cancel()`. The model delivers no event for a cancelled utterance.
- Speech support: `!window.speechSynthesis` is taken to be false. The language tag, `scrollIntoView`, `alert` and `console` calls are dropped.
- Only the step text is kept. The step distance and its formatting (`toFixed`) are floating point.
- `renderSteps` is modelled only by the number of step rows it creates. The "no directions" paragraph shown for an empty route is not a step row.
- The Leaflet map, tiles, routing control, OSRM router and `createMarker` are foreign library objects. They are not modelled. The `routesfound` event is an input carrying the new steps.
- Photon geocoding (`fetch`) and the blur handlers that use it are network I/O. They are not modelled.
- Geolocation tracking (`getCurrentPosition`, `watchPosition`) is asynchronous device I/O. It is not modelled.
- The `setInterval` polling of the routing button and the URL-parameter loader (`Promise.all`, `setTimeout`) are timers. They are not modelled.
- The QR code, clipboard sharing, `history.replaceState` and the theme toggle are foreign calls. They are not modelled.
- Favorites persistence (`localStorage`, `JSON.parse`, `JSON.stringify`) and the list rendering are left out. The stored array is a sequence field.
- `Guidance.VoiceGuidance.RequestRoute` takes whether both endpoints are set as a parameter. That is the same rule as `Routing.RoutingForm.EnableRoutingButton`.
