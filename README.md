# recent-apps: a model of the alt-tab overlay's key chord and selection logic

recent-apps is a background utility for Windows. Holding Alt and pressing
CapsLock summons an overlay that lists the open top-level windows. The user
filters the list by typing, moves through it with the arrow keys, and
commits an entry with Enter, Space or a click, which focuses that window.
This project models the two pieces of sequential logic in it. It proves
what each one promises.

- **The chord listener** (`handle_event`, src/main.rs). Its state is an Alt
  flag, the shared visibility flag and the shared slot that holds the latest
  render context. `Chord.Listener.HandleEvent` is the handler. Its contract
  ties it to the state machine `Chord.Step` on values. The lemmas about
  `Chord.Run` relate a whole event history to an independent reading of that
  history: Alt is held exactly when some Alt press has no Alt release after
  it. Visibility has flipped once for each CapsLock press made while Alt was
  held.
- **The visibility coordinator** (`SharedState.Shared`). It holds the
  `Arc<AtomicBool>` visibility flag and the `Arc<Mutex<Option<Context>>>`
  context slot that the listener and the render loop share.
- **The render loop of src/main.rs** (`MainPanel.Content`). Each frame it
  publishes its context and edits a small text log: Clear empties it, and each
  release of the A key appends `"\nReleased"`. It then passes on the
  visibility it read at the start of the frame.
- **The selection and filter engine of src/ui.rs.** `Selection` holds the
  pure sort-and-filter pipeline over a window snapshot. `Overlay.Content` is
  the per-frame handler: arrow-key navigation, the search box, commits and
  Escape. Calls into the window-control layer are not performed. `Update`
  returns them in order as `Effect`s: `Focus(entry)` is `focus_window`, and
  `SetWindow(b)` is `toggle_window(handle, b)`.

Modelling choices:

- Events are handled one after another. Atomic loads and stores become field
  reads and writes.
- The snapshot from `get_open_windows` is an input.
- `OpenWindow`'s ordering is not visible in the source. It is taken to be
  title order, by code point, with the window handle as tie-break.
  `Selection.SortedUnique` shows that every correct sort under that order
  gives the same list. So the insertion sort `Selection.Sort` stands for
  `Vec::sort`.
- Lowercasing is ASCII only (`Text.Lower`).

Where the system's design description and the code disagree, the model
follows the code:

- A commit applies `fetch_not` to the visibility flag (src/ui.rs:129, 141).
  It does not set the flag to false. Two commits in one frame, such as a click
  and Enter, leave the flag where it was.
- `selected_index` is reset to 0 only when the search text is edited
  (src/ui.rs:112-114). It is never clamped when the list shrinks.
  `Overlay.StaleIndexStaysPastEnd` shows that ArrowDown does not pull a stale
  index back.
- On an empty list, ArrowDown never moves. ArrowUp still decrements a stale
  index above 0 (src/ui.rs:104-108).
- Escape is read with `key_down` (src/ui.rs:147). The flag therefore flips on
  every frame in which Escape is held.
- The list is built from the search text as it was before this frame's edit
  (src/ui.rs:88-94 runs before src/ui.rs:111). Navigation and commits in
  that frame use that list.

## Model

| member | source | states |
|---|---|---|
| `SharedState.Shared.constructor` | src/main.rs:91-93 | the visibility flag starts at the given value and the context slot starts empty |
| `SharedState.Shared.Publish` | src/main.rs:200-202 | the slot holds the given context afterwards; the visibility flag is unchanged |
| `SharedState.Shared.FetchNot` | src/ui.rs:129 | negates the visibility flag, returns its previous value, leaves the slot alone |
| `Chord.Listener.constructor` | src/main.rs:91 | Alt starts not held; the listener shares the given state |
| `Chord.Listener.HandleEvent` | src/main.rs:24-59 | the new (Alt, visible) state is `Step` of the old one; an Alt press sets Alt and an Alt release clears it, and neither touches visibility; CapsLock with Alt held flips visibility and keeps Alt; any other event changes nothing; a repaint is requested only on a toggle and only on a published context, otherwise nothing is requested; the slot is unchanged |
| `Chord.ChordFromHidden` | src/main.rs:32-49 | from a hidden overlay, Alt then CapsLock makes it visible, and the repaint goes to the published context if there is one |
| `Chord.AltHeldSnoc` | src/main.rs:31-55 | the "unreleased Alt press" reading of a history changes with each event as the Alt flag does: set by a press, cleared by a release, kept by every other event |
| `Chord.RunCountsChords` | src/main.rs:24-59 | from Alt not held, after any history the Alt flag equals "some Alt press is unreleased", and visibility equals the start value XOR the parity of the CapsLock presses made while Alt was held |
| `Chord.RunFromStart` | src/main.rs:91-92 | from the start state (Alt up, visible), the overlay is visible after a history exactly when an even number of chords occurred |
| `Chord.NoToggleWithoutAlt` | src/main.rs:34 | a history without any Alt press leaves Alt up and visibility unchanged, whatever CapsLock presses it holds |
| `Chord.RunAppend` | src/main.rs:24-59 | handling two histories in turn is the same as handling their concatenation |
| `Chord.ChordFlipsOnce` | src/main.rs:32-55 | one full chord (Alt down, CapsLock down, Alt up) flips visibility exactly once and leaves Alt up, from any state |
| `MainPanel.Content.constructor` | src/main.rs:177-183 | the text log starts empty |
| `MainPanel.Content.Update` | src/main.rs:199-224 | the slot holds this frame's context; visibility is unchanged and is the value passed on; Clear empties the log before an A release appends `"\nReleased"`; without Clear the old log stays as a prefix |
| `Text.ContainsIff` | src/ui.rs:91 | the recursive substring test holds exactly when some window of the title equals the query |
| `Text.ContainsEmpty` | src/ui.rs:91 | every title contains the empty query |
| `Text.LowerIdempotent` | src/ui.rs:91 | lowering twice is lowering once |
| `Text.LowerHasNoUpper` | src/ui.rs:91 | no ASCII capital survives lowering |
| `Text.TitleLeTotal` | src/ui.rs:87 | any two titles are comparable |
| `Text.TitleLeAntisymmetric` | src/ui.rs:87 | titles that are ordered both ways are equal |
| `Text.TitleLeTransitive` | src/ui.rs:87 | the title order is transitive |
| `Selection.EntryLeTotalOrder` | src/ui.rs:87 | the entry order (title, then handle) is total, antisymmetric and transitive |
| `Selection.InsertCorrect` | src/ui.rs:87 | inserting into a sorted list keeps it sorted and adds exactly that entry |
| `Selection.SortCorrect` | src/ui.rs:87 | the sorted snapshot is sorted and is a permutation of the snapshot |
| `Selection.SortedUnique` | src/ui.rs:87 | two sorted permutations of the same snapshot are equal |
| `Selection.Filter` | src/ui.rs:88-94 | every kept entry's lowercased title contains the lowercased query and is not the overlay's own title; nothing is added |
| `Selection.FilterSubsequence` | src/ui.rs:88-94 | the filtered list keeps the order of its input |
| `Selection.SubsequenceMembers` | src/ui.rs:88-94 | an order-preserving selection holds only entries of its source |
| `Selection.SubsequenceSorted` | src/ui.rs:86-94 | an order-preserving selection of a sorted list is sorted |
| `Selection.SubsequenceSkip` | src/ui.rs:88-94 | a selection that skips its source's first entry is still a selection of that source |
| `Selection.FilterExact` | src/ui.rs:88-94 | each entry occurs in the result exactly as often as in the input if it qualifies, and not at all otherwise |
| `Selection.FilterMembers` | src/ui.rs:88-94 | an entry is in the result exactly when it is in the input and qualifies: no qualifying entry is dropped |
| `Selection.FilterKeep` | src/ui.rs:88-94 | a qualifying first entry is kept in front of the filtered rest |
| `Selection.FilterDrop` | src/ui.rs:88-94 | a first entry that does not qualify is dropped |
| `Selection.KeepWithEmptyQuery` | src/ui.rs:91-93 | with an empty query an entry qualifies exactly when it is not the overlay's own title |
| `Selection.EmptyQueryKeepsAllButSelf` | src/ui.rs:91-93 | with an empty query the result holds every snapshot entry except the overlay's own title |
| `Selection.FilterCaseInsensitive` | src/ui.rs:91 | filtering by the lowercased query gives the same list as filtering by the query |
| `Selection.FilterIdempotent` | src/ui.rs:88-94 | filtering the filtered list again changes nothing |
| `Selection.ViewCorrect` | src/ui.rs:86-94 | the shown list is sorted; it is an order-preserving selection of the sorted snapshot; every entry in it qualifies; it holds each qualifying snapshot entry exactly as often as the snapshot does |
| `Selection.ViewExcludesSelf` | src/ui.rs:12 | a shown entry is never the overlay's own window (compared case-insensitively) and always matches the query |
| `Selection.SortExample` | src/ui.rs:87 | Mail, Browser and RecentApps++ sort to Browser, Mail, RecentApps++ |
| `Selection.FilterExample` | src/ui.rs:88-94 | with an empty query only RecentApps++ is dropped from that sorted list |
| `Selection.EmptyQueryExample` | src/ui.rs:86-94 | that snapshot with an empty query shows Browser, then Mail |
| `Selection.MatchesMa` | src/ui.rs:91 | "Mail" matches the query "ma" and "Browser" does not |
| `Selection.QueryExample` | src/ui.rs:86-94 | the same snapshot with the query "ma" shows only Mail |
| `Overlay.Navigate` | src/ui.rs:99-108 | an index in range stays in range; it moves by at most one step, so it never wraps; it increases only when ArrowDown alone is pressed and the result is on the list; it decreases only on ArrowUp; on an empty list it never increases; with no arrow it is unchanged |
| `Overlay.DownPressesStopAtLast` | src/ui.rs:99-103 | k frames of ArrowDown from an in-range index reach min(index + k, last) and stop at the last entry |
| `Overlay.UpPressesStopAtFirst` | src/ui.rs:104-108 | k frames of ArrowUp reach index - k, or 0 once k passes the index, with no underflow |
| `Overlay.StaleIndexStaysPastEnd` | src/ui.rs:99-103 | ArrowDown leaves an index at or past the end of the list where it is |
| `Overlay.Commits` | src/ui.rs:120-143 | every committed entry is on the list; at most two commit per frame; with no click, exactly the selected entry commits, and only if the selected index is on the list; with no Enter/Space, exactly the clicked entry commits if it is on the list; nothing commits when neither index is on the list |
| `Overlay.CommitEffects` | src/ui.rs:126-142 | each commit contributes two calls (focus, then hide) |
| `Overlay.CommitEffectsSnoc` | src/ui.rs:126-142 | one more commit appends its focus and hide calls after the earlier ones |
| `Overlay.CommitsPrefixStep` | src/ui.rs:120-143 | loop iteration `n` adds the click commit for position `n`, then the keyboard commit for it, to the commits of the earlier positions |
| `Overlay.Content.constructor` | src/ui.rs:71-78 | a new overlay starts with index 0 and empty search text |
| `Overlay.Content.Update` | src/ui.rs:82-154 | the slot holds this frame's context; the list is `View` of the snapshot and the previous search text; the index is 0 after an edit, whatever the arrows did, and otherwise the clamped arrow move; the effects are each commit's focus and hide, a hide for Escape, then the show/hide for the visibility read when the frame began; the flag is flipped once per commit and once for Escape |
| `Overlay.Content.MoveSelection` | src/ui.rs:99-114 | arrows move the index by `Navigate`; an edit then replaces the search text and resets the index to 0 |
| `Overlay.Content.ActivateListed` | src/ui.rs:120-144 | the loop over the list commits exactly `Commits` of the list, in that order, and flips the flag once per commit |
| `Overlay.Content.Activate` | src/ui.rs:126-131 | a commit focuses the entry, flips the flag (a flip, not a set-false) and then hides the overlay |
| `Overlay.EnterCommitsFirst` | src/ui.rs:134-143 | on a fresh visible overlay, Enter commits the first entry in title order (Browser), hides the overlay, and leaves the visibility flag false |

## Left out

- src/window_handler.rs is treated as abstract effects. Its hide branch calls `CloseWindow` and then `std::process::exit(0)` (src/window_handler.rs:34-36), so in the src/ui.rs program the first `SetWindow(false)` ends the process. The model keeps going and lists the later effects too. The Win32 calls themselves (`ShowWindow`, `SwitchToThisWindow`, `SetFocus`, `EnableWindow`) are foreign calls.
- `toggle_window` in src/main.rs:61-88 is platform FFI. `MainPanel.Content.Update` returns the value passed to it.
- The tokio runtime, `spawn_blocking`, `rdev::listen` and the per-event `tokio::spawn` (src/main.rs:99-123) are concurrency. Events are handled in order, one at a time. Two handler tasks that interleave their load and store of the visibility flag (src/main.rs:36-37) are not modelled.
- A failed mutex lock (poisoning) is not modelled. The model's lock always succeeds. In the source, a failed lock means the frame's context is not published and no repaint is requested.
- egui/eframe viewport configuration and all rendering (src/main.rs:124-166, src/ui.rs:17-60, headings, labels, scroll areas, `request_focus`) are UI setup. What the widgets report each frame (clicked, changed, key pressed/released/down) is the input record of the model.
- `get_open_windows` and `OpenWindow`'s `Ord` live in the `recent_apps` module, which is not part of this model. The snapshot is an input. The order is assumed to be title order with the handle as tie-break.
- Unicode `to_lowercase` is not modelled. `Text.Lower` lowers ASCII letters only.
- `println!` logging is left out.
- `usize` arithmetic is not modelled. `selected_index + 1` cannot overflow, because the index only grows while it is below the list length.
- Overlay.Navigate: claims no bound on the index after the list shrinks between frames. The source never clamps it, so only "navigation preserves bounds" and "an edit resets to 0" are stated.
