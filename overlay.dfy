/**
 * The overlay's per-frame handling (`Content::update` in src/ui.rs):
 * arrow-key navigation over the shown list, the search box, committing an
 * entry by keyboard or click, and Escape.
 *
 * The calls into the window-control layer are not performed; `Update`
 * returns them, in order, as `Effect`s.
 */
module Overlay {
  import opened Wrappers
  import opened SharedState
  import opened Selection

  /**
   * What one frame reports.  `edit` is the search box's new text when the
   * user changed it this frame; `clicked` is the position of the clicked
   * entry, if any; `escape` is whether Escape is held down.
   */
  datatype FrameInput = FrameInput(
    arrowDown: bool,
    arrowUp: bool,
    edit: Option<string>,
    enter: bool,
    space: bool,
    clicked: Option<nat>,
    escape: bool)

  /** A call into the window-control layer: focus a listed window, or show/hide the overlay. */
  datatype Effect = Focus(target: Entry) | SetWindow(visible: bool)

  function MoveDown(index: nat, len: nat): nat {
    if index + 1 < len then index + 1 else index
  }

  function MoveUp(index: nat): nat {
    if index != 0 then index - 1 else index
  }

  function Min(a: int, b: int): int { if a <= b then a else b }

  /**
   * ArrowDown, then ArrowUp, as src/ui.rs:99-108 applies them: clamped
   * moves of one step, never wrapping.
   */
  function Navigate(index: nat, len: nat, down: bool, up: bool): (r: nat)
    ensures index < len ==> r < len
    ensures r <= index + 1 && index <= r + 1
    ensures r > index ==> r < len && down && !up
    ensures r < index ==> up
    ensures len == 0 ==> r <= index
    ensures !down && !up ==> r == index
  {
    var afterDown := if down then MoveDown(index, len) else index;
    if up then MoveUp(afterDown) else afterDown
  }

  /** The index after `k` frames in which only ArrowDown was pressed. */
  function DownPresses(index: nat, len: nat, k: nat): nat
    decreases k
  {
    if k == 0 then index else DownPresses(Navigate(index, len, true, false), len, k - 1)
  }

  /** The index after `k` frames in which only ArrowUp was pressed. */
  function UpPresses(index: nat, len: nat, k: nat): nat
    decreases k
  {
    if k == 0 then index else UpPresses(Navigate(index, len, false, true), len, k - 1)
  }

  /** Holding ArrowDown walks to the last entry and stays there. */
  lemma {:induction false} DownPressesStopAtLast(index: nat, len: nat, k: nat)
    requires index < len
    ensures DownPresses(index, len, k) == Min(index + k, len - 1)
    decreases k
  {
    if k > 0 {
      DownPressesStopAtLast(Navigate(index, len, true, false), len, k - 1);
    }
  }

  /** Holding ArrowUp walks to the first entry and stays there. */
  lemma {:induction false} UpPressesStopAtFirst(index: nat, len: nat, k: nat)
    ensures UpPresses(index, len, k) == if k <= index then index - k else 0
    decreases k
  {
    if k > 0 {
      UpPressesStopAtFirst(Navigate(index, len, false, true), len, k - 1);
    }
  }

  /**
   * A stale index past the end of a shrunken list is not pulled back by
   * ArrowDown: the code never clamps it.
   */
  lemma StaleIndexStaysPastEnd(index: nat, len: nat)
    requires len <= index
    ensures Navigate(index, len, true, false) == index
  {
  }

  /**
   * The entries committed in one frame, in the order the loop at
   * src/ui.rs:120-144 commits them: a click on position `clicked` and a
   * keyboard commit of position `selected`, each only when that position is
   * on the list; at equal positions the click comes first.
   */
  function Commits(listed: seq<Entry>, selected: nat, clicked: Option<nat>, keyboard: bool): (r: seq<Entry>)
    ensures forall i :: 0 <= i < |r| ==> r[i] in listed
    ensures |r| <= 2
    ensures clicked.None? ==> r == if keyboard && selected < |listed| then [listed[selected]] else []
    ensures !keyboard ==> r == if clicked.Some? && clicked.value < |listed| then [listed[clicked.value]] else []
    ensures selected >= |listed| && (clicked.None? || clicked.value >= |listed|) ==> r == []
  {
    var byClick := if clicked.Some? && clicked.value < |listed| then [listed[clicked.value]] else [];
    var byKey := if keyboard && selected < |listed| then [listed[selected]] else [];
    if byClick != [] && byKey != [] && selected < clicked.value then byKey + byClick else byClick + byKey
  }

  /** Each commit focuses its window and then hides the overlay. */
  function CommitEffects(commits: seq<Entry>): (r: seq<Effect>)
    ensures |r| == 2 * |commits|
  {
    if commits == [] then [] else [Focus(commits[0]), SetWindow(false)] + CommitEffects(commits[1..])
  }

  lemma {:induction false} CommitEffectsSnoc(commits: seq<Entry>, e: Entry)
    ensures CommitEffects(commits + [e]) == CommitEffects(commits) + [Focus(e), SetWindow(false)]
  {
    if commits != [] {
      assert (commits + [e])[1..] == commits[1..] + [e];
      CommitEffectsSnoc(commits[1..], e);
    }
  }

  /** The commits issued by the loop's first `n` iterations. */
  lemma CommitsPrefixStep(listed: seq<Entry>, n: nat, selected: nat, clicked: Option<nat>, keyboard: bool)
    requires n < |listed|
    ensures Commits(listed[..n + 1], selected, clicked, keyboard)
         == Commits(listed[..n], selected, clicked, keyboard)
          + (if clicked == Some(n) then [listed[n]] else [])
          + (if selected == n && keyboard then [listed[n]] else [])
  {
  }

  /** The overlay's render-loop state (the `Content` of src/ui.rs). */
  class Content {
    var selectedIndex: nat
    var searchText: string
    const shared: Shared

    /** A fresh overlay: nothing typed, the first entry selected (src/ui.rs:71-78). */
    constructor (shared: Shared)
      ensures selectedIndex == 0
      ensures searchText == []
      ensures this.shared == shared
    {
      selectedIndex := 0;
      searchText := [];
      this.shared := shared;
    }

    /**
     * One frame over a fresh window snapshot.  The list is built from the
     * search text as it was before this frame's edit; arrows move the
     * selection within it; an edit replaces the search text and resets the
     * selection to 0; commits and Escape each flip the shared visibility; the
     * last effect shows or hides the overlay as the flag stood when the
     * frame began.
     */
    method Update(ctx: Context, snapshot: seq<Entry>, input: FrameInput) returns (effects: seq<Effect>)
      modifies this, shared
      ensures shared.ctx == Some(ctx)
      ensures searchText == if input.edit.Some? then input.edit.value else old(searchText)
      ensures selectedIndex ==
        if input.edit.Some? then 0
        else Navigate(old(selectedIndex), |View(snapshot, old(searchText))|, input.arrowDown, input.arrowUp)
      ensures effects ==
        CommitEffects(Commits(View(snapshot, old(searchText)), selectedIndex, input.clicked, input.enter || input.space))
        + (if input.escape then [SetWindow(false)] else []) + [SetWindow(old(shared.windowVisible))]
      ensures shared.windowVisible == (old(shared.windowVisible) !=
        Odd(|Commits(View(snapshot, old(searchText)), selectedIndex, input.clicked, input.enter || input.space)| + if input.escape then 1 else 0))
    {
      shared.Publish(ctx);
      var listed := View(snapshot, searchText);
      var shouldShow := shared.windowVisible;
      MoveSelection(|listed|, input);
      effects := ActivateListed(listed, input.clicked, input.enter || input.space);
      if input.escape {
        var _ := shared.FetchNot();
        effects := effects + [SetWindow(false)];
      }
      effects := effects + [SetWindow(shouldShow)];
    }

    /**
     * Arrow keys on a list of `len` entries (src/ui.rs:99-108), then the
     * search box (src/ui.rs:111-114): an edit replaces the text and resets
     * the selection to the first entry.
     */
    method MoveSelection(len: nat, input: FrameInput)
      modifies this
      ensures searchText == if input.edit.Some? then input.edit.value else old(searchText)
      ensures selectedIndex ==
        if input.edit.Some? then 0 else Navigate(old(selectedIndex), len, input.arrowDown, input.arrowUp)
    {
      if input.arrowDown && selectedIndex + 1 < len {
        selectedIndex := selectedIndex + 1;
      }
      if input.arrowUp && selectedIndex != 0 {
        selectedIndex := selectedIndex - 1;
      }
      if input.edit.Some? {
        searchText := input.edit.value;
        selectedIndex := 0;
      }
    }

    /**
     * The loop over the shown list (src/ui.rs:120-144): for each position,
     * a click on it commits it, and then, if it is the selected position, a
     * keyboard commit does too.
     */
    method ActivateListed(listed: seq<Entry>, clicked: Option<nat>, keyboard: bool) returns (effects: seq<Effect>)
      modifies shared
      ensures var commits := Commits(listed, selectedIndex, clicked, keyboard);
        && effects == CommitEffects(commits)
        && shared.windowVisible == (old(shared.windowVisible) != Odd(|commits|))
      ensures shared.ctx == old(shared.ctx)
    {
      effects := [];
      ghost var committed: seq<Entry> := [];
      for idx := 0 to |listed|
        invariant committed == Commits(listed[..idx], selectedIndex, clicked, keyboard)
        invariant effects == CommitEffects(committed)
        invariant shared.windowVisible == (old(shared.windowVisible) != Odd(|committed|))
        invariant shared.ctx == old(shared.ctx)
      {
        CommitsPrefixStep(listed, idx, selectedIndex, clicked, keyboard);
        if clicked == Some(idx) {
          var focused := Activate(listed[idx]);
          CommitEffectsSnoc(committed, listed[idx]);
          committed := committed + [listed[idx]];
          effects := effects + focused;
        }
        if selectedIndex == idx && keyboard {
          var focused := Activate(listed[idx]);
          CommitEffectsSnoc(committed, listed[idx]);
          committed := committed + [listed[idx]];
          effects := effects + focused;
        }
      }
      assert listed[..|listed|] == listed;
    }

    /** Commits one entry: focus its window, flip the visibility, hide the overlay. */
    method Activate(target: Entry) returns (effects: seq<Effect>)
      modifies shared
      ensures effects == [Focus(target), SetWindow(false)]
      ensures shared.windowVisible == !old(shared.windowVisible)
      ensures shared.ctx == old(shared.ctx)
    {
      effects := [Focus(target)];
      var _ := shared.FetchNot();
      effects := effects + [SetWindow(false)];
    }
  }

  /**
   * A fresh, visible overlay over the snapshot Mail, Browser and its own
   * window: Enter commits Browser, the first entry in title order, then the
   * overlay is hidden and the visibility flag ends up false.
   */
  method EnterCommitsFirst(ctx: Context) returns (effects: seq<Effect>, visible: bool)
    ensures effects == [Focus(Entry("Browser", 2)), SetWindow(false), SetWindow(true)]
    ensures !visible
  {
    var mail, browser, own := Entry("Mail", 1), Entry("Browser", 2), Entry(TITLE, 3);
    EmptyQueryExample(mail, browser, own);
    var shared := new Shared(true);
    var overlay := new Content(shared);
    var input := FrameInput(false, false, None, true, false, None, false);
    effects := overlay.Update(ctx, [mail, browser, own], input);
    visible := shared.windowVisible;
  }
}
