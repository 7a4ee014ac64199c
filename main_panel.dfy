/**
 * The render-loop side of src/main.rs (`Content` there): each frame it
 * publishes its context for the listener, keeps a small text log that a
 * "Clear" button empties and each release of the A key extends, and hands
 * the visibility it read at the start of the frame to the window-control
 * call.
 */
module MainPanel {
  import opened Wrappers
  import opened SharedState

  /** What one frame reports: the Clear button was clicked, the A key was released. */
  datatype PanelInput = PanelInput(clearClicked: bool, aReleased: bool)

  /** The line appended on each release of the A key. */
  const RELEASED: string := "\nReleased"

  class Content {
    var text: string
    const shared: Shared

    constructor (shared: Shared)
      ensures text == []
      ensures this.shared == shared
    {
      text := [];
      this.shared := shared;
    }

    /**
     * One frame.  `shouldShow` is the visibility passed to the window-control
     * call at the end of the frame, as read before anything else ran.
     */
    method Update(ctx: Context, input: PanelInput) returns (shouldShow: bool)
      modifies this, shared
      ensures shared.ctx == Some(ctx)
      ensures shared.windowVisible == old(shared.windowVisible)
      ensures shouldShow == old(shared.windowVisible)
      ensures input.clearClicked ==> text == (if input.aReleased then RELEASED else [])
      ensures !input.clearClicked ==> text == old(text) + (if input.aReleased then RELEASED else [])
      ensures !input.clearClicked ==> old(text) <= text
    {
      shared.Publish(ctx);
      shouldShow := shared.windowVisible;
      if input.clearClicked {
        text := [];
      }
      if input.aReleased {
        text := text + RELEASED;
      }
    }
  }
}
