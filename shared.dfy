/**
 * The state shared between the key listener and the render loop: the
 * visibility flag (`Arc<AtomicBool>`) and the slot holding the latest render
 * context (`Arc<Mutex<Option<egui::Context>>>`).  The model is sequential: an
 * atomic load or store is a field read or write, and taking the mutex always
 * succeeds.
 */
module SharedState {
  import opened Wrappers

  /** An opaque handle to one frame's render context; a repaint is requested on it. */
  datatype Context = Context(id: nat)

  /** `n` flips of a boolean change it exactly when `n` is odd. */
  predicate Odd(n: nat) {
    n % 2 == 1
  }

  class Shared {
    var windowVisible: bool
    var ctx: Option<Context>

    /** The context slot starts empty: no frame has been rendered yet. */
    constructor (visible: bool)
      ensures windowVisible == visible
      ensures ctx == None
    {
      windowVisible := visible;
      ctx := None;
    }

    /** Stores the current frame's context in the slot. */
    method Publish(c: Context)
      modifies this
      ensures ctx == Some(c)
      ensures windowVisible == old(windowVisible)
    {
      ctx := Some(c);
    }

    /** `fetch_not`: negates the flag and returns its previous value. */
    method FetchNot() returns (previous: bool)
      modifies this
      ensures previous == old(windowVisible)
      ensures windowVisible == !previous
      ensures ctx == old(ctx)
    {
      previous := windowVisible;
      windowVisible := !windowVisible;
    }
  }
}
