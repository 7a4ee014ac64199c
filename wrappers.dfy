/** The optional value used for the shared context slot and for the per-frame edit and click inputs. */
module Wrappers {
  datatype Option<+T> = None | Some(value: T)
}
