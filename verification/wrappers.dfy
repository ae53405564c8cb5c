/** The Some/None datatype used for oracles that may fail (a fetch that
    times out, a URL join that raises) and for inputs that may be rejected. */
module Wrappers {

  datatype Option<+T> = None | Some(value: T)

}
