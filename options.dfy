/** An optional value: an attribute or stored entry that may be absent
    (`getAttribute` and `localStorage.getItem` return null, a dataset entry
    may be undefined). */
module Options {
  datatype Option<+T> = None | Some(value: T)
}
