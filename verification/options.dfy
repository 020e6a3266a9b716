/** The optional value used for `Option<Link>` parents, `Option<Rc<V>>` values and lookup results. */
module Options {
  datatype Option<+T> = None | Some(value: T)
}
