/** The optional value shared by both models: `None` stands for Python's `None`. */
module Optional {
  datatype Option<+T> = None | Some(value: T)
}
