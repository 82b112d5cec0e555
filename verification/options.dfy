/** The optional values of the model: the source's sentinels (`-1`, `UINT_MAX`)
    and Python's `None` are written as `Option`. */
module Options {

  datatype Option<+T> = None | Some(value: T)
}
