/** The optional value used where the visualisation receives `undefined`
    (for instance `d3.min` over an empty array). */
module Options {

  datatype Option<+T> = None | Some(value: T)
}
