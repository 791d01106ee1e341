/** An optional value. `None` stands for the JavaScript values `undefined`
    and `null` wherever the application reads or writes one of them. */
module Options {

  datatype Option<+T> = None | Some(value: T)
}
