/** The conventional optional value, used for inputs that may be absent
    (a received message, a resolved directory, a logged error). */
module Options {

  datatype Option<+T> = None | Some(value: T)
}
