/** The optional value used wherever the bot's code returns a value or nothing (`None`). */
module Options {

  datatype Option<+T> = None | Some(value: T)
}
