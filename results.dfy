/**
 * The fallible-value shapes the translator works on.
 *
 * `Result<T>` is typechat's result record: `{success: true, data}` on
 * success, `{success: false, message}` on failure. As a datatype it carries
 * exactly one of `data` and `message`, chosen by the tag.
 */
module Results {

  datatype Result<+T> = Success(data: T) | Failure(message: string)

  /** An optional value; `None` stands for "JSON.parse threw". */
  datatype Option<+T> = None | Some(value: T)
}
