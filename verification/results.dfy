/** Option and Result: the model's replacement for Java's null returns and thrown exceptions. */
module Results {

  /** `None` stands for Java's `null` or for an absent array element. */
  datatype Option<+T> = None | Some(value: T)

  /** `Err` stands for a checked exception carrying a user-facing error. */
  datatype Result<+T, +E> = Ok(value: T) | Err(error: E)
}

/** The application's checked exception (`MonetException`) as a closed set of causes. */
module Errors {

  datatype Error =
    | TodoEmpty
    | DeadlineEmpty
    | DeadlineFormat
    | EventEmpty
    | EventFormat
    | IndexMissing
    | IndexNotNumber
    | IndexOutOfRange
    | DeadlineDateFormat
    | EventDateFormat
    | UnknownCommand
      /** An `IOException` raised while rewriting the data file, with its message. */
    | SaveFailed(ioMessage: string)

  /** The message each cause carries, exactly as the program shows it. */
  function Message(e: Error): string
  {
    match e
    case TodoEmpty => "The description for a todo cannot be empty."
    case DeadlineEmpty => "The description for a deadline cannot be empty."
    case DeadlineFormat => "Invalid deadline format. Use: deadline <description> /by <date>"
    case EventEmpty => "The description for an event cannot be empty."
    case EventFormat => "Invalid event format. Use: event <description> /from <start> /to <end>"
    case IndexMissing => "Please specify the task number."
    case IndexNotNumber => "Please enter a valid number for the task index."
    case IndexOutOfRange => "monet.Task number not found. Please provide a valid task number."
    case DeadlineDateFormat => "Invalid date format for deadline. Please use 'yyyy-MM-dd HHmm'."
    case EventDateFormat => "Invalid date format for event. Please use 'yyyy-MM-dd HHmm'."
    case UnknownCommand => "I don't know what that means. Please check your input!"
    case SaveFailed(m) => m
  }
}
