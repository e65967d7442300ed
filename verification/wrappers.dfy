/** Option and Result, plus the Python exceptions the sheet grabber raises. */
module Wrappers {

  datatype Option<+T> = None | Some(value: T)

  datatype Result<+T, +E> = Ok(value: T) | Err(error: E)

  /** The exception classes the pipeline raises, with the message where it is fixed. */
  datatype Exception =
    | ValueError(message: string)
    | IndexError
    | ZeroDivisionError
    | TypeError
    | CvError  // `cv2.error`, raised by OpenCV itself
}
