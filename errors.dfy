/**
 * The exceptions the merge can raise, and the result type that carries them.
 * Every exception ends the whole merge: nothing is saved.
 */
module Errors {

  datatype Error =
    | TupleIndexOutOfRange   // IndexError from `xys[0]` when no image was given
    | ZeroDivision           // ZeroDivisionError from `tile_count // column_count` with no columns
    | NegativeSize           // ValueError from Image.new: width and height must be >= 0
    | ImagesDoNotMatch       // ValueError from Image.paste: a 4-tuple box differs from the source's size

  datatype Result<T> = Success(value: T) | Failure(error: Error)

  datatype Option<T> = None | Some(value: T)
}
