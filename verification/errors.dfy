/** Error taxonomy of the EXT2 engine and the two wrapper types its operations return. */
module Errors {

  /** The failures an operation can report instead of corrupting the image. */
  datatype FsError =
    | NotAnExt2Image     // bad magic number at mount
    | NotFound           // name absent from the current directory
    | NotADirectory      // rmdir of a non-directory
    | IsADirectory       // cat or rm of a directory
    | AlreadyExists      // mkdir / touch of a name already present
    | DirectoryNotEmpty  // rmdir of a directory with children
    | EntryNotFound      // rename of an absent name
    | CorruptDirectory   // a directory block whose records do not decode or do not fill it
    | BitmapExhausted    // no clear bit left in a bitmap
    | DirectoryFull      // no room left in the directory block for a record
    | NameTooLong        // a name that does not fit the 8-bit name_len field
    | SyntaxError        // wrong number of command words
    | UnsupportedCommand // unknown command word

  datatype Option<T> = None | Some(value: T)

  datatype Result<T> = Ok(value: T) | Err(error: FsError)
}
