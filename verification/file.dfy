/** Attachments as the coordinator sees them: a name and the bytes read from disk. */
module Files {

  newtype byte = x: int | 0 <= x < 256

  /** An attachment: the file name (not the path) and the file's contents. */
  datatype File = File(name: string, data: seq<byte>)

  /** Why loading an attachment from a path failed. */
  datatype FileError = CouldntReadFile | WrongEncoding
}
