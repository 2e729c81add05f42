/** Types shared by every part of the file-search model. */
module Common {

  /** One octet: a C++ `char` as it travels on the wire or sits in a `std::string`. */
  newtype byte = x: int | 0 <= x < 0x100

  /** A C++ `std::string`, seen as the bytes it holds. */
  type Bytes = seq<byte>

  /** Success with a value, or the error the C++ code would have thrown. */
  datatype Result<+T, +E> = Success(value: T) | Failure(error: E)

  /** The request a client sends: the name to look for and the directory to look in. */
  datatype Request = Request(filename: Bytes, rootPath: Bytes)
}
