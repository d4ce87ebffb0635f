/** What the serial line delivers, before any interpretation. */
module Wire {
  /** One octet on the wire. */
  type Byte = b: int | 0 <= b < 256

  /**
   * One record returned by `readline()`: bytes that decode as UTF-8
   * (kept as the decoded text, line terminator included), or bytes
   * whose `.decode()` raises `UnicodeDecodeError`.
   */
  datatype RawLine = Text(s: string) | Undecodable
}
