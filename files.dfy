/**
 * The file system as the tailer sees it: the content of the watched file at
 * the moment of a call, or a failure of the call (a missing file, a denied
 * permission, a read error). Bytes are modelled as characters.
 */
module Files {

  datatype Option<T> = None | Some(value: T)

  /** The file's content when `fs.statSync`/`fs.openSync`/`fs.readSync` succeed, `None` when one of them throws. */
  type Snapshot = Option<string>

  /**
   * `fs.readSync(fd, buffer, 0, length, position)`: the `length` bytes of the
   * file that start at `position` land at the front of `buffer`; the rest of
   * the buffer keeps what it held.
   */
  method ReadSync(file: string, buffer: array<char>, length: nat, position: nat)
    requires position + length <= |file| && length <= buffer.Length
    modifies buffer
    ensures buffer[..length] == file[position..position + length]
    ensures buffer[length..] == old(buffer[length..])
  {
    forall i | 0 <= i < length {
      buffer[i] := file[position + i];
    }
  }
}
