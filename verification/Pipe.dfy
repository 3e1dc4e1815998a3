/** One direction of a TCP connection. */
module Pipes {

  /** `bytes` are those one end has written and the other has not read yet. */
  class Pipe {
    var bytes: string

    constructor ()
      ensures bytes == ""
    {
      bytes := "";
    }

    method Write(text: string)
      modifies this
      ensures bytes == old(bytes) + text
    {
      bytes := bytes + text;
    }

    /** `recv(fd, buffer + at, max, 0)`. How many bytes arrive is not under the caller's
        control: any positive number up to `max` and to what was sent. Zero means that the
        peer has closed and everything it sent was read. */
    method Recv(buffer: array<char>, at: nat, max: nat) returns (n: nat)
      requires 0 < max && at + max <= buffer.Length
      modifies this, buffer
      ensures n <= max && n <= |old(bytes)|
      ensures n == 0 <==> old(bytes) == ""
      ensures bytes == old(bytes)[n..]
      ensures old(bytes)[..n] + bytes == old(bytes)
      ensures buffer[..at + n] == old(buffer[..at]) + old(bytes)[..n]
      ensures buffer[..] == old(buffer[..at]) + old(bytes)[..n] + old(buffer[at + n..])
    {
      if bytes == "" {
        return 0;
      }
      n :| 1 <= n <= max && n <= |bytes|;
      forall i | 0 <= i < n {
        buffer[at + i] := bytes[i];
      }
      bytes := bytes[n..];
    }
  }
}
