/** The native nanomsg library, seen from the binding as an oracle.

    Every native entry point the binding calls is a method of `Engine`: it
    returns whatever the library returns (an unconstrained value) and appends
    a record of the call, with its arguments and its result, to `log`. A
    binding operation that "makes no native call" is one that leaves `log`
    unchanged. Memory the library writes into (an option buffer, a receive
    buffer) is a `Buffer` object; its new contents are unconstrained too,
    except that the library never changes a buffer's length. */
module Native {
  import opened Common

  /** One entry of the `struct nn_pollfd` array handed to `nn_poll`. */
  datatype PollFd = PollFd(fd: int, events: bv16)

  /** A native call that was made, with what it was given and what it returned. */
  datatype Call =
    | NnSocket(domain: int, protocol: int, rtn: int)
    | NnClose(s: int, rtn: int)
    | NnBind(s: int, addr: string, rtn: int)
    | NnConnect(s: int, addr: string, rtn: int)
    | NnShutdown(s: int, how: int, rtn: int)
    | NnSend(s: int, msg: seq<byte>, flags: int, rtn: int)
    | NnRecvMsg(s: int, flags: int, rtn: int, address: int, data: seq<byte>)
    | NnRecvInto(s: int, capacity: nat, flags: int, rtn: int, written: seq<byte>)
    | NnSetSockOpt(s: int, level: int, option: int, value: seq<byte>, rtn: int)
    | NnGetSockOpt(s: int, level: int, option: int, capacity: nat, rtn: int, length: nat, written: seq<byte>)
    | NnPoll(fds: seq<PollFd>, timeout: int, rtn: int, revents: seq<bv16>)
    | NnAllocMsg(size: nat, msgType: int, address: int)
    | NnFreeMsg(address: int, rtn: int)
    | NnDevice(s1: int, s2: int, rtn: int)
    | NnTerm
    | NcConfigure(s: int, addr: string, rtn: int)
    | NcClose(s: int)
    | NcTerm

  /** The byte buffers a caller can hand over: a ctypes `c_ubyte` array (what
      the ctypes backend's `create_writable_buffer` makes), a `bytearray`
      (writable, but not a ctypes object, so it has no `ctypes.addressof`), or
      `bytes` (read-only). */
  datatype BufferKind = CArray | ByteArray | Bytes

  /** A byte buffer the caller owns. */
  class Buffer {
    var bytes: seq<byte>
    const kind: BufferKind

    /** `create_writable_buffer(size)`: a zero-filled ctypes array. */
    constructor Writable(size: nat)
      ensures bytes == seq(size, _ => 0 as byte) && kind == CArray
    {
      bytes := seq(size, _ => 0 as byte);
      kind := CArray;
    }

    /** A buffer of the given kind over existing bytes. */
    constructor Of(contents: seq<byte>, kind: BufferKind)
      ensures bytes == contents && this.kind == kind
    {
      bytes := contents;
      this.kind := kind;
    }
  }

  class Engine {
    var log: seq<Call>

    constructor ()
      ensures log == []
    {
      log := [];
    }

    method Socket(domain: int, protocol: int) returns (rtn: int)
      modifies this
      ensures log == old(log) + [NnSocket(domain, protocol, rtn)]
    {
      rtn := *;
      log := log + [NnSocket(domain, protocol, rtn)];
    }

    method Close(s: int) returns (rtn: int)
      modifies this
      ensures log == old(log) + [NnClose(s, rtn)]
    {
      rtn := *;
      log := log + [NnClose(s, rtn)];
    }

    method Bind(s: int, addr: string) returns (rtn: int)
      modifies this
      ensures log == old(log) + [NnBind(s, addr, rtn)]
    {
      rtn := *;
      log := log + [NnBind(s, addr, rtn)];
    }

    method Connect(s: int, addr: string) returns (rtn: int)
      modifies this
      ensures log == old(log) + [NnConnect(s, addr, rtn)]
    {
      rtn := *;
      log := log + [NnConnect(s, addr, rtn)];
    }

    method Shutdown(s: int, how: int) returns (rtn: int)
      modifies this
      ensures log == old(log) + [NnShutdown(s, how, rtn)]
    {
      rtn := *;
      log := log + [NnShutdown(s, how, rtn)];
    }

    method Send(s: int, msg: seq<byte>, flags: int) returns (rtn: int)
      modifies this
      ensures log == old(log) + [NnSend(s, msg, flags, rtn)]
    {
      rtn := *;
      log := log + [NnSend(s, msg, flags, rtn)];
    }

    /** `nn_recv(s, &pointer, NN_MSG, flags)`: the library allocates the
        message, of exactly `rtn` bytes when it succeeds. */
    method RecvMsg(s: int, flags: int) returns (rtn: int, address: int, data: seq<byte>)
      modifies this
      ensures rtn >= 0 ==> |data| == rtn
      ensures log == old(log) + [NnRecvMsg(s, flags, rtn, address, data)]
    {
      rtn, address := *, *;
      ghost var example: seq<byte> := if rtn >= 0 then seq(rtn, _ => 0 as byte) else [];
      assert rtn >= 0 ==> |example| == rtn;
      var d: seq<byte> :| rtn >= 0 ==> |d| == rtn;
      data := d;
      log := log + [NnRecvMsg(s, flags, rtn, address, data)];
    }

    /** `nn_recv(s, buf, len(buf), flags)` into caller storage. */
    method RecvInto(s: int, buf: Buffer, flags: int) returns (rtn: int)
      modifies this, buf
      ensures |buf.bytes| == |old(buf.bytes)|
      ensures log == old(log) + [NnRecvInto(s, |buf.bytes|, flags, rtn, buf.bytes)]
    {
      rtn := *;
      var written: seq<byte> :| |written| == |buf.bytes|;
      buf.bytes := written;
      log := log + [NnRecvInto(s, |buf.bytes|, flags, rtn, buf.bytes)];
    }

    method SetSockOpt(s: int, level: int, option: int, value: seq<byte>) returns (rtn: int)
      modifies this
      ensures log == old(log) + [NnSetSockOpt(s, level, option, value, rtn)]
    {
      rtn := *;
      log := log + [NnSetSockOpt(s, level, option, value, rtn)];
    }

    /** `nn_getsockopt(s, level, option, buf, &length)`: `length` goes in as
        the buffer's size and comes back as the option's size. */
    method GetSockOpt(s: int, level: int, option: int, buf: Buffer) returns (rtn: int, length: nat)
      modifies this, buf
      ensures |buf.bytes| == |old(buf.bytes)|
      ensures log == old(log) + [NnGetSockOpt(s, level, option, |buf.bytes|, rtn, length, buf.bytes)]
    {
      rtn, length := *, *;
      var written: seq<byte> :| |written| == |buf.bytes|;
      buf.bytes := written;
      log := log + [NnGetSockOpt(s, level, option, |buf.bytes|, rtn, length, buf.bytes)];
    }

    /** `nn_poll(fds, nfds, timeout)`: the library fills in one `revents` per entry. */
    method Poll(fds: seq<PollFd>, timeout: int) returns (rtn: int, revents: seq<bv16>)
      modifies this
      ensures |revents| == |fds|
      ensures log == old(log) + [NnPoll(fds, timeout, rtn, revents)]
    {
      rtn := *;
      ghost var example: seq<bv16> := seq(|fds|, _ => 0 as bv16);
      assert |example| == |fds|;
      var r: seq<bv16> :| |r| == |fds|;
      revents := r;
      log := log + [NnPoll(fds, timeout, rtn, revents)];
    }

    /** `nn_allocmsg(size, type)`: 0 stands for the NULL pointer; `contents`
        are the `size` bytes the new chunk holds. */
    method AllocMsg(size: nat, msgType: int) returns (address: int, contents: seq<byte>)
      modifies this
      ensures |contents| == size
      ensures log == old(log) + [NnAllocMsg(size, msgType, address)]
    {
      address := *;
      ghost var example: seq<byte> := seq(size, _ => 0 as byte);
      assert |example| == size;
      var c: seq<byte> :| |c| == size;
      contents := c;
      log := log + [NnAllocMsg(size, msgType, address)];
    }

    method FreeMsg(address: int) returns (rtn: int)
      modifies this
      ensures log == old(log) + [NnFreeMsg(address, rtn)]
    {
      rtn := *;
      log := log + [NnFreeMsg(address, rtn)];
    }

    method Device(s1: int, s2: int) returns (rtn: int)
      modifies this
      ensures log == old(log) + [NnDevice(s1, s2, rtn)]
    {
      rtn := *;
      log := log + [NnDevice(s1, s2, rtn)];
    }

    method Term()
      modifies this
      ensures log == old(log) + [NnTerm]
    {
      log := log + [NnTerm];
    }

    method NanoconfigConfigure(s: int, addr: string) returns (rtn: int)
      modifies this
      ensures log == old(log) + [NcConfigure(s, addr, rtn)]
    {
      rtn := *;
      log := log + [NcConfigure(s, addr, rtn)];
    }

    method NanoconfigClose(s: int)
      modifies this
      ensures log == old(log) + [NcClose(s)]
    {
      log := log + [NcClose(s)];
    }

    method NanoconfigTerm()
      modifies this
      ensures log == old(log) + [NcTerm]
    {
      log := log + [NcTerm];
    }
  }
}
