/** The `nanomsg` package: the constant import, the return-code check, the
    `Socket` object with its endpoint list, `Device`, `terminate_all` and the
    `poll` multiplexer, over the ctypes backend and the native library. */
module Nanomsg {
  import opened Common
  import opened Native
  import opened NanomsgCtypes

  // ---------------------------------------------------------------------------
  // Constants
  // ---------------------------------------------------------------------------

  /** The name a library symbol gets in the module: a leading `NN_` is dropped. */
  function ConstantName(name: string): (r: string)
    ensures StartsWith(name, "NN_") ==> "NN_" + r == name
    ensures !StartsWith(name, "NN_") ==> r == name
  {
    if StartsWith(name, "NN_") then
      assert name == name[..3] + name[3..];
      name[3..]
    else name
  }

  /** A prefixed symbol loses exactly its three prefix characters. */
  lemma ConstantNameOfPrefixed(rest: string)
    ensures ConstantName("NN_" + rest) == rest
  {
    var name := "NN_" + rest;
    assert name[..3] == "NN_";
    assert name[3..] == rest;
  }

  /** The symbol pairs with their module names. */
  function Renamed(pairs: seq<(string, int)>): (r: seq<(string, int)>)
    ensures |r| == |pairs|
    ensures forall i :: 0 <= i < |pairs| ==> r[i] == (ConstantName(pairs[i].0), pairs[i].1)
  {
    seq(|pairs|, i requires 0 <= i < |pairs| => (ConstantName(pairs[i].0), pairs[i].1))
  }

  /** The module-level loop over `nn_symbols()`: `globals()[name] = value`
      under the stripped name, in symbol order. `globals` are the module's
      integer names before the loop. */
  method ImportConstants(globals: seq<(string, int)>, pairs: seq<(string, int)>)
    returns (g: seq<(string, int)>)
    requires Distinct(Keys(globals))
    ensures g == Collect(globals, Renamed(pairs))
  {
    g := globals;
    var i := 0;
    while i < |pairs|
      invariant 0 <= i <= |pairs|
      invariant g == Collect(globals, Renamed(pairs)[..i])
    {
      var (name, value) := pairs[i];
      if StartsWith(name, "NN_") {
        name := name[3..];
      }
      assert Renamed(pairs)[..i + 1][..i] == Renamed(pairs)[..i];
      g := Put(g, name, value);
      i := i + 1;
    }
    assert Renamed(pairs)[..i] == Renamed(pairs);
  }

  /** Every symbol is exposed under its stripped name with its value untouched;
      when two symbols strip to the same name, the later one wins. */
  lemma ImportedConstant(globals: seq<(string, int)>, pairs: seq<(string, int)>, i: nat)
    requires Distinct(Keys(globals)) && i < |pairs|
    requires forall j :: i < j < |pairs| ==> ConstantName(pairs[j].0) != ConstantName(pairs[i].0)
    ensures Get(Collect(globals, Renamed(pairs)), ConstantName(pairs[i].0)) == Some(pairs[i].1)
  {
    CollectLast(globals, Renamed(pairs), i);
  }

  /** A name no symbol strips to keeps its value. */
  lemma ImportKeepsOthers(globals: seq<(string, int)>, pairs: seq<(string, int)>, name: string)
    requires Distinct(Keys(globals))
    requires forall j :: 0 <= j < |pairs| ==> ConstantName(pairs[j].0) != name
    ensures Get(Collect(globals, Renamed(pairs)), name) == Get(globals, name)
  {
    CollectUntouched(globals, Renamed(pairs), name);
  }

  /** `NN_POLLIN` and `NN_POLLOUT` as nanomsg's header defines them. */
  const POLLIN: bv16 := 1
  const POLLOUT: bv16 := 2

  /** `AF_SP`, the default socket domain. */
  const AF_SP: int := 1

  // ---------------------------------------------------------------------------
  // Return codes, truncation, timeouts and the int option codec
  // ---------------------------------------------------------------------------

  /** `_nn_check_positive_rtn(rtn)`: a negative status raises `NanoMsgAPIError`,
      anything else comes back unchanged. */
  function CheckPositive(rtn: int): (r: Result<int>)
    ensures r.Err? <==> rtn < 0
    ensures r.Err? ==> r.error == ApiError
    ensures r.Ok? ==> r.value == rtn
  {
    if rtn < 0 then Err(ApiError) else Ok(rtn)
  }

  /** `s[:n]` for a non-negative `n`: the first `n` bytes, or all of them when
      there are fewer. */
  function Truncate(s: seq<byte>, n: nat): (r: seq<byte>)
    ensures |r| == if n < |s| then n else |s|
    ensures r == s[..|r|]
  {
    if n < |s| then s[..n] else s
  }

  /** `poll`'s timeout conversion: a non-negative timeout in seconds becomes
      whole milliseconds, rounded down (`int(timeout*1000)`); a negative one
      becomes -1, the infinite wait. */
  function TimeoutMs(timeout: real): (ms: int)
    ensures timeout < 0.0 ==> ms == -1
    ensures timeout >= 0.0 ==> 0 <= ms && ms as real <= timeout * 1000.0 < ms as real + 1.0
  {
    if timeout >= 0.0 then (timeout * 1000.0).Floor else -1
  }

  /** The range of a C `int`, which `struct.pack('i', v)` accepts. */
  predicate InIntRange(v: int) {
    -0x8000_0000 <= v < 0x8000_0000
  }

  /** `struct.Struct('i').pack(v)`: four bytes, two's complement, least
      significant byte first. */
  function PackInt(v: int): (b: seq<byte>)
    requires InIntRange(v)
    ensures |b| == 4
  {
    var u := if v < 0 then v + 0x1_0000_0000 else v;
    var u1 := u / 256;
    var u2 := u1 / 256;
    DivBound(u, 0x100_0000);
    DivBound(u1, 0x1_0000);
    [(u % 256) as byte, (u1 % 256) as byte, (u2 % 256) as byte, (u2 / 256) as byte]
  }

  /** `struct.Struct('i').unpack_from(b)[0]`. */
  function UnpackInt(b: seq<byte>): (v: int)
    requires |b| == 4
    ensures InIntRange(v)
  {
    var u := Digits(b);
    if u >= 0x8000_0000 then u - 0x1_0000_0000 else u
  }

  /** The four bytes as an unsigned number, least significant first. */
  function Digits(b: seq<byte>): (u: int)
    requires |b| == 4
    ensures 0 <= u < 0x1_0000_0000
  {
    b[0] as int + 256 * (b[1] as int + 256 * (b[2] as int + 256 * (b[3] as int)))
  }

  lemma DivBound(x: int, k: nat)
    requires 0 <= x < 256 * k
    ensures 0 <= x / 256 < k
  {
  }

  lemma DigitSplit(d: int, rest: int)
    requires 0 <= d < 256 && 0 <= rest
    ensures (d + 256 * rest) % 256 == d && (d + 256 * rest) / 256 == rest
  {
  }

  /** Unpacking what was packed gives the value back. */
  lemma UnpackPack(v: int)
    requires InIntRange(v)
    ensures UnpackInt(PackInt(v)) == v
  {
    var u := if v < 0 then v + 0x1_0000_0000 else v;
    var u1 := u / 256;
    var u2 := u1 / 256;
    var b := PackInt(v);
    assert b[0] as int == u % 256 && b[1] as int == u1 % 256;
    assert b[2] as int == u2 % 256 && b[3] as int == u2 / 256;
    assert u == u % 256 + 256 * u1;
    assert u1 == u1 % 256 + 256 * u2;
    assert u2 == u2 % 256 + 256 * (u2 / 256);
    assert Digits(b) == u;
  }

  /** Packing what was unpacked gives the bytes back. */
  lemma PackUnpack(b: seq<byte>)
    requires |b| == 4
    ensures PackInt(UnpackInt(b)) == b
  {
    var r2 := b[2] as int + 256 * (b[3] as int);
    var r1 := b[1] as int + 256 * r2;
    var u := b[0] as int + 256 * r1;
    assert Digits(b) == u;
    DigitSplit(b[0] as int, r1);
    DigitSplit(b[1] as int, r2);
    DigitSplit(b[2] as int, b[3] as int);
    var p := PackInt(UnpackInt(b));
    assert p[0] == b[0] && p[1] == b[1] && p[2] == b[2] && p[3] == b[3];
  }

  // ---------------------------------------------------------------------------
  // Module state, devices and termination
  // ---------------------------------------------------------------------------

  /** The module-level `nanoconfig_started` flag. */
  class Globals {
    var nanoconfigStarted: bool

    constructor ()
      ensures !nanoconfigStarted
    {
      nanoconfigStarted := false;
    }
  }

  /** `terminate_all()`: stop the nanoconfig worker if a socket was configured,
      then notify every socket of termination. */
  method TerminateAll(g: Globals, eng: Engine)
    modifies g, eng
    ensures !g.nanoconfigStarted
    ensures eng.log == old(eng.log) + (if old(g.nanoconfigStarted) then [NcTerm, NnTerm] else [NnTerm])
  {
    if g.nanoconfigStarted {
      eng.NanoconfigTerm();
      g.nanoconfigStarted := false;
    }
    eng.Term();
  }

  /** `create_message_buffer(size, type)`: a failed allocation raises. */
  method CreateMessageBuffer(size: nat, msgType: int, eng: Engine) returns (r: Result<Message>)
    modifies eng
    ensures exists address ::
      (eng.log == old(eng.log) + [NnAllocMsg(size, msgType, address)]
       && (r.Err? <==> address == 0)
       && (r.Err? ==> r.error == ApiError)
       && (r.Ok? ==> r.value.address == address))
    ensures r.Ok? ==> fresh(r.value) && r.value.len == size
  {
    var m := AllocMsg(size, msgType, eng);
    if m.None? {
      return Err(ApiError);
    }
    r := Ok(m.value);
  }

  /** A relay between two sockets, or a loop on one (`fd2` is then -1). The
      socket handles are taken as they are, without any check. */
  class Device {
    const fd1: int
    const fd2: int

    constructor (socket1: Socket, socket2: Option<Socket>)
      ensures fd1 == socket1.fd
      ensures fd2 == if socket2.None? then -1 else socket2.value.fd
    {
      fd1 := socket1.fd;
      fd2 := if socket2.None? then -1 else socket2.value.fd;
    }

    /** `Device.start()`: run `nn_device` on the two handles; a negative
        status raises. */
    method Start(eng: Engine) returns (r: Result<()>)
      modifies eng
      ensures exists rtn ::
        (eng.log == old(eng.log) + [NnDevice(fd1, fd2, rtn)]
         && (r.Err? <==> rtn < 0) && (r.Err? ==> r.error == ApiError))
    {
      var rtn := eng.Device(fd1, fd2);
      if rtn < 0 {
        return Err(ApiError);
      }
      r := Ok(());
    }
  }

  // ---------------------------------------------------------------------------
  // Sockets and endpoints
  // ---------------------------------------------------------------------------

  /** Which `Socket` method created an endpoint (the endpoint's class). */
  datatype EndpointKind = BindEndpoint | ConnectEndpoint | NanoconfigEndpoint

  /** An endpoint: the socket it belongs to, the id the library gave it and its address. */
  class Endpoint {
    const socket: Socket
    const id: int
    const address: string
    const kind: EndpointKind

    constructor (socket: Socket, id: int, address: string, kind: EndpointKind)
      ensures this.socket == socket && this.id == id && this.address == address && this.kind == kind
    {
      this.socket := socket;
      this.id := id;
      this.address := address;
      this.kind := kind;
    }

    /** `shutdown()`: a nanoconfig endpoint refuses; any other endpoint is
        removed from its socket's list first (`list.remove`, which raises when
        it is not there), then `nn_shutdown` runs and its status is checked. */
    method Shutdown(eng: Engine) returns (r: Result<()>)
      requires socket.Valid()
      modifies socket, eng
      ensures socket.Valid() && socket.fd == old(socket.fd)
      ensures kind.NanoconfigEndpoint? ==>
        r == Err(ShutdownNotSupported) && socket.endpoints == old(socket.endpoints) && eng.log == old(eng.log)
      ensures !kind.NanoconfigEndpoint? && this !in old(socket.endpoints) ==>
        r == Err(NotInList) && socket.endpoints == old(socket.endpoints) && eng.log == old(eng.log)
      ensures !kind.NanoconfigEndpoint? && this in old(socket.endpoints) ==>
        && socket.endpoints == RemoveFirst(old(socket.endpoints), this)
        && this !in socket.endpoints
        && exists rtn ::
             (eng.log == old(eng.log) + [NnShutdown(socket.fd, id, rtn)]
              && (r.Err? <==> rtn < 0) && (r.Err? ==> r.error == ApiError))
    {
      if kind.NanoconfigEndpoint? {
        return Err(ShutdownNotSupported);
      }
      if this !in socket.endpoints {
        return Err(NotInList);
      }
      socket.Remove(this);
      var rtn := eng.Shutdown(socket.fd, id);
      if rtn < 0 {
        return Err(ApiError);
      }
      r := Ok(());
    }
  }

  class Socket {
    var fd: int
    var endpoints: seq<Endpoint>

    /** The endpoint list belongs to this socket, holds each endpoint once, and
        a nanoconfig endpoint is always the sole endpoint. */
    ghost predicate Valid()
      reads this
    {
      && Distinct(endpoints)
      && (forall i :: 0 <= i < |endpoints| ==> endpoints[i].socket == this)
      && (forall i :: 0 <= i < |endpoints| && endpoints[i].kind.NanoconfigEndpoint? ==> |endpoints| == 1)
    }

    /** A socket over the handle `fd`, with no endpoints. */
    constructor (fd: int)
      ensures this.fd == fd && endpoints == [] && Valid()
    {
      this.fd := fd;
      endpoints := [];
    }

    /** `is_open()`. */
    predicate IsOpen()
      reads this
      ensures fd == -1 ==> !IsOpen()
    {
      fd >= 0
    }

    /** The `uses_nanoconfig` property: the first endpoint came from `configure`. */
    predicate UsesNanoconfig()
      reads this
      ensures Valid() ==>
        (UsesNanoconfig() <==> exists i :: 0 <= i < |endpoints| && endpoints[i].kind.NanoconfigEndpoint?)
      ensures Valid() && UsesNanoconfig() ==> |endpoints| == 1
    {
      |endpoints| > 0 && endpoints[0].kind.NanoconfigEndpoint?
    }

    /** Appends a new endpoint of this socket. */
    method AddEndpoint(id: int, address: string, kind: EndpointKind) returns (ep: Endpoint)
      requires Valid()
      requires kind.NanoconfigEndpoint? ==> endpoints == []
      requires !kind.NanoconfigEndpoint? ==> !UsesNanoconfig()
      modifies this
      ensures fresh(ep) && ep.socket == this && ep.id == id && ep.address == address && ep.kind == kind
      ensures endpoints == old(endpoints) + [ep] && fd == old(fd)
      ensures Valid()
    {
      ep := new Endpoint(this, id, address, kind);
      endpoints := endpoints + [ep];
    }

    /** `self._endpoints.remove(ep)` for an endpoint in the list. */
    method Remove(ep: Endpoint)
      requires Valid() && ep in endpoints
      modifies this
      ensures endpoints == RemoveFirst(old(endpoints), ep) && fd == old(fd)
      ensures ep !in endpoints
      ensures Valid()
    {
      RemoveFirstOfDistinct(endpoints, ep);
      var rest := RemoveFirst(endpoints, ep);
      forall i | 0 <= i < |rest|
        ensures rest[i].socket == this && !rest[i].kind.NanoconfigEndpoint?
      {
        assert rest[i] in rest;
        var j :| 0 <= j < |endpoints| && endpoints[j] == rest[i];
        assert endpoints[j] != ep;
        assert endpoints[IndexOf(endpoints, ep)] == ep;
      }
      endpoints := rest;
    }

    /** `bind(address)`: refused while the socket uses nanoconfig, with no
        native call; otherwise `nn_bind` runs, and on success exactly one new
        endpoint is appended. */
    method Bind(address: string, eng: Engine) returns (r: Result<Endpoint>)
      requires Valid()
      modifies this, eng
      ensures Valid() && fd == old(fd)
      ensures old(UsesNanoconfig()) ==>
        r == Err(SoleEndpoint) && endpoints == old(endpoints) && eng.log == old(eng.log)
      ensures !old(UsesNanoconfig()) ==> exists rtn ::
        (eng.log == old(eng.log) + [NnBind(fd, address, rtn)]
         && (rtn < 0 ==> r == Err(ApiError) && endpoints == old(endpoints))
         && (rtn >= 0 ==> r.Ok? && endpoints == old(endpoints) + [r.value]
                          && r.value.id == rtn && r.value.address == address
                          && r.value.kind == BindEndpoint))
      ensures r.Ok? ==> fresh(r.value) && r.value.socket == this
    {
      if UsesNanoconfig() {
        return Err(SoleEndpoint);
      }
      var rtn := eng.Bind(fd, address);
      if rtn < 0 {
        return Err(ApiError);
      }
      var ep := AddEndpoint(rtn, address, BindEndpoint);
      r := Ok(ep);
    }

    /** `connect(address)`: as `bind`, through `nn_connect`. */
    method Connect(address: string, eng: Engine) returns (r: Result<Endpoint>)
      requires Valid()
      modifies this, eng
      ensures Valid() && fd == old(fd)
      ensures old(UsesNanoconfig()) ==>
        r == Err(SoleEndpoint) && endpoints == old(endpoints) && eng.log == old(eng.log)
      ensures !old(UsesNanoconfig()) ==> exists rtn ::
        (eng.log == old(eng.log) + [NnConnect(fd, address, rtn)]
         && (rtn < 0 ==> r == Err(ApiError) && endpoints == old(endpoints))
         && (rtn >= 0 ==> r.Ok? && endpoints == old(endpoints) + [r.value]
                          && r.value.id == rtn && r.value.address == address
                          && r.value.kind == ConnectEndpoint))
      ensures r.Ok? ==> fresh(r.value) && r.value.socket == this
    {
      if UsesNanoconfig() {
        return Err(SoleEndpoint);
      }
      var rtn := eng.Connect(fd, address);
      if rtn < 0 {
        return Err(ApiError);
      }
      var ep := AddEndpoint(rtn, address, ConnectEndpoint);
      r := Ok(ep);
    }

    /** `configure(address)`: only a socket without endpoints can be configured;
        on success the module records that nanoconfig started and the new
        endpoint is the sole one. */
    method Configure(address: string, g: Globals, eng: Engine) returns (r: Result<Endpoint>)
      requires Valid()
      modifies this, g, eng
      ensures Valid() && fd == old(fd)
      ensures old(endpoints) != [] ==>
        r == Err(SoleEndpoint) && endpoints == old(endpoints) && eng.log == old(eng.log)
        && g.nanoconfigStarted == old(g.nanoconfigStarted)
      ensures old(endpoints) == [] ==> exists rtn ::
        (eng.log == old(eng.log) + [NcConfigure(fd, address, rtn)]
         && (rtn < 0 ==> r == Err(ApiError) && endpoints == [] && g.nanoconfigStarted == old(g.nanoconfigStarted))
         && (rtn >= 0 ==> r.Ok? && endpoints == [r.value] && UsesNanoconfig() && g.nanoconfigStarted
                          && r.value.id == rtn && r.value.address == address))
      ensures r.Ok? ==> fresh(r.value) && r.value.socket == this
    {
      if |endpoints| > 0 {
        return Err(SoleEndpoint);
      }
      var rtn := eng.NanoconfigConfigure(fd, address);
      if rtn < 0 {
        return Err(ApiError);
      }
      g.nanoconfigStarted := true;
      var ep := AddEndpoint(rtn, address, NanoconfigEndpoint);
      r := Ok(ep);
    }

    /** `close()`: an open socket forgets its handle (-1) before the native
        close, through nanoconfig when it uses it; a closed socket is left
        alone. The endpoint list is never touched. */
    method Close(eng: Engine) returns (r: Result<()>)
      modifies this, eng
      ensures endpoints == old(endpoints)
      ensures old(fd) < 0 ==> fd == old(fd) && eng.log == old(eng.log) && r.Ok?
      ensures old(fd) >= 0 ==> fd == -1
      ensures old(fd) >= 0 && UsesNanoconfig() ==> eng.log == old(eng.log) + [NcClose(old(fd))] && r.Ok?
      ensures old(fd) >= 0 && !UsesNanoconfig() ==> exists rtn ::
        (eng.log == old(eng.log) + [NnClose(old(fd), rtn)]
         && (r.Err? <==> rtn < 0) && (r.Err? ==> r.error == ApiError))
    {
      r := Ok(());
      if IsOpen() {
        var handle := fd;
        fd := -1;
        if UsesNanoconfig() {
          eng.NanoconfigClose(handle);
        } else {
          var rtn := eng.Close(handle);
          if rtn < 0 {
            r := Err(ApiError);
          }
        }
      }
    }

    /** `send(msg, flags)`: a negative status raises; nothing is returned. */
    method Send(msg: seq<byte>, flags: int, eng: Engine) returns (r: Result<()>)
      modifies eng
      ensures exists rtn ::
        (eng.log == old(eng.log) + [NnSend(fd, msg, flags, rtn)]
         && (r.Err? <==> rtn < 0) && (r.Err? ==> r.error == ApiError))
    {
      var rtn := NanomsgCtypes.Send(fd, msg, flags, eng);
      if rtn < 0 {
        return Err(ApiError);
      }
      r := Ok(());
    }

    /** `recv()` without a buffer: the library allocates the message, whose
        `rtn` bytes come back. */
    method RecvMessage(flags: int, eng: Engine) returns (r: Result<seq<byte>>)
      modifies eng
      ensures exists rtn, address, data ::
        (eng.log == old(eng.log) + [NnRecvMsg(fd, flags, rtn, address, data)]
         && (rtn < 0 ==> r == Err(ApiError))
         && (rtn >= 0 ==> r == Ok(data) && |data| == rtn))
    {
      var rtn, m := RecvMsg(fd, flags, eng);
      if rtn < 0 {
        return Err(ApiError);
      }
      r := Ok(Truncate(m.value.bytes, rtn));
    }

    /** `recv(buf)`: a read-only buffer, or one that is not a ctypes array,
        raises `TypeError` before any native call; otherwise the message is
        received into the buffer and its first `rtn` bytes come back (all of
        them when the message was longer). */
    method RecvBuffer(buf: Buffer, flags: int, eng: Engine) returns (r: Result<seq<byte>>)
      modifies eng, buf
      ensures buf.kind == Bytes ==> r == Err(ReadOnlyBuffer) && eng.log == old(eng.log) && buf.bytes == old(buf.bytes)
      ensures buf.kind == ByteArray ==> r == Err(NotAddressable) && eng.log == old(eng.log) && buf.bytes == old(buf.bytes)
      ensures buf.kind == CArray ==> |buf.bytes| == |old(buf.bytes)| && exists rtn ::
        (eng.log == old(eng.log) + [NnRecvInto(fd, |buf.bytes|, flags, rtn, buf.bytes)]
         && (rtn < 0 ==> r == Err(ApiError))
         && (rtn >= 0 ==> r == Ok(Truncate(buf.bytes, rtn))))
    {
      var res := RecvInto(fd, buf, flags, eng);
      if res.Err? {
        return Err(res.error);
      }
      if res.value < 0 {
        return Err(ApiError);
      }
      r := Ok(Truncate(buf.bytes, res.value));
    }

    /** `set_string_option(level, option, value)`. */
    method SetStringOption(level: int, option: int, value: seq<byte>, eng: Engine) returns (r: Result<()>)
      modifies eng
      ensures exists rtn ::
        (eng.log == old(eng.log) + [NnSetSockOpt(fd, level, option, value, rtn)]
         && (r.Err? <==> rtn < 0) && (r.Err? ==> r.error == ApiError))
    {
      var rtn := SetSockOpt(fd, level, option, value, eng);
      if rtn < 0 {
        return Err(ApiError);
      }
      r := Ok(());
    }

    /** `set_int_option(level, option, value)`: a value outside the C `int`
        range fails to pack, before any native call; otherwise the library gets
        its four packed bytes. */
    method SetIntOption(level: int, option: int, value: int, eng: Engine) returns (r: Result<()>)
      modifies eng
      ensures !InIntRange(value) ==> r == Err(PackOutOfRange) && eng.log == old(eng.log)
      ensures InIntRange(value) ==> exists rtn ::
        (eng.log == old(eng.log) + [NnSetSockOpt(fd, level, option, PackInt(value), rtn)]
         && (r.Err? <==> rtn < 0) && (r.Err? ==> r.error == ApiError))
    {
      var buf := new Buffer.Writable(4);
      if !InIntRange(value) {
        return Err(PackOutOfRange);
      }
      buf.bytes := PackInt(value);
      var rtn := SetSockOpt(fd, level, option, buf.bytes, eng);
      if rtn < 0 {
        return Err(ApiError);
      }
      r := Ok(());
    }

    /** `get_int_option(level, option)`: a four-byte buffer is handed to the
        library; a negative status raises, a reported size other than four
        raises, otherwise the bytes are unpacked. */
    method GetIntOption(level: int, option: int, eng: Engine) returns (r: Result<int>)
      modifies eng
      ensures exists rtn, length: nat, written: seq<byte> ::
        (|written| == 4
         && eng.log == old(eng.log) + [NnGetSockOpt(fd, level, option, 4, rtn, length, written)]
         && (rtn < 0 ==> r == Err(ApiError))
         && (rtn >= 0 && length != 4 ==> r == Err(OptionSizeMismatch(length, 4)))
         && (rtn >= 0 && length == 4 ==> r == Ok(UnpackInt(written))))
    {
      var buf := new Buffer.Writable(4);
      var res := GetSockOpt(fd, level, option, buf, eng);
      var (rtn, length) := res.value;
      if rtn < 0 {
        return Err(ApiError);
      }
      if length != 4 {
        return Err(OptionSizeMismatch(length, 4));
      }
      r := Ok(UnpackInt(buf.bytes));
    }

    /** `get_string_option(level, option, max_len)`: a `max_len`-byte buffer is
        handed to the library and cut to the length it reports. */
    method GetStringOption(level: int, option: int, maxLen: nat, eng: Engine) returns (r: Result<seq<byte>>)
      modifies eng
      ensures exists rtn, length: nat, written: seq<byte> ::
        (|written| == maxLen
         && eng.log == old(eng.log) + [NnGetSockOpt(fd, level, option, maxLen, rtn, length, written)]
         && (rtn < 0 ==> r == Err(ApiError))
         && (rtn >= 0 ==> r == Ok(Truncate(written, length))))
    {
      var buf := new Buffer.Writable(maxLen);
      var res := GetSockOpt(fd, level, option, buf, eng);
      var (rtn, length) := res.value;
      if rtn < 0 {
        return Err(ApiError);
      }
      r := Ok(Truncate(buf.bytes, length));
    }
  }

  /** `Socket(protocol, socket_fd, domain)`: passing both raises; a protocol
      opens a new native socket, whose negative status raises; a handle is
      wrapped as it is. Either way the socket starts without endpoints. */
  method NewSocket(protocol: Option<int>, socketFd: Option<int>, domain: int, eng: Engine)
    returns (r: Result<Socket>)
    requires protocol.Some? || socketFd.Some?
    modifies eng
    ensures protocol.Some? && socketFd.Some? ==> r == Err(ConflictingArguments) && eng.log == old(eng.log)
    ensures protocol.Some? && socketFd.None? ==> exists rtn ::
      (eng.log == old(eng.log) + [NnSocket(domain, protocol.value, rtn)]
       && (rtn < 0 ==> r == Err(ApiError)) && (rtn >= 0 ==> r.Ok? && r.value.fd == rtn))
    ensures protocol.None? ==> r.Ok? && r.value.fd == socketFd.value && eng.log == old(eng.log)
    ensures r.Ok? ==> fresh(r.value) && r.value.endpoints == [] && r.value.Valid()
  {
    if protocol.Some? && socketFd.Some? {
      return Err(ConflictingArguments);
    }
    var handle;
    if protocol.Some? {
      var rtn := eng.Socket(domain, protocol.value);
      if rtn < 0 {
        return Err(ApiError);
      }
      handle := rtn;
    } else {
      handle := socketFd.value;
    }
    var s := new Socket(handle);
    r := Ok(s);
  }

  // ---------------------------------------------------------------------------
  // poll
  // ---------------------------------------------------------------------------

  /** The handles of a list of sockets, in order. */
  function Fds(ss: seq<Socket>): (fds: seq<int>)
    reads ss
    ensures |fds| == |ss| && forall i :: 0 <= i < |ss| ==> fds[i] == ss[i].fd
  {
    seq(|ss|, i requires 0 <= i < |ss| reads ss => ss[i].fd)
  }

  /** `(s.fd, s)` for each socket, in order. */
  function Tagged(ss: seq<Socket>): (t: seq<(int, Socket)>)
    reads ss
    ensures |t| == |ss| && forall i :: 0 <= i < |ss| ==> t[i] == (ss[i].fd, ss[i])
  {
    seq(|ss|, i requires 0 <= i < |ss| reads ss => (ss[i].fd, ss[i]))
  }

  /** `(fd, mode)` for each handle, in order. */
  function WithMode(fds: seq<int>, mode: bv16): (t: seq<(int, bv16)>)
    ensures |t| == |fds| && forall i :: 0 <= i < |fds| ==> t[i] == (fds[i], mode)
  {
    seq(|fds|, i requires 0 <= i < |fds| => (fds[i], mode))
  }

  /** `d.get(fd, 0)`. */
  function Mode(d: seq<(int, bv16)>, fd: int): bv16 {
    match Get(d, fd)
    case None => 0
    case Some(m) => m
  }

  /** `m | POLLOUT`. */
  function WithOut(m: bv16): bv16 {
    m | POLLOUT
  }

  /** The loop over `out_sockets`: `d[fd] = d.get(fd, 0) | POLLOUT`. */
  function AddOut(d: seq<(int, bv16)>, fds: seq<int>): (r: seq<(int, bv16)>)
    requires Distinct(Keys(d))
    ensures Distinct(Keys(r))
  {
    if fds == [] then d
    else
      var e := AddOut(d, fds[..|fds| - 1]);
      var fd := fds[|fds| - 1];
      Put(e, fd, WithOut(Mode(e, fd)))
  }

  /** The interest dict `poll` hands to `nn_poll`: `POLLIN` for every reading
      handle, then `POLLOUT` added for every writing one. */
  function Interest(inFds: seq<int>, outFds: seq<int>): (d: seq<(int, bv16)>)
    ensures Distinct(Keys(d))
  {
    AddOut(Collect([], WithMode(inFds, POLLIN)), outFds)
  }

  /** The reverse map `fd_sockets`: each handle to the last socket seen with it. */
  function FdSockets(inSockets: seq<Socket>, outSockets: seq<Socket>): (d: seq<(int, Socket)>)
    reads inSockets, outSockets
    ensures Distinct(Keys(d))
  {
    Collect(Collect([], Tagged(inSockets)), Tagged(outSockets))
  }

  lemma {:induction false} InModes(fds: seq<int>, fd: int)
    ensures Get(Collect([], WithMode(fds, POLLIN)), fd) == if fd in fds then Some(POLLIN) else None
  {
    if fds != [] {
      var init := fds[..|fds| - 1];
      assert WithMode(fds, POLLIN)[..|fds| - 1] == WithMode(init, POLLIN);
      GetPut(Collect([], WithMode(init, POLLIN)), fds[|fds| - 1], POLLIN, fd);
      InModes(init, fd);
      assert fds == init + [fds[|fds| - 1]];
    }
  }

  lemma {:induction false} OutModes(d: seq<(int, bv16)>, fds: seq<int>, fd: int)
    requires Distinct(Keys(d))
    ensures Get(AddOut(d, fds), fd) == if fd in fds then Some(WithOut(Mode(d, fd))) else Get(d, fd)
  {
    if fds != [] {
      var init := fds[..|fds| - 1];
      var e := AddOut(d, init);
      var last := fds[|fds| - 1];
      assert fds == init + [last];
      OutModes(d, init, fd);
      GetPut(e, last, WithOut(Mode(e, last)), fd);
      if fd == last {
        OrOutTwice(Mode(d, fd));
      } else {
        assert fd in fds <==> fd in init;
      }
    }
  }

  lemma OrOutTwice(m: bv16)
    ensures WithOut(WithOut(m)) == WithOut(m)
  {
  }

  /** The interest dict has an entry exactly for the handles polled, holding
      `POLLIN` when the handle is read, or-ed with `POLLOUT` when it is written. */
  lemma InterestSpec(inFds: seq<int>, outFds: seq<int>, fd: int)
    ensures Get(Interest(inFds, outFds), fd) ==
      if fd in inFds || fd in outFds then
        Some((if fd in inFds then POLLIN else 0) | (if fd in outFds then POLLOUT else 0))
      else None
  {
    InModes(inFds, fd);
    OutModes(Collect([], WithMode(inFds, POLLIN)), outFds, fd);
    assert WithOut(POLLIN) == POLLIN | POLLOUT && WithOut(0) == POLLOUT;
  }

  /** Every polled handle has a socket to report. */
  lemma PollKeys(inSockets: seq<Socket>, outSockets: seq<Socket>, fd: int)
    requires fd in Keys(Interest(Fds(inSockets), Fds(outSockets)))
    ensures fd in Keys(FdSockets(inSockets, outSockets))
  {
    InterestSpec(Fds(inSockets), Fds(outSockets), fd);
    assert Keys(Tagged(inSockets)) == Fds(inSockets);
    assert Keys(Tagged(outSockets)) == Fds(outSockets);
    CollectKeys([], Tagged(inSockets), fd);
    CollectKeys(Collect([], Tagged(inSockets)), Tagged(outSockets), fd);
  }

  /** `(events & mask) != 0`. */
  predicate HasBit(events: bv16, mask: bv16) {
    events & mask != 0
  }

  /** The handles whose returned events include `mask`, in dict order. */
  function ReadyFds(results: seq<(int, bv16)>, mask: bv16): (fds: seq<int>)
    ensures |fds| <= |results|
    ensures forall x :: x in fds ==> x in Keys(results)
  {
    if results == [] then []
    else
      var last := results[|results| - 1];
      ReadyFds(results[..|results| - 1], mask) + (if HasBit(last.1, mask) then [last.0] else [])
  }

  /** A result with the bit set puts its handle among the ready ones. */
  lemma {:induction false} ReadyFdsHas(results: seq<(int, bv16)>, mask: bv16, j: nat)
    requires j < |results| && HasBit(results[j].1, mask)
    ensures results[j].0 in ReadyFds(results, mask)
  {
    var init := results[..|results| - 1];
    if j < |init| {
      assert init[j] == results[j];
      ReadyFdsHas(init, mask, j);
    }
  }

  /** A ready handle comes from a result with the bit set. */
  lemma {:induction false} ReadyFdsFrom(results: seq<(int, bv16)>, mask: bv16, fd: int)
    requires fd in ReadyFds(results, mask)
    ensures exists j :: 0 <= j < |results| && results[j].0 == fd && HasBit(results[j].1, mask)
  {
    var init := results[..|results| - 1];
    var last := results[|results| - 1];
    if fd in ReadyFds(init, mask) {
      ReadyFdsFrom(init, mask, fd);
      var j :| 0 <= j < |init| && init[j].0 == fd && HasBit(init[j].1, mask);
      assert results[j] == init[j];
    } else {
      assert fd == last.0 && HasBit(last.1, mask);
    }
  }

  /** With one result per handle, a handle is ready exactly when its own
      returned events have the bit set; the read and write tests are separate
      calls and do not influence each other. */
  lemma ReadyFdsSpec(results: seq<(int, bv16)>, mask: bv16, i: nat)
    requires Distinct(Keys(results)) && i < |results|
    ensures results[i].0 in ReadyFds(results, mask) <==> HasBit(results[i].1, mask)
  {
    var ks := Keys(results);
    if HasBit(results[i].1, mask) {
      ReadyFdsHas(results, mask, i);
    }
    if results[i].0 in ReadyFds(results, mask) {
      ReadyFdsFrom(results, mask, results[i].0);
      var j :| 0 <= j < |results| && results[j].0 == results[i].0 && HasBit(results[j].1, mask);
      assert ks[i] == ks[j];
    }
  }

  /** `fd_sockets[fd]` for a handle the map holds. */
  function SocketOf(d: seq<(int, Socket)>, fd: int): Socket
    requires fd in Keys(d)
  {
    Get(d, fd).value
  }

  /** The sockets of the ready handles, in dict order. */
  function Ready(results: seq<(int, bv16)>, fdSockets: seq<(int, Socket)>, mask: bv16): (ss: seq<Socket>)
    requires forall i :: 0 <= i < |results| ==> results[i].0 in Keys(fdSockets)
    ensures |ss| == |ReadyFds(results, mask)|
    ensures forall j :: 0 <= j < |ss| ==>
      ReadyFds(results, mask)[j] in Keys(fdSockets) && ss[j] == SocketOf(fdSockets, ReadyFds(results, mask)[j])
  {
    if results == [] then []
    else
      var last := results[|results| - 1];
      Ready(results[..|results| - 1], fdSockets, mask)
        + (if HasBit(last.1, mask) then [SocketOf(fdSockets, last.0)] else [])
  }

  /** `poll(in_sockets, out_sockets, timeout)`: build the interest dict and the
      reverse map, convert the timeout, poll; a negative status raises,
      otherwise every returned handle goes to the read list when its events
      hold `POLLIN` and to the write list when they hold `POLLOUT`. */
  method Poll(inSockets: seq<Socket>, outSockets: seq<Socket>, timeout: real, eng: Engine)
    returns (r: Result<(seq<Socket>, seq<Socket>)>)
    modifies eng
    ensures var interest := old(Interest(Fds(inSockets), Fds(outSockets)));
      exists res: int, revents: seq<bv16> ::
        && |revents| == |interest|
        && eng.log == old(eng.log) + [NnPoll(PollArray(interest), TimeoutMs(timeout), res, revents)]
        && (res < 0 ==> r == Err(ApiError))
        && (res >= 0 ==> r.Ok? && PollLists(if res == 0 then [] else ReventsByFd(interest, revents),
                                             old(FdSockets(inSockets, outSockets)), r.value))
  {
    var sockets, fdSockets := PollInterest(inSockets, outSockets);
    InterestKeys(inSockets, outSockets);
    var res, results := NanomsgCtypes.Poll(sockets, TimeoutMs(timeout), eng);
    ghost var revents: seq<bv16> :| |revents| == |sockets|
      && eng.log == old(eng.log) + [NnPoll(PollArray(sockets), TimeoutMs(timeout), res, revents)]
      && results == (if res <= 0 then [] else ReventsByFd(sockets, revents));
    if res < 0 {
      r := Err(ApiError);
    } else {
      ResultKeys(sockets, fdSockets, results);
      var readList, writeList := SplitReady(results, fdSockets);
      r := Ok((readList, writeList));
      assert PollLists(results, fdSockets, r.value);
    }
    assert results == (if res == 0 then [] else ReventsByFd(sockets, revents)) || res < 0;
  }

  /** Every handle of the interest dict is a key of the reverse map. */
  lemma InterestKeys(inSockets: seq<Socket>, outSockets: seq<Socket>)
    ensures forall fd :: fd in Keys(Interest(Fds(inSockets), Fds(outSockets))) ==>
      fd in Keys(FdSockets(inSockets, outSockets))
  {
    forall fd | fd in Keys(Interest(Fds(inSockets), Fds(outSockets)))
      ensures fd in Keys(FdSockets(inSockets, outSockets))
    {
      PollKeys(inSockets, outSockets, fd);
    }
  }

  /** Every handle `nn_poll` reports back is one the reverse map holds. */
  lemma ResultKeys(sockets: seq<(int, bv16)>, fdSockets: seq<(int, Socket)>, results: seq<(int, bv16)>)
    requires forall fd :: fd in Keys(sockets) ==> fd in Keys(fdSockets)
    requires results == [] || Keys(results) == Keys(sockets)
    ensures forall i :: 0 <= i < |results| ==> results[i].0 in Keys(fdSockets)
  {
    forall i | 0 <= i < |results|
      ensures results[i].0 in Keys(fdSockets)
    {
      assert Keys(results)[i] == results[i].0;
    }
  }

  /** The two loops that open `poll`: the interest dict and the reverse map. */
  method PollInterest(inSockets: seq<Socket>, outSockets: seq<Socket>)
    returns (sockets: seq<(int, bv16)>, fdSockets: seq<(int, Socket)>)
    ensures sockets == Interest(Fds(inSockets), Fds(outSockets))
    ensures fdSockets == FdSockets(inSockets, outSockets)
  {
    sockets, fdSockets := AddReaders(inSockets);
    sockets, fdSockets := AddWriters(sockets, fdSockets, outSockets);
  }

  /** The loop over `in_sockets`: `sockets[s.fd] = POLLIN`, `fd_sockets[s.fd] = s`. */
  method AddReaders(inSockets: seq<Socket>) returns (sockets: seq<(int, bv16)>, fdSockets: seq<(int, Socket)>)
    ensures sockets == Collect([], WithMode(Fds(inSockets), POLLIN))
    ensures fdSockets == Collect([], Tagged(inSockets))
  {
    sockets, fdSockets := [], [];
    var i := 0;
    while i < |inSockets|
      invariant 0 <= i <= |inSockets|
      invariant sockets == Collect([], WithMode(Fds(inSockets), POLLIN)[..i])
      invariant fdSockets == Collect([], Tagged(inSockets)[..i])
    {
      var s := inSockets[i];
      assert WithMode(Fds(inSockets), POLLIN)[..i + 1][..i] == WithMode(Fds(inSockets), POLLIN)[..i];
      assert Tagged(inSockets)[..i + 1][..i] == Tagged(inSockets)[..i];
      sockets := Put(sockets, s.fd, POLLIN);
      fdSockets := Put(fdSockets, s.fd, s);
      i := i + 1;
    }
    assert WithMode(Fds(inSockets), POLLIN)[..i] == WithMode(Fds(inSockets), POLLIN);
    assert Tagged(inSockets)[..i] == Tagged(inSockets);
  }

  /** The loop over `out_sockets`: `sockets[s.fd] = sockets.get(s.fd, 0) | POLLOUT`,
      `fd_sockets[s.fd] = s`. */
  method AddWriters(sockets0: seq<(int, bv16)>, fdSockets0: seq<(int, Socket)>, outSockets: seq<Socket>)
    returns (sockets: seq<(int, bv16)>, fdSockets: seq<(int, Socket)>)
    requires Distinct(Keys(sockets0)) && Distinct(Keys(fdSockets0))
    ensures sockets == AddOut(sockets0, Fds(outSockets))
    ensures fdSockets == Collect(fdSockets0, Tagged(outSockets))
  {
    sockets, fdSockets := sockets0, fdSockets0;
    var i := 0;
    while i < |outSockets|
      invariant 0 <= i <= |outSockets|
      invariant sockets == AddOut(sockets0, Fds(outSockets)[..i])
      invariant fdSockets == Collect(fdSockets0, Tagged(outSockets)[..i])
    {
      var s := outSockets[i];
      assert Fds(outSockets)[..i + 1][..i] == Fds(outSockets)[..i];
      assert Tagged(outSockets)[..i + 1][..i] == Tagged(outSockets)[..i];
      var modes := Mode(sockets, s.fd);
      sockets := Put(sockets, s.fd, WithOut(modes));
      fdSockets := Put(fdSockets, s.fd, s);
      i := i + 1;
    }
    assert Fds(outSockets)[..i] == Fds(outSockets);
    assert Tagged(outSockets)[..i] == Tagged(outSockets);
  }

  /** The loop that closes `poll`: each returned handle's socket goes to the
      read list and to the write list according to its events. */
  method SplitReady(results: seq<(int, bv16)>, fdSockets: seq<(int, Socket)>)
    returns (readList: seq<Socket>, writeList: seq<Socket>)
    requires forall i :: 0 <= i < |results| ==> results[i].0 in Keys(fdSockets)
    ensures readList == Ready(results, fdSockets, POLLIN)
    ensures writeList == Ready(results, fdSockets, POLLOUT)
  {
    readList, writeList := [], [];
    var i := 0;
    while i < |results|
      invariant 0 <= i <= |results|
      invariant readList == Ready(results[..i], fdSockets, POLLIN)
      invariant writeList == Ready(results[..i], fdSockets, POLLOUT)
    {
      var (fd, result) := results[i];
      assert results[..i + 1][..i] == results[..i];
      if HasBit(result, POLLIN) {
        readList := readList + [SocketOf(fdSockets, fd)];
      }
      if HasBit(result, POLLOUT) {
        writeList := writeList + [SocketOf(fdSockets, fd)];
      }
      i := i + 1;
    }
    assert results[..i] == results;
  }

  /** The read and write lists `poll` returns for the dict `nn_poll` gave back. */
  ghost predicate PollLists(results: seq<(int, bv16)>, fdSockets: seq<(int, Socket)>,
                            lists: (seq<Socket>, seq<Socket>))
  {
    && (forall i :: 0 <= i < |results| ==> results[i].0 in Keys(fdSockets))
    && lists == (Ready(results, fdSockets, POLLIN), Ready(results, fdSockets, POLLOUT))
  }
}
