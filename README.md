# nanomsg-python binding layer, modelled in Dafny

This project models the bookkeeping that the nanomsg-python package does around the
native nanomsg library, and proves properties of that model. The modelled parts are:

- the `nanomsg` package (`nanomsg/__init__.py`):
  - the constant import, which strips the `NN_` prefix;
  - the return-code check `_nn_check_positive_rtn`;
  - the `Socket` object with its handle and its ordered endpoint list, covering `bind`,
    `connect`, `configure`, `close`, `is_open`, `uses_nanoconfig`, `send`, `recv` and
    the option accessors;
  - the endpoint `shutdown` methods, `Device`, `create_message_buffer` and `terminate_all`;
  - the `poll` multiplexer.
- the ctypes backend (`_nanomsg_ctypes/__init__.py`):
  - the C-declaration parser `_c_func_wrapper_factory`, with `move_pointer_and_strip`,
    `type_lookup`, declaration splitting and parameter direction flags;
  - the module loop that exports one wrapper per header line;
  - `nn_symbols`, `nn_poll`, the buffer guards of `nn_getsockopt` and `nn_recv`,
    `nn_send`, `nn_allocmsg` and `Message.__del__`.
- the backend resolver (`nanomsg_wrappers/__init__.py`): `set_wrapper_choice`,
  `load_wrapper`, `get_default_for_platform` and `list_wrappers`.
- the poll status conversion in the CPython extension (`_nanomsg_cpy/wrapper.c`), which is
  reported under "Findings".

The native library is an oracle (module `Native`, file `native.dfy`).

- Each native entry point is a method of `Engine` that returns an unconstrained value.
- Each call appends a record of the call, with its arguments and its result, to `log`.
- "No native call is made" means that `log` is unchanged.
- Memory the library fills is a `Buffer`. Its new contents are unconstrained, but its
  length is kept.
- `nn_symbol`, `python_implementation()` and what importing each module does are function
  parameters. An import either succeeds, fails with `ImportError`, or fails with another
  exception raised while the module initialises (`OSError` from loading the native library).

Other modelling choices:

- Python dicts are insertion-ordered lists of key/value pairs (`Common.Get`, `Put`,
  `Collect`). Assigning an existing key keeps its position.
- Python strings are `seq<char>`. The `str` methods the parser uses are in `pystr.dfy`:
  `strip`, `rindex`, `split`, `rsplit`, `split(sep, maxsplit)` and `replace(pat, '')`.
- Poll masks are `bv16`, the width of the C `short` fields of `struct nn_pollfd`.
- The C `int` option value is a 4-byte little-endian two's-complement codec. Its round trip
  is proved.

A few behaviours of the code, stated plainly:

- `Device` does not check its sockets. It reads their handles, and a missing second socket
  becomes `-1`.
- `recv` into a caller's buffer returns the buffer's bytes cut to the returned length.
- `send` returns nothing once the status check passes.
- `set_wrapper_choice` can be called any number of times. The last call wins.

## Model

| member | source | states |
|---|---|---|
| Nanomsg.ConstantName | nanomsg/__init__.py:18-19 | a name with the `NN_` prefix gives the rest, which with `NN_` put back is the name again; any other name is unchanged |
| Nanomsg.ConstantNameOfPrefixed | nanomsg/__init__.py:18-19 | `NN_` followed by any rest is exposed as that rest |
| Nanomsg.Renamed | nanomsg/__init__.py:17-19 | the renamed pairs keep their order and count, and every value is untouched |
| Nanomsg.ImportConstants | nanomsg/__init__.py:17-20 | the loop leaves the module globals that assigning each renamed pair in turn gives |
| Nanomsg.ImportedConstant | nanomsg/__init__.py:17-20 | after the import, a renamed name holds the value of its last assignment |
| Nanomsg.ImportKeepsOthers | nanomsg/__init__.py:17-20 | a global that no renamed name hits keeps its old value (or stays absent) |
| Nanomsg.CheckPositive | nanomsg/__init__.py:61-64 | raises `NanoMsgAPIError` iff `rtn < 0`; otherwise returns `rtn` unchanged |
| Nanomsg.Truncate | nanomsg/__init__.py:366 | `s[:n]`: a prefix of `s` of length `min(n, len(s))` |
| Nanomsg.TimeoutMs | nanomsg/__init__.py:114-117 | `-1` for a negative timeout; otherwise the whole milliseconds below `timeout*1000` (`int()` truncation) |
| Nanomsg.PackInt | nanomsg/__init__.py:373-374 | packing a C `int` gives 4 bytes |
| Nanomsg.UnpackInt | nanomsg/__init__.py:386 | unpacking 4 bytes gives a value in the C `int` range |
| Nanomsg.UnpackPack | nanomsg/__init__.py:372-386 | unpacking what `set_int_option` packs gives back the value |
| Nanomsg.PackUnpack | nanomsg/__init__.py:372-386 | packing what `get_int_option` unpacks gives back the 4 bytes |
| Nanomsg.Globals.constructor | nanomsg/__init__.py:14 | `nanoconfig_started` starts out false |
| Nanomsg.TerminateAll | nanomsg/__init__.py:85-91 | `nc_term` runs only when nanoconfig was started, and then `nn_term`; the flag ends up false |
| Nanomsg.CreateMessageBuffer | nanomsg/__init__.py:31-36 | one `nn_allocmsg` call; a null result raises `NanoMsgAPIError`, otherwise the message of that size is returned |
| Nanomsg.Device.constructor | nanomsg/__init__.py:72-74 | the device keeps the first socket's handle, and the second's or `-1` |
| Nanomsg.Device.Start | nanomsg/__init__.py:76-82 | one `nn_device` call on the two handles; raises iff it returns a negative status |
| Nanomsg.Endpoint.constructor | nanomsg/__init__.py:165-168 | the endpoint records its socket, id, address and kind |
| Nanomsg.Endpoint.Shutdown | nanomsg/__init__.py:174-197 | a nanoconfig endpoint raises `NotImplementedError`, with no native call and no list change; otherwise the endpoint leaves the list (or `ValueError` if absent) before `nn_shutdown` runs, and a negative status raises |
| Nanomsg.Socket.constructor | nanomsg/__init__.py:207-209 | a socket over the given handle, with no endpoints |
| Nanomsg.Socket.IsOpen | nanomsg/__init__.py:350-357 | a socket whose handle is `-1` (as `close` leaves it) is not open |
| Nanomsg.Socket.UsesNanoconfig | nanomsg/__init__.py:299-302 | under the socket invariant, testing only the first endpoint is the same as asking whether any endpoint came from `configure`, and that endpoint is then the only one |
| Nanomsg.Socket.AddEndpoint | nanomsg/__init__.py:311-313 | exactly one new endpoint is appended at the end, and the socket invariant holds |
| Nanomsg.Socket.Remove | nanomsg/__init__.py:175 | `_endpoints.remove(ep)` drops that endpoint and keeps the invariant |
| Common.RemoveFirst | nanomsg/__init__.py:175 | `list.remove(x)` on a list holding `x` drops exactly one `x`: one element fewer, and the multiset of elements loses one `x` |
| Nanomsg.Socket.Bind | nanomsg/__init__.py:304-313 | on a nanoconfig socket, `ValueError` with no native call and no list change; otherwise one `nn_bind` call; a negative status raises with the list unchanged, and success appends exactly one bind endpoint with the returned id |
| Nanomsg.Socket.Connect | nanomsg/__init__.py:315-324 | as `bind`, with `nn_connect` and a connect endpoint |
| Nanomsg.Socket.Configure | nanomsg/__init__.py:326-338 | `ValueError` if any endpoint exists, with no native call; otherwise one `nc_configure` call, and success sets `nanoconfig_started` and makes the nanoconfig endpoint the sole one |
| Nanomsg.Socket.Close | nanomsg/__init__.py:340-357 | a closed socket is left alone; an open one gets `fd = -1` before `nc_close` or `nn_close` on the old handle; the endpoint list never changes |
| Nanomsg.Socket.Send | nanomsg/__init__.py:394-396 | one `nn_send` call; raises iff its status is negative |
| Nanomsg.Socket.RecvMessage | nanomsg/__init__.py:359-366 | one `nn_recv` call; a negative status raises, otherwise the received message's bytes (all `rtn` of them) are returned |
| Nanomsg.Socket.RecvBuffer | nanomsg/__init__.py:359-366 | a read-only buffer or a `bytearray` raises `TypeError` with no native call; a ctypes array gets one `nn_recv` call, and the result is its bytes cut to the returned length |
| Nanomsg.Socket.SetStringOption | nanomsg/__init__.py:368-370 | one `nn_setsockopt` call with the value; raises iff the status is negative |
| Nanomsg.Socket.SetIntOption | nanomsg/__init__.py:372-376 | a value outside the C `int` range fails with no native call; otherwise `nn_setsockopt` gets the 4 packed bytes |
| Nanomsg.Socket.GetIntOption | nanomsg/__init__.py:378-386 | a negative status raises `NanoMsgAPIError`; a reported length other than 4 raises `NanoMsgError`; otherwise the unpacked 4 bytes |
| Nanomsg.Socket.GetStringOption | nanomsg/__init__.py:388-392 | a negative status raises; otherwise the buffer cut to the reported length |
| Nanomsg.NewSocket | nanomsg/__init__.py:199-209 | both a protocol and a handle raise `NanoMsgError` with no native call; a protocol opens a socket through `nn_socket`, and a negative status raises; a handle is wrapped as is; a new socket has no endpoints |
| Nanomsg.AddOut | nanomsg/__init__.py:108-111 | the `out_sockets` loop keeps one entry per handle |
| Nanomsg.Interest | nanomsg/__init__.py:102-111 | the interest dict has one entry per distinct handle |
| Nanomsg.FdSockets | nanomsg/__init__.py:104-111 | the reverse map `fd_sockets` holds each handle once |
| Nanomsg.InModes | nanomsg/__init__.py:105-107 | after the `in_sockets` loop, a handle holds `POLLIN` iff it is a reading handle |
| Nanomsg.OutModes | nanomsg/__init__.py:108-111 | after the `out_sockets` loop, a writing handle holds its old mode ORed with `POLLOUT`, and every other entry is unchanged |
| Nanomsg.OrOutTwice | nanomsg/__init__.py:110 | adding `POLLOUT` twice is adding it once, so a handle listed twice is polled the same way |
| Nanomsg.InterestSpec | nanomsg/__init__.py:102-111 | a handle is in the interest dict iff it is reading or writing, with `POLLIN` if reading ORed with `POLLOUT` if writing (`POLLIN|POLLOUT` for both) |
| Nanomsg.PollKeys | nanomsg/__init__.py:104-111 | every handle in the interest dict has a socket in the reverse map |
| Nanomsg.InterestKeys | nanomsg/__init__.py:102-111 | the same, for all handles at once |
| Nanomsg.ResultKeys | nanomsg/__init__.py:118-123 | every handle `nn_poll` reports back can be looked up in `fd_sockets` |
| Nanomsg.ReadyFds | nanomsg/__init__.py:121-125 | at most one selected handle per result, and every selected handle is one the results report |
| Nanomsg.ReadyFdsHas | nanomsg/__init__.py:121-125 | a handle whose events hold the bit is selected |
| Nanomsg.ReadyFdsFrom | nanomsg/__init__.py:121-125 | only handles whose events hold the bit are selected |
| Nanomsg.ReadyFdsSpec | nanomsg/__init__.py:121-125 | with one entry per handle, a handle is selected iff `revents & mask != 0`, independently for `POLLIN` and `POLLOUT` |
| Nanomsg.Ready | nanomsg/__init__.py:120-125 | the list holds, in dict order, the socket of each selected handle |
| Nanomsg.PollInterest | nanomsg/__init__.py:102-111 | the two loops build exactly the interest dict and the reverse map |
| Nanomsg.AddReaders | nanomsg/__init__.py:105-107 | the `in_sockets` loop assigns `POLLIN` and the socket for each reading handle |
| Nanomsg.AddWriters | nanomsg/__init__.py:108-111 | the `out_sockets` loop ORs in `POLLOUT` and assigns the socket for each writing handle |
| Nanomsg.SplitReady | nanomsg/__init__.py:120-125 | the result loop fills the read list and the write list as `Ready` describes |
| Nanomsg.Poll | nanomsg/__init__.py:94-127 | one `nn_poll` call with the interest dict and the converted timeout; a negative status raises before any list is built; otherwise the read and write lists are those of the returned events |
| NanomsgCtypes.PointerTo | _nanomsg_ctypes/__init__.py:44 | the ctypes pointer type over `t` (`void *` for `void`) |
| NanomsgCtypes.Types | _nanomsg_ctypes/__init__.py:27-38 | only `void` maps to `None`, and a known spelling ends in `*` exactly when it maps to a pointer type (`c_char_p`, `c_void_p` or a typed pointer) |
| NanomsgCtypes.TypeLookup | _nanomsg_ctypes/__init__.py:45-46 | an unknown type raises `KeyError` naming the type as given |
| NanomsgCtypes.TypeLookupIgnoresConst | _nanomsg_ctypes/__init__.py:39-41 | a leading `const ` changes neither whether a type resolves nor what it resolves to |
| NanomsgCtypes.TypeLookupSpec | _nanomsg_ctypes/__init__.py:39-46 | a type resolves iff, once every `const ` is removed, it is a table key or a table key followed by one `*` |
| NanomsgCtypes.TypeLookupValue | _nanomsg_ctypes/__init__.py:39-44 | a table key (after `const ` removal) resolves to its entry; a key plus `*` that is itself no key resolves to a pointer to the key's entry |
| NanomsgCtypes.TypeLookupDirect | _nanomsg_ctypes/__init__.py:40-41 | a table type maps directly to its entry |
| NanomsgCtypes.TypeLookupDerived | _nanomsg_ctypes/__init__.py:42-44 | a type ending in `*` that is not in the table, whose prefix is, maps to a pointer to that entry |
| NanomsgCtypes.TypeLookupCharPointerPointer | _nanomsg_ctypes/__init__.py:42-44 | `char **` resolves to a pointer to `c_char_p` |
| NanomsgCtypes.TypeLookupOneLevelOnly | _nanomsg_ctypes/__init__.py:42-46 | pointer derivation goes one level only: `char ***` raises `KeyError` |
| NanomsgCtypes.MovePointerAndStrip | _nanomsg_ctypes/__init__.py:20-24 | the resulting name never holds a `*` |
| NanomsgCtypes.MovePointerEndsType | _nanomsg_ctypes/__init__.py:21-22 | with a `*` in the name, the resulting type ends in `*` |
| NanomsgCtypes.MovePointerKeepsStars | _nanomsg_ctypes/__init__.py:20-24 | no `*` is lost or added: the two parts hold as many as the inputs did |
| NanomsgCtypes.ParseParam | _nanomsg_ctypes/__init__.py:56 | a parameter without a space cannot be unpacked: the error names the declaration |
| NanomsgCtypes.ParseParams | _nanomsg_ctypes/__init__.py:54-56 | at most one parameter per comma-separated piece; failures name the declaration |
| NanomsgCtypes.ParseParamsNoVoid | _nanomsg_ctypes/__init__.py:54-56 | only `void` pieces are dropped: without them there is one parameter per piece |
| NanomsgCtypes.ParseParamsOk | _nanomsg_ctypes/__init__.py:53-56 | the parameter list parses iff every piece other than `void` unpacks |
| NanomsgCtypes.ParseParamsValues | _nanomsg_ctypes/__init__.py:53-56 | on success the parameters are, in order, the parse of each piece other than `void`, one per such piece |
| NanomsgCtypes.ParseVoidParams | _nanomsg_ctypes/__init__.py:54-55 | a parameter list of exactly `void` yields no parameters |
| NanomsgCtypes.ParseParamFormatted | _nanomsg_ctypes/__init__.py:56 | `type name` parses back to that type and name |
| NanomsgCtypes.ParseOneParam | _nanomsg_ctypes/__init__.py:54-56 | a single `type name` parameter list yields exactly that parameter |
| NanomsgCtypes.ResolveTypes | _nanomsg_ctypes/__init__.py:58 | one argument type per parameter, or a `KeyError` |
| NanomsgCtypes.ResolveTypesSpec | _nanomsg_ctypes/__init__.py:58 | each argument type is the lookup of its parameter's type; a failure is the first parameter whose lookup fails |
| NanomsgCtypes.ParamFlags | _nanomsg_ctypes/__init__.py:60-61 | one flag per parameter |
| NanomsgCtypes.SplitDecl | _nanomsg_ctypes/__init__.py:50-52 | a declaration that cannot be unpacked fails with an error naming it |
| NanomsgCtypes.SplitDeclNameFree | _nanomsg_ctypes/__init__.py:52 | the split-off function name holds no `*` |
| NanomsgCtypes.ParseDecl | _nanomsg_ctypes/__init__.py:19-64 | failures are a malformed declaration or an unknown type |
| NanomsgCtypes.ParseDeclShape | _nanomsg_ctypes/__init__.py:50-62 | a parsed wrapper's name holds no `*`, and it has one direction flag (1 or 2) per argument type |
| NanomsgCtypes.ParseDeclStages | _nanomsg_ctypes/__init__.py:50-62 | once the declaration splits and its parameters parse, it parses iff the result type and every argument type resolve, and then gives the wrapper built from them |
| NanomsgCtypes.ParseDeclarator | _nanomsg_ctypes/__init__.py:56 | a declarator `base *…*name`, after one space or none, parses to the type `base *…*` (or `base` without stars) and the name |
| NanomsgCtypes.ParseParamList | _nanomsg_ctypes/__init__.py:53-56 | `void` yields no parameters, and any number of `, `-separated declarators yields exactly their parameters, in order |
| NanomsgCtypes.SplitHeaderLine | _nanomsg_ctypes/__init__.py:50-52 | a header line ` <declarator>(<parameters>);` splits into the result type (with the stars of a `*name` moved onto it), the name and the parameter text, whether a space precedes `(` or not |
| NanomsgCtypes.ParseHeaderLine | _nanomsg_ctypes/__init__.py:50-64 | a header line parses iff its result type and every parameter type resolve; the wrapper then has the line's name, the resolved types in order, and per parameter its name with flag 2 exactly when it is written with two or more `*`s |
| NanomsgCtypes.HeaderArgTypes | _nanomsg_ctypes/__init__.py:58 | a header line's parameter types resolve iff each one's lookup succeeds, to those lookups in order |
| NanomsgCtypes.HeaderFlags | _nanomsg_ctypes/__init__.py:60-61 | each parameter gets flag 2 exactly when written with two or more `*`s, and keeps its name |
| NanomsgCtypes.DoubleStar | _nanomsg_ctypes/__init__.py:60 | a declarator's type contains `**` iff it is written with two or more `*`s |
| NanomsgCtypes.ParseLine | _nanomsg_ctypes/__init__.py:93-94 | a line is skipped exactly when it is all whitespace; any other line is parsed |
| NanomsgCtypes.ParseLines | _nanomsg_ctypes/__init__.py:92-94 | one verdict per header line: blank lines are skipped, the others parsed |
| NanomsgCtypes.Export | _nanomsg_ctypes/__init__.py:95 | the wrapper is stored under `'_' + name`, and no global is lost |
| NanomsgCtypes.Exports | _nanomsg_ctypes/__init__.py:92-95 | each global name is `'_'` plus its wrapper's name, and names are distinct |
| NanomsgCtypes.ExportsCover | _nanomsg_ctypes/__init__.py:92-95 | when the import succeeds, every non-blank line parsed and is exported under `'_' + name` |
| NanomsgCtypes.ExportsFailure | _nanomsg_ctypes/__init__.py:92-95 | a failed import fails with the error of one of the lines |
| NanomsgCtypes.ExportsErrSticky | _nanomsg_ctypes/__init__.py:92-95 | once a line fails, later lines change nothing |
| NanomsgCtypes.ExportsStep | _nanomsg_ctypes/__init__.py:92-95 | one loop step: a blank line is skipped, a failing line aborts, a parsed one is exported |
| NanomsgCtypes.ExportHeader | _nanomsg_ctypes/__init__.py:92-95 | the module loop leaves exactly the exports the header lines define |
| NanomsgCtypes.DecodeAscii | _nanomsg_ctypes/__init__.py:108 | ASCII decoding keeps every byte as one character of the same code |
| NanomsgCtypes.Symbols | _nanomsg_ctypes/__init__.py:98-109 | queries indices 0, 1, 2, … and stops at the first `None`; the pairs are in index order, one per non-`None` result; a non-ASCII name raises |
| NanomsgCtypes.PollArray | _nanomsg_ctypes/__init__.py:231-240 | one `nn_pollfd` per dict entry, in dict order, with the entry's handle and events |
| NanomsgCtypes.ReventsByFd | _nanomsg_ctypes/__init__.py:244 | every polled handle is mapped to its `revents`, in dict order |
| NanomsgCtypes.Poll | _nanomsg_ctypes/__init__.py:224-244 | one `nn_poll` call; `(res, {})` when `res <= 0`, otherwise each polled handle mapped to its `revents` |
| NanomsgCtypes.SetSockOpt | _nanomsg_ctypes/__init__.py:142-158 | one `nn_setsockopt` call with the value's bytes |
| NanomsgCtypes.GetSockOpt | _nanomsg_ctypes/__init__.py:161-177 | a read-only buffer raises `TypeError` and a `bytearray` fails `ctypes.addressof` with `TypeError`, both before any native call and with the buffer unchanged; a ctypes array gets one `nn_getsockopt` call with its length, returning the status and reported length |
| NanomsgCtypes.Send | _nanomsg_ctypes/__init__.py:180-186 | one `nn_send` call with the message |
| NanomsgCtypes.Message.constructor | _nanomsg_ctypes/__init__.py:189-193 | a message records its address and length |
| NanomsgCtypes.Message.Delete | _nanomsg_ctypes/__init__.py:204-207 | `nn_freemsg` runs on the old address, then `_len` and `_address` become 0 |
| NanomsgCtypes.AllocMsg | _nanomsg_ctypes/__init__.py:212-217 | one `nn_allocmsg` call; `None` iff the library returns a null pointer, otherwise a message of that size |
| NanomsgCtypes.RecvMsg | _nanomsg_ctypes/__init__.py:247-257 | one `nn_recv` call; `(rtn, None)` for a negative status, otherwise a message of `rtn` bytes |
| NanomsgCtypes.RecvInto | _nanomsg_ctypes/__init__.py:258-264 | a read-only buffer raises `TypeError` and a `bytearray` fails `ctypes.addressof` with `TypeError`, both before any native call; a ctypes array gets one `nn_recv` call into it |
| PyStr.Strip | _nanomsg_ctypes/__init__.py:24 | stripping never lengthens the text |
| PyStr.StripTrimmed | _nanomsg_ctypes/__init__.py:24 | stripped text neither starts nor ends with whitespace |
| PyStr.StripAbsent | _nanomsg_ctypes/__init__.py:24 | stripping adds no character |
| PyStr.StripKeepsCount | _nanomsg_ctypes/__init__.py:24 | stripping keeps the count of every non-space character |
| PyStr.StripUnchanged | _nanomsg_ctypes/__init__.py:24 | text without outer whitespace strips to itself |
| PyStr.StripBetween | _nanomsg_ctypes/__init__.py:24 | stripping keeps exactly the text between the outer whitespace |
| PyStr.StripBlank | _nanomsg_ctypes/__init__.py:93 | `strip()` gives the empty text iff the text is all whitespace |
| PyStr.LastIndex | _nanomsg_ctypes/__init__.py:22 | `rindex('*')` is a position of `*` |
| PyStr.LastIndexLast | _nanomsg_ctypes/__init__.py:22 | no `*` follows the position `rindex` finds |
| PyStr.SplitOnce | _nanomsg_ctypes/__init__.py:50 | `split('(', 1)` unpacks into two parts iff the text holds a `(` |
| PyStr.SplitOnceParts | _nanomsg_ctypes/__init__.py:50 | the two parts around the first `(` rebuild the text, and the first holds no `(` |
| PyStr.RSplitOnce | _nanomsg_ctypes/__init__.py:51 | `rsplit(')', 1)` unpacks into two parts iff the text holds a `)` |
| PyStr.RSplitOnceParts | _nanomsg_ctypes/__init__.py:51 | the two parts around the last `)` rebuild the text, and the second holds no `)` |
| PyStr.Split | _nanomsg_ctypes/__init__.py:54 | `split(',')` never gives an empty list |
| PyStr.JoinSplit | _nanomsg_ctypes/__init__.py:54 | joining the pieces with `,` gives back the parameter text |
| PyStr.SplitJoin | _nanomsg_ctypes/__init__.py:54 | pieces without a `,`, joined with `,`, split back into exactly those pieces |
| PyStr.SplitMax | nanomsg_wrappers/__init__.py:33 | `split('_', 2)` gives one to three fields, the last of which is a suffix of the text |
| PyStr.RemoveAll | _nanomsg_ctypes/__init__.py:39 | `replace('const ', '')` never lengthens the text |
| PyStr.RemoveAllAbsent | _nanomsg_ctypes/__init__.py:39 | text without `const ` is returned unchanged |
| PyStr.ContainsOccurs | _nanomsg_ctypes/__init__.py:60 | `pat in s` iff `pat` occurs at some position of `s` |
| PyStr.RemoveAllLeftmost | _nanomsg_ctypes/__init__.py:39 | `replace('const ', '')` keeps the text before the leftmost occurrence, drops that occurrence, and treats the rest after it the same way |
| PyStr.RemoveAllSinglePass | _nanomsg_ctypes/__init__.py:39 | the removal is one left-to-right pass: `conconst st ` becomes `const ` |
| NanomsgWrappers.Choice.constructor | nanomsg_wrappers/__init__.py:8 | `_choice` starts out as `None` |
| NanomsgWrappers.Choice.SetWrapperChoice | nanomsg_wrappers/__init__.py:10-12 | the new choice is the argument, whatever came before: the last call wins |
| NanomsgWrappers.DefaultForPlatform | nanomsg_wrappers/__init__.py:25-29 | `'cpy'` iff the implementation is CPython, else `'ctypes'` |
| NanomsgWrappers.ImportModule | nanomsg_wrappers/__init__.py:16 | the named module if it imports; `ImportError` naming it if it is not found; the module's own initialisation error (such as `OSError`) naming it otherwise |
| NanomsgWrappers.LoadWrapper | nanomsg_wrappers/__init__.py:14-23 | an explicit choice loads only `'_nanomsg_' + choice`, with its error and no fallback or warning; with no choice, an importable platform default is loaded silently, a default whose initialisation raises something other than `ImportError` propagates that error with no warning, and only an `ImportError` gives exactly one warning naming the default and then `_nanomsg_ctypes`; a loaded module imported and its name starts with `_nanomsg_` |
| NanomsgWrappers.WrapperNameAfterPrefix | nanomsg_wrappers/__init__.py:33 | for a `_nanomsg_` module, the last field of `split('_', 2)` is everything after `_nanomsg_` |
| NanomsgWrappers.WrapperName | nanomsg_wrappers/__init__.py:33 | the listed name is a suffix of the module name |
| NanomsgWrappers.ListWrappers | nanomsg_wrappers/__init__.py:32-34 | at most one wrapper name per module |
| NanomsgWrappers.ListWrappersSpec | nanomsg_wrappers/__init__.py:32-34 | a name is listed iff it is the part after `_nanomsg_` of some module whose name begins with `_nanomsg_` |
| CpyPoll.PollStatusAsWritten | _nanomsg_cpy/wrapper.c:432 | the status as converted by `PyLong_FromUnsignedLong`: the C `int` taken modulo 2^64, never negative |
| CpyPoll.PollErrorSwallowed | _nanomsg_cpy/wrapper.c:432 | with that conversion, a negative native status passes `_nn_check_positive_rtn` |
| CpyPoll.PollErrorSwallowedAtMinusOne | _nanomsg_cpy/wrapper.c:432 | the status `-1` arrives as 2^64 - 1 and is accepted |
| CpyPoll.PollStatus | _nanomsg_cpy/wrapper.c:432 | the intended conversion keeps the signed status |
| CpyPoll.PollErrorReported | _nanomsg_cpy/wrapper.c:432 | with the intended conversion, `_nn_check_positive_rtn` raises exactly when the native poll failed |

## Left out

- Loading the shared libraries (`libnanomsg`, `libnanoconfig`) and choosing the calling
  convention are left out. They are I/O. A failed load appears only as the import outcome
  `InitFails` in the backend resolver. The `nc_*` functions are modelled as always present.
- `errno` and `strerror` are left out. `NanoMsgAPIError` is the error value `ApiError`,
  without its message or number.
- Threads, the GIL release around blocking calls, and finalizer timing (`Socket.__del__`)
  are left out.
- Actual message delivery, option storage and blocking are left out. The native library's
  results are unconstrained.
- `Socket.__repr__`, `_Endpoint.__repr__`, `Message.__repr__`/`__str__` and the `endpoints`
  property, which returns a copy of the list, are left out. They only format or copy state.
- The option properties (`linger`, `send_buffer_size`, `recv_timeout`, and the others) are
  left out. Each is a one-line call of `get_int_option` or `set_int_option` with a fixed
  option number, and those two are modelled.
- `create_writable_buffer` is a `Buffer` of kind `CArray` of the requested length. The
  `bytearray` that `nanomsg/__init__.py` falls back to when a backend has no
  `create_writable_buffer` is a `Buffer` of kind `ByteArray`. Memoryviews and other buffer
  objects are not modelled.
- The `TypeError`/`AttributeError` fallbacks of `nn_setsockopt` and `nn_send`, which copy
  the value into a string buffer first, are left out. The native call receives the same
  bytes either way. When the message is a ctypes array, `nn_send` calls `buffer`, which that
  module does not define under Python 3, so the call raises `NameError`. That path is not
  modelled.
- The literal `_C_HEADER` text (`_nanomsg_ctypes/__init__.py`, lines 67-89) is not part of
  this model. `ParseHeaderLine` proves the parse of every line of its shape: a result
  declarator, with or without `*` before the name, one space or none before `(`, and `void`
  or any number of `, `-separated declarators. No lemma checks each of its 19 lines against
  that shape, and none proves that the whole header imports.
- TypeLookup: its own contract states only the `KeyError`; which spellings resolve, and to
  what, is stated by `TypeLookupSpec` and `TypeLookupValue`.
- ParseParams: its own contract states only the count bound and the error; which parameter
  lists parse, and to what, is stated by `ParseParamsOk` and `ParseParamsValues`.
- `POLLIN`, `POLLOUT` and `AF_SP` are fixed to nanomsg's values (1, 2, 1). In the package
  they are read from `nn_symbols` at import time.
- NanomsgCtypes.Symbols: requires that some index makes `nn_symbol` return `None`. The
  Python loop does not terminate otherwise.
- Nanomsg.NewSocket: requires a protocol or a handle. `Socket()` with neither stores `None`
  as the handle, which the model's integer handle cannot hold.
- Nanomsg.TimeoutMs: does not model IEEE floating point or the overflow of the C `int`
  `timeout_ms` for timeouts beyond about 24 days. The timeout is a real number.
- NanomsgCtypes.PollArray: does not model the truncation of the handle to a C `int` or of
  the events to a C `short` beyond the `bv16` mask type.
- Nanomsg.PackInt: fixes little-endian byte order, where `struct`'s `'i'` format uses the
  machine's native order.
- `_nanomsg_cpy/wrapper.c` is not part of this model beyond its poll status conversion. An
  unchecked `nn_allocmsg` result (lines 465-467) is not modelled either.
- `setup.py`, `test_utils/` and the tests are not part of this model.

## Findings

| source | as written | input that shows it | evidently intended | confidence | as-written member | corrected member |
|---|---|---|---|---|---|---|
| _nanomsg_cpy/wrapper.c:432 | the `int` status of `nn_poll` is returned through `PyLong_FromUnsignedLong`, so a negative status becomes 2^64 plus it (on a 64-bit `unsigned long`); `nanomsg.poll` then passes the status check, and since the result dict is filled only for `res > 0` it returns two empty lists instead of raising | `nn_poll` returns `-1` (for example on a closed socket): Python sees `18446744073709551615` | the signed status is kept (`PyLong_FromLong`), so `poll` raises `NanoMsgAPIError` as with the ctypes backend | high, not executed | CpyPoll.PollStatusAsWritten (shown by CpyPoll.PollErrorSwallowed, CpyPoll.PollErrorSwallowedAtMinusOne) | CpyPoll.PollStatus (proved by CpyPoll.PollErrorReported) |
