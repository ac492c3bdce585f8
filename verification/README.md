# nvim-external-command in Dafny

`nvim-external-command` is a small command-line tool. It sends one Vim
command to every running Neovim instance that listens on a Unix socket in a
shared directory. It does three things:

- It derives the command. `exec --command C` sends `C`; `theme --name N`
  sends `colorscheme N`.
- It builds one msgpack-rpc Request, `[0, 1, "nvim_command", [command]]`,
  serialised in MessagePack.
- It goes through the sockets directory in listing order. Every entry whose
  path, read as text, starts with `<sockets-path>/<tmp-prefix>` gets a
  connection and the whole buffer. The first error of any kind ends the run.

The model has six modules.

- `Wrappers`: `Option`, `Result` and `Outcome`.
- `Bytes`: bytes and big-endian fields.
- `Utf8`: the UTF-8 form of Rust strings, as RFC 3629 defines it. It has an
  encoder and a strict decoder. The decoder rejects overlong forms,
  surrogates and anything above U+10FFFF, as Rust's `str::from_utf8` does.
- `MsgPack`: the value tree and its encoder, following the "Formats" section
  of the MessagePack specification, plus a decoder. The request itself
  uses four formats: positive fixint (for 0 and 1), fixstr, str 8/16/32
  (for longer commands) and fixarray (for the arrays of 4 and of 1). The
  model also covers uint 8/16/32/64 and array 16/32, because the encoder's
  `write_uint` and `write_array_len` choose among them for larger values.
  The encoder always picks the smallest format.
- `Rpc`: `request`, and how a msgpack-rpc listener reads its output.
- `Dispatch`: the command derivation, the path filter and the loop of
  `main`.

I/O is replaced by data.

- The directory listing is a `Listing`. Reading the directory either fails,
  or it yields a sequence of entries. Each entry is an error or a path.
- Connecting and writing are the two functions of a `Transport`. Each says,
  per path, whether the step succeeds.
- A run yields a `Report`: the sockets it tried to connect to, in order,
  and whether it ended in success or in which failure.

The loop `Broadcast` takes its path filter as a function value. `RunTask`
passes it `SocketFilter` of the filename prefix, so the loop's properties
hold for any filter.

Paths are modelled as the bytes the operating system stores. `to_str` is
the strict UTF-8 decoder, so a path is selected exactly when it is valid
UTF-8 and its bytes start with the prefix's bytes. The model therefore works
with the real encoding rather than with an abstract "has a text form" flag.

## Model

| member | source | states |
|---|---|---|
| Bytes.FromToBigEndian | src/main.rs:50 | A length or integer field written big-endian in `width` bytes reads back as the same number |
| Bytes.ToFromBigEndian | src/main.rs:50 | Every `width`-byte field is the big-endian form of the number it holds, so reading never loses bytes |
| Utf8.DecodeEncode | src/main.rs:46 | The UTF-8 bytes of every string, as a `&str` carries them into the request, decode back to that string (empty strings, NUL and multi-byte characters included) |
| Utf8.EncodeDecode | src/main.rs:73 | Every byte string that `to_str` accepts is exactly the UTF-8 encoding of the text it returns |
| Utf8.EncodeInjective | src/main.rs:46 | Distinct strings have distinct UTF-8 bytes |
| Utf8.EncodePrefix | src/main.rs:73 | `starts_with` compares bytes, and that agrees with the character-wise prefix test in both directions |
| Utf8.EncodeAscii | src/main.rs:44 | An ASCII string's UTF-8 bytes are its character codes |
| MsgPack.DecodeEncodeValue | src/main.rs:50 | Decoding the bytes `write_value` writes for a value, followed by anything, yields that value and leaves the rest untouched |
| MsgPack.RoundTrip | src/main.rs:50 | A buffer produced by `write_value` decodes to exactly the value written |
| MsgPack.EncodeInjective | src/main.rs:50 | Different values are serialised to different buffers |
| MsgPack.WidthsAreMinimal | src/main.rs:50 | Any number that fits a field of `width` bytes gets a field no wider than that |
| MsgPack.Shortest | src/main.rs:50 | No buffer that decodes to a value is shorter than the encoder's output for it, so the encoder picks the smallest formats |
| Rpc.CommandMethodEncoding | src/main.rs:44 | The method name travels as the twelve ASCII bytes of "nvim_command" |
| Rpc.RequestValue | src/main.rs:33-48 | The value is a msgpack-rpc Request: a 4-element array of type 0, msgid 1 (below 2^32), method "nvim_command" and a one-element parameter array holding the command's UTF-8 string |
| Rpc.RequestBytes | src/main.rs:40-52 | `request`'s buffer decodes to the Request value, and a listener reads from it exactly the command given, whatever its content |
| Rpc.RequestLayout | src/main.rs:40-52 | The buffer has exactly this layout: fixarray 4, fixint 0, fixint 1, fixstr 12 "nvim_command", fixarray 1, then the command's string header and its bytes |
| Rpc.RequestPrefix | src/main.rs:41-43 | Every request buffer opens with the bytes 0x94 0x00 0x01 |
| Rpc.RequestInjective | src/main.rs:40-52 | Different commands give different request buffers |
| Dispatch.ThemeIsColorscheme | src/main.rs:58-65 | `theme --name N` behaves exactly like `exec --command "colorscheme N"`, for every listing and transport |
| Dispatch.ListenerReadsCommand | src/main.rs:58-68 | The buffer sent carries the derived command: `colorscheme N` for a theme, the text itself for exec |
| Dispatch.SelectedIff | src/main.rs:73 | A path is selected exactly when it is valid UTF-8 and its bytes start with the UTF-8 bytes of the filename prefix |
| Dispatch.JoinedSelected | src/main.rs:56-73 | The socket `<dir>/<name>` is selected by the prefix `<dir>/<tmp-prefix>` exactly when `name` starts with `tmp-prefix` |
| Dispatch.WantedPaths | src/main.rs:71-76 | A path is among the wanted paths exactly when some readable entry of the listing has that path and the filter keeps it |
| Dispatch.RunTask | src/main.rs:54-79 | A failed directory read ends the run with no attempt. Otherwise connections are tried only for paths selected by the filename prefix, in listing order. The run succeeds exactly when every entry can be read and every selected socket takes the request for the derived command |
| Dispatch.Fanout | src/main.rs:71-78 | The loop as the program runs it returns exactly the reference run, and its attempts are a prefix of the wanted paths |
| Dispatch.WantedPrefix | src/main.rs:71-76 | Connections are tried only for wanted paths, in listing order, with none skipped before the run stops |
| Dispatch.PassIff | src/main.rs:71-78 | The run succeeds exactly when every entry can be read and every wanted socket accepts the connection and the whole buffer |
| Dispatch.PassAttemptsAll | src/main.rs:71-78 | On success, every wanted socket was tried, in listing order |
| Dispatch.FailureBlame | src/main.rs:72-75 | A connect or write error names the last socket tried, which really refused that step; every socket tried before it took the buffer; the loop never reports a directory-read failure |
| Dispatch.AbortIgnoresRest | src/main.rs:71-77 | Once the run fails, whatever follows in the listing is never looked at: appending entries changes nothing |
| Dispatch.PassThenRest | src/main.rs:71-77 | When the first part of a listing goes through, the rest runs exactly as it would on its own |
| Dispatch.NothingWanted | src/main.rs:71-78 | With no wanted path and no unreadable entry, nothing is sent and the run succeeds |
| Dispatch.DefaultScenario | src/main.rs:10-15 | With the default options `/tmp` and `nvim-ec.`, the socket `/tmp/nvim-ec.…` is tried and a file beside it that does not match is skipped |
| Dispatch.RefusedScenario | src/main.rs:74 | A wanted socket that refuses the connection stops the run there, and the socket after it is never tried |

Determinism needs no lemma: every operation is a function of its inputs.
That includes the listing and the transport.

## Left out

- Command-line parsing (`src/main.rs:7-31`, `src/main.rs:55`): the parsed
  `Task` is an input. The clap defaults appear only as the constants
  `DefaultSocketsPath` and `DefaultTmpPrefix`.
- Real I/O: `fs::read_dir`, `UnixStream::connect` and `write_all` are
  replaced by the `Listing` snapshot and the `Transport` functions. Three
  further details are not modelled:
  - partial writes, since `write_all` either finishes or fails;
  - blocking;
  - closing each stream when it is dropped.
- Error values: the boxed `std::error::Error` that `main` returns is reduced
  to a `Failure` tag naming the failing step and path.
- rmpv: formats outside the uint, str and array families are not modelled.
  These are nil, booleans, negative integers, floats, binary, maps and
  extension types; neither the request nor the encoder paths it reaches
  write them.
  `Value::from(0)` and `Value::from(1)` are modelled as non-negative
  integers, which rmpv writes as positive fixints.
- RequestBytes: the `expect` on the encoder's result is replaced by a
  precondition that the command's UTF-8 form is shorter than 2^32 bytes,
  the largest string MessagePack can frame. The model does not say what the
  encoder library does with a longer string.
- Directory walking: how `read_dir` joins the directory name and an entry's
  file name into `entry.path()` is not modelled. Listings carry full paths.
  `JoinedSelected` assumes the joined path is `<dir>/<name>`, which holds
  when `sockets_path` has no trailing slash.
- Non-Unix platforms: paths are byte strings, as on Unix.
- The msgid: it is always 1 and no response is read, so matching responses
  to requests is not modelled.
