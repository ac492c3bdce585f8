/** `main`: turn the subcommand into one Vim command, serialise it once as a
    Request, then send it to every socket of the sockets directory whose path
    starts with the filename prefix, giving up at the first error. */
module Dispatch {
  import opened Wrappers
  import opened Bytes
  import Utf8
  import MsgPack
  import Rpc

  /** The two subcommands. */
  datatype Commands = Exec(command: string) | Theme(name: string)

  /** The parsed command line. */
  datatype Task = Task(socketsPath: string, tmpPrefix: string, command: Commands)

  /** Defaults of `--sockets-path` and `--tmp-prefix`. */
  const DefaultSocketsPath: string := "/tmp"
  const DefaultTmpPrefix: string := "nvim-ec."

  /** A path as the operating system stores it: bytes with no promised encoding. */
  type Path = seq<byte>

  /** One item of the directory iterator: an I/O error, or an entry's full path. */
  datatype DirEntry = Unreadable | Entry(path: Path)

  /** Opening the sockets directory: it fails, or it lists entries in order. */
  datatype Listing = ReadDirFailed | Listed(entries: seq<DirEntry>)

  /** What the operating system does when the program connects to the socket
      at a path, and when it writes a buffer there. */
  datatype Transport = Transport(connect: Path -> bool, write: (Path, seq<byte>) -> bool)

  /** The error `main` returns, tagged with the step that raised it. */
  datatype Failure = ReadDirError | EntryError | ConnectError(path: Path) | WriteError(path: Path)

  /** What a run did: the sockets it tried to connect to, in order, and how it ended. */
  datatype Report = Report(attempted: seq<Path>, outcome: Outcome<Failure>)

  /** The prefix every selected socket path starts with. */
  function FilenamePrefix(task: Task): (r: string) {
    task.socketsPath + "/" + task.tmpPrefix
  }

  /** The Vim command the subcommand stands for. */
  function CommandOf(c: Commands): (r: string) {
    match c
    case Theme(name) => "colorscheme " + name
    case Exec(command) => command
  }

  /** A path is chosen when it has a text form (it is valid UTF-8) that
      starts with the prefix. */
  predicate Selected(path: Path, prefix: string) {
    match Utf8.Decode(path)
    case None => false
    case Some(text) => prefix <= text
  }

  /** A socket took the buffer: the connection was accepted and the whole
      buffer was written. */
  predicate Delivered(io: Transport, path: Path, payload: seq<byte>) {
    io.connect(path) && io.write(path, payload)
  }

  /** Every entry of the listing could be read. */
  predicate AllReadable(entries: seq<DirEntry>) {
    forall i :: 0 <= i < |entries| ==> entries[i].Entry?
  }

  /** The paths the loop keeps, as a function value: those selected by `prefix`. */
  function SocketFilter(prefix: string): (wanted: Path -> bool)
    ensures forall p :: wanted(p) == Selected(p, prefix)
  {
    p => Selected(p, prefix)
  }

  /** The readable entries whose paths are wanted, in listing order. */
  function WantedPaths(entries: seq<DirEntry>, wanted: Path -> bool): (r: seq<Path>)
    ensures forall p :: p in r <==> exists i :: 0 <= i < |entries| && entries[i] == Entry(p) && wanted(p)
    ensures |r| <= |entries|
    decreases |entries|
  {
    if |entries| == 0 then []
    else
      var others := WantedPaths(entries[1..], wanted);
      assert forall i :: 1 <= i < |entries| ==> entries[i] == entries[1..][i - 1];
      match entries[0]
      case Entry(p) => if wanted(p) then [p] + others else others
      case Unreadable => others
  }

  /** The loop of `main`, one entry at a time: an unreadable entry aborts;
      a path that is not wanted is skipped; a wanted one is connected to,
      then written to, and either failing aborts the run. */
  function Broadcast(entries: seq<DirEntry>, wanted: Path -> bool, payload: seq<byte>, io: Transport): (r: Report)
    ensures |r.attempted| <= |entries|
    decreases |entries|
  {
    if |entries| == 0 then Report([], Pass)
    else
      match entries[0]
      case Unreadable => Report([], Fail(EntryError))
      case Entry(p) =>
        if !wanted(p) then Broadcast(entries[1..], wanted, payload, io)
        else if !io.connect(p) then Report([p], Fail(ConnectError(p)))
        else if !io.write(p, payload) then Report([p], Fail(WriteError(p)))
        else
          var r := Broadcast(entries[1..], wanted, payload, io);
          Report([p] + r.attempted, r.outcome)
  }

  /** `main` after parsing: the request is built from the derived command and
      sent to the sockets of the listing selected by the filename prefix.
      The program cannot serialise a command of 2^32 bytes or more, so
      callers must not ask for one. */
  function RunTask(task: Task, listing: Listing, io: Transport): (r: Report)
    requires |Utf8.Encode(CommandOf(task.command))| < MsgPack.MaxLength
    ensures listing.ReadDirFailed? ==> r == Report([], Fail(ReadDirError))
    ensures listing.Listed? ==>
      r == Broadcast(listing.entries, SocketFilter(FilenamePrefix(task)), Rpc.RequestBytes(CommandOf(task.command)), io)
    ensures listing.Listed? ==> r.attempted <= WantedPaths(listing.entries, SocketFilter(FilenamePrefix(task)))
    ensures listing.Listed? ==>
      (r.outcome.Pass? <==>
         (&& AllReadable(listing.entries)
          && forall p :: p in WantedPaths(listing.entries, SocketFilter(FilenamePrefix(task))) ==>
               Delivered(io, p, Rpc.RequestBytes(CommandOf(task.command)))))
  {
    var payload := Rpc.RequestBytes(CommandOf(task.command));
    var wanted := SocketFilter(FilenamePrefix(task));
    match listing
    case ReadDirFailed => Report([], Fail(ReadDirError))
    case Listed(entries) =>
      WantedPrefix(entries, wanted, payload, io);
      PassIff(entries, wanted, payload, io);
      Broadcast(entries, wanted, payload, io)
  }

  /** The loop written as the program runs it: walks the listing once,
      collecting the sockets it tries, and returns at the first error. */
  method Fanout(entries: seq<DirEntry>, wanted: Path -> bool, payload: seq<byte>, io: Transport) returns (r: Report)
    ensures r == Broadcast(entries, wanted, payload, io)
    ensures r.attempted <= WantedPaths(entries, wanted)
  {
    WantedPrefix(entries, wanted, payload, io);
    var attempted: seq<Path> := [];
    var i := 0;
    while i < |entries|
      invariant 0 <= i <= |entries|
      invariant Broadcast(entries, wanted, payload, io) == After(attempted, Broadcast(entries[i..], wanted, payload, io))
    {
      BroadcastStep(entries, i, wanted, payload, io);
      match entries[i]
      case Unreadable =>
        r := Report(attempted, Fail(EntryError));
        return;
      case Entry(p) =>
        if wanted(p) {
          if !io.connect(p) {
            r := Report(attempted + [p], Fail(ConnectError(p)));
            return;
          }
          if !io.write(p, payload) {
            r := Report(attempted + [p], Fail(WriteError(p)));
            return;
          }
          AfterAfter(attempted, [p], Broadcast(entries[i + 1..], wanted, payload, io));
          attempted := attempted + [p];
        }
      i := i + 1;
    }
    assert entries[i..] == [];
    r := Report(attempted, Pass);
  }

  /** A run that first tried `earlier` and then went on as `rest`. */
  function After(earlier: seq<Path>, rest: Report): (r: Report)
    ensures r.outcome == rest.outcome && |r.attempted| == |earlier| + |rest.attempted|
  {
    Report(earlier + rest.attempted, rest.outcome)
  }

  lemma AfterAfter(a: seq<Path>, b: seq<Path>, rest: Report)
    ensures After(a, After(b, rest)) == After(a + b, rest)
  {
    assert a + (b + rest.attempted) == a + b + rest.attempted;
  }

  /** The run from entry `i` on, in terms of the run from entry `i + 1` on. */
  lemma BroadcastStep(entries: seq<DirEntry>, i: nat, wanted: Path -> bool, payload: seq<byte>, io: Transport)
    requires i < |entries|
    ensures var here, next := Broadcast(entries[i..], wanted, payload, io), Broadcast(entries[i + 1..], wanted, payload, io);
      match entries[i]
      case Unreadable => here == Report([], Fail(EntryError))
      case Entry(p) =>
        if !wanted(p) then here == next
        else if !io.connect(p) then here == Report([p], Fail(ConnectError(p)))
        else if !io.write(p, payload) then here == Report([p], Fail(WriteError(p)))
        else here == After([p], next)
  {
    assert entries[i..][0] == entries[i] && entries[i..][1..] == entries[i + 1..];
  }

  /** Sockets are tried only for wanted entries, in listing order: the
      attempts are a prefix of the wanted paths. */
  lemma {:induction false} WantedPrefix(entries: seq<DirEntry>, wanted: Path -> bool, payload: seq<byte>, io: Transport)
    ensures Broadcast(entries, wanted, payload, io).attempted <= WantedPaths(entries, wanted)
    decreases |entries|
  {
    if |entries| > 0 {
      WantedPrefix(entries[1..], wanted, payload, io);
    }
  }

  lemma ReadableCons(entries: seq<DirEntry>)
    requires |entries| > 0
    ensures AllReadable(entries) <==> entries[0].Entry? && AllReadable(entries[1..])
  {
    assert forall i :: 1 <= i < |entries| ==> entries[i] == entries[1..][i - 1];
  }

  /** The run succeeds exactly when every entry could be read and every
      wanted socket took the buffer. */
  lemma {:induction false} PassIff(entries: seq<DirEntry>, wanted: Path -> bool, payload: seq<byte>, io: Transport)
    ensures Broadcast(entries, wanted, payload, io).outcome.Pass?
      <==> AllReadable(entries) && forall p :: p in WantedPaths(entries, wanted) ==> Delivered(io, p, payload)
    decreases |entries|
  {
    if |entries| > 0 {
      ReadableCons(entries);
      PassIff(entries[1..], wanted, payload, io);
      var rest := WantedPaths(entries[1..], wanted);
      match entries[0]
      case Unreadable =>
      case Entry(p) =>
        if wanted(p) {
          assert WantedPaths(entries, wanted) == [p] + rest;
          assert forall q :: q in [p] + rest <==> q == p || q in rest;
        } else {
          assert WantedPaths(entries, wanted) == rest;
        }
    }
  }

  /** On success every wanted socket was tried, in listing order. */
  lemma {:induction false} PassAttemptsAll(entries: seq<DirEntry>, wanted: Path -> bool, payload: seq<byte>, io: Transport)
    requires Broadcast(entries, wanted, payload, io).outcome.Pass?
    ensures Broadcast(entries, wanted, payload, io).attempted == WantedPaths(entries, wanted)
    decreases |entries|
  {
    if |entries| > 0 {
      PassAttemptsAll(entries[1..], wanted, payload, io);
    }
  }

  /** Who is to blame for a failure: a connect or write error names the last
      socket tried, which indeed refused the connection or the buffer; every
      socket tried before it took the buffer. */
  lemma {:induction false} FailureBlame(entries: seq<DirEntry>, wanted: Path -> bool, payload: seq<byte>, io: Transport)
    ensures var r := Broadcast(entries, wanted, payload, io);
      && r.outcome != Fail(ReadDirError)
      && (forall k :: 0 <= k < |r.attempted| - 1 ==> Delivered(io, r.attempted[k], payload))
      && (r.outcome == Fail(EntryError) ==> forall k :: 0 <= k < |r.attempted| ==> Delivered(io, r.attempted[k], payload))
      && (r.outcome.Fail? && r.outcome.error.ConnectError? ==>
            |r.attempted| > 0 && r.outcome.error.path == r.attempted[|r.attempted| - 1] && !io.connect(r.outcome.error.path))
      && (r.outcome.Fail? && r.outcome.error.WriteError? ==>
            |r.attempted| > 0 && r.outcome.error.path == r.attempted[|r.attempted| - 1]
            && io.connect(r.outcome.error.path) && !io.write(r.outcome.error.path, payload))
    decreases |entries|
  {
    if |entries| > 0 && entries[0].Entry? {
      FailureBlame(entries[1..], wanted, payload, io);
    }
  }

  /** The first failure ends the run: whatever follows in the listing is
      never looked at. */
  lemma {:induction false} AbortIgnoresRest(a: seq<DirEntry>, b: seq<DirEntry>, wanted: Path -> bool, payload: seq<byte>, io: Transport)
    requires Broadcast(a, wanted, payload, io).outcome.Fail?
    ensures Broadcast(a + b, wanted, payload, io) == Broadcast(a, wanted, payload, io)
    decreases |a|
  {
    assert |a| > 0;
    assert (a + b)[0] == a[0] && (a + b)[1..] == a[1..] + b;
    if a[0].Entry? && !wanted(a[0].path) {
      AbortIgnoresRest(a[1..], b, wanted, payload, io);
    } else if a[0].Entry? && Delivered(io, a[0].path, payload) {
      AbortIgnoresRest(a[1..], b, wanted, payload, io);
    }
  }

  /** A listing read in two parts: when the first part goes through, the
      second runs exactly as it would on its own. */
  lemma {:induction false} PassThenRest(a: seq<DirEntry>, b: seq<DirEntry>, wanted: Path -> bool, payload: seq<byte>, io: Transport)
    requires Broadcast(a, wanted, payload, io).outcome.Pass?
    ensures Broadcast(a + b, wanted, payload, io)
      == After(Broadcast(a, wanted, payload, io).attempted, Broadcast(b, wanted, payload, io))
    decreases |a|
  {
    if |a| == 0 {
      assert a + b == b;
    } else {
      assert (a + b)[0] == a[0] && (a + b)[1..] == a[1..] + b;
      PassThenRest(a[1..], b, wanted, payload, io);
    }
  }

  /** When no entry is wanted and all can be read, nothing is sent and the run succeeds. */
  lemma NothingWanted(entries: seq<DirEntry>, wanted: Path -> bool, payload: seq<byte>, io: Transport)
    requires AllReadable(entries) && WantedPaths(entries, wanted) == []
    ensures Broadcast(entries, wanted, payload, io) == Report([], Pass)
  {
    WantedPrefix(entries, wanted, payload, io);
    PassIff(entries, wanted, payload, io);
  }

  /** Rust's `starts_with` on text compares bytes; selection therefore holds
      exactly when the path is valid UTF-8 and its bytes start with the
      prefix's bytes. */
  lemma SelectedIff(path: Path, prefix: string)
    ensures Selected(path, prefix) <==> Utf8.Valid(path) && Utf8.Encode(prefix) <= path
  {
    if Utf8.Valid(path) {
      var text := Utf8.Decode(path).value;
      Utf8.EncodeDecode(path);
      Utf8.EncodePrefix(prefix, text);
    }
  }

  /** A socket named `name` in the sockets directory `dir` is selected
      exactly when its name starts with the socket name prefix. */
  lemma JoinedSelected(dir: string, tmpPrefix: string, name: string)
    ensures Selected(Utf8.Encode(dir + "/" + name), dir + "/" + tmpPrefix) <==> tmpPrefix <= name
  {
    Utf8.DecodeEncode(dir + "/" + name);
    var head := dir + "/";
    assert dir + "/" + name == head + name && dir + "/" + tmpPrefix == head + tmpPrefix;
    PrefixAfterCommonHead(head, tmpPrefix, name);
  }

  lemma PrefixAfterCommonHead(head: string, p: string, s: string)
    ensures head + p <= head + s <==> p <= s
  {
    if head + p <= head + s {
      assert forall k :: 0 <= k < |p| ==> p[k] == (head + p)[|head| + k] == (head + s)[|head| + k] == s[k];
    }
  }

  /** `Theme { name }` does exactly what `Exec { command: "colorscheme " + name }` does. */
  lemma ThemeIsColorscheme(dir: string, tmpPrefix: string, name: string, listing: Listing, io: Transport)
    requires |Utf8.Encode("colorscheme " + name)| < MsgPack.MaxLength
    ensures RunTask(Task(dir, tmpPrefix, Theme(name)), listing, io)
      == RunTask(Task(dir, tmpPrefix, Exec("colorscheme " + name)), listing, io)
  {
  }

  /** A listener decodes from the request built for the derived command
      exactly that command: the `colorscheme` line for a theme, the text
      itself for `exec`. */
  lemma ListenerReadsCommand(c: Commands)
    requires |Utf8.Encode(CommandOf(c))| < MsgPack.MaxLength
    ensures c.Theme? ==> Rpc.DecodeCommand(Rpc.RequestBytes(CommandOf(c))) == Some("colorscheme " + c.name)
    ensures c.Exec? ==> Rpc.DecodeCommand(Rpc.RequestBytes(CommandOf(c))) == Some(c.command)
  {
  }

  /** With the default options, a socket whose name starts with "nvim-ec."
      is tried and a file beside it whose name does not is skipped. */
  lemma DefaultScenario(command: string, nvimName: string, otherName: string, io: Transport)
    requires |Utf8.Encode(command)| < MsgPack.MaxLength
    requires DefaultTmpPrefix <= nvimName && !(DefaultTmpPrefix <= otherName)
    requires forall p :: io.connect(p) && io.write(p, Rpc.RequestBytes(command))
    ensures var nvim := Utf8.Encode(DefaultSocketsPath + "/" + nvimName);
      var other := Utf8.Encode(DefaultSocketsPath + "/" + otherName);
      RunTask(Task(DefaultSocketsPath, DefaultTmpPrefix, Exec(command)), Listed([Entry(other), Entry(nvim)]), io)
        == Report([nvim], Pass)
  {
    var task := Task(DefaultSocketsPath, DefaultTmpPrefix, Exec(command));
    var wanted := SocketFilter(FilenamePrefix(task));
    var nvim := Utf8.Encode(DefaultSocketsPath + "/" + nvimName);
    var other := Utf8.Encode(DefaultSocketsPath + "/" + otherName);
    JoinedSelected(DefaultSocketsPath, DefaultTmpPrefix, nvimName);
    JoinedSelected(DefaultSocketsPath, DefaultTmpPrefix, otherName);
    assert wanted(nvim) && !wanted(other);
    SkipThenDeliver(other, nvim, wanted, Rpc.RequestBytes(command), io);
  }

  /** An unwanted entry followed by a wanted socket that takes the buffer. */
  lemma SkipThenDeliver(other: Path, nvim: Path, wanted: Path -> bool, payload: seq<byte>, io: Transport)
    requires !wanted(other) && wanted(nvim) && Delivered(io, nvim, payload)
    ensures Broadcast([Entry(other), Entry(nvim)], wanted, payload, io) == Report([nvim], Pass)
  {
    var entries := [Entry(other), Entry(nvim)];
    assert entries[1..] == [Entry(nvim)] && entries[1..][1..] == [];
    assert Broadcast([], wanted, payload, io) == Report([], Pass);
    assert Broadcast([Entry(nvim)], wanted, payload, io) == Report([nvim], Pass);
  }

  /** A socket that refuses the connection stops the run there: the socket
      after it is never tried. */
  lemma RefusedScenario(first: Path, second: Path, wanted: Path -> bool, payload: seq<byte>, io: Transport)
    requires wanted(first) && !io.connect(first)
    ensures Broadcast([Entry(first), Entry(second)], wanted, payload, io) == Report([first], Fail(ConnectError(first)))
  {
  }
}
