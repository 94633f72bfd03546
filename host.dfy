/** The host the tool acts on, reduced to what the decision logic can observe:
    a process runner whose replies come from an oracle and which records every
    command line it was asked to run, and a file system that records every
    write and unlink. Errors and exits are values. */
module Host {
  import opened Text

  /** What `run_command` hands back: exit status and captured output. */
  datatype CmdResult = CmdResult(returnCode: int, stdout: string, stderr: string)

  /** Exceptions the tool raises or lets escape. */
  datatype Error =
    | UdevError(message: string)
    | InterfaceError(message: string)
    | NetworkError(message: string)
    | NotImplementedError(message: string)
    | ValueError(message: string)
    | IndexError(message: string)
    | KeyError(key: string)
    | FileNotFoundError(path: string)
    | AttributeError(message: string)

  /** How a command ends: by returning, through `sys.exit`, or by raising. */
  datatype Outcome = Done | Exit(code: int) | Raise(error: Error)

  /** The process runner. `reply(k, argv)` is the result of the command issued
      as the k-th one (counting from 0) with argument list `argv`; since the
      reply may depend on the position, any deterministic host is described.
      `trace` lists every argument list issued so far. */
  class Runner {
    var trace: seq<seq<string>>
    const reply: (nat, seq<string>) -> CmdResult

    constructor (reply: (nat, seq<string>) -> CmdResult)
      ensures trace == [] && this.reply == reply
    {
      trace := [];
      this.reply := reply;
    }

    method Run(argv: seq<string>) returns (r: CmdResult)
      modifies this
      ensures trace == old(trace) + [argv]
      ensures r == reply(|old(trace)|, argv)
    {
      r := reply(|trace|, argv);
      trace := trace + [argv];
    }
  }

  /** A recorded file-system operation. */
  datatype FsOp = Wrote(path: string) | Unlinked(path: string)

  /** Regular files by path, and the log of writes and unlink attempts. */
  class FileSystem {
    var files: map<string, string>
    var log: seq<FsOp>

    constructor (files: map<string, string>)
      ensures this.files == files && log == []
    {
      this.files := files;
      log := [];
    }

    /** `open(path, 'w').write(content)`. */
    method Write(path: string, content: string)
      modifies this
      ensures files == old(files)[path := content]
      ensures log == old(log) + [Wrote(path)]
    {
      files := files[path := content];
      log := log + [Wrote(path)];
    }

    /** `os.unlink(path)`; `existed` is false where Python raises `OSError`. */
    method Unlink(path: string) returns (existed: bool)
      modifies this
      ensures existed == (path in old(files))
      ensures files == old(files) - {path}
      ensures log == old(log) + [Unlinked(path)]
    {
      existed := path in files;
      files := files - {path};
      log := log + [Unlinked(path)];
    }
  }

  /** `os.path.join(a, b)` on POSIX paths. */
  function PathJoin(a: string, b: string): (r: string)
    ensures EndsWith(r, b)
  {
    if StartsWith(b, "/") then b
    else if a == "" || EndsWith(a, "/") then a + b
    else a + "/" + b
  }

}
