/** `crucible/network/sysconfig.py`: the sysconfig family of network
    managers. `Sysconfig` rewrites the static DNS lines of
    `/etc/sysconfig/network/config`; `Wicked` writes `ifcfg-`/`ifroute-`
    files, removes them and reloads interfaces with `wicked`. */
module Sysconfig {
  import opened Wrappers
  import opened Text
  import opened Host

  const SYSCONFIG_NAME := "sysconfig"
  const INSTALL_LOCATION := "/etc/" + SYSCONFIG_NAME + "/network"
  const DNS_KEY := "NETCONFIG_DNS_STATIC_SERVERS="
  const SEARCH_KEY := "NETCONFIG_DNS_STATIC_SEARCHLIST="
  const NETCONFIG_ARGV: seq<string> := ["netconfig", "update", "-f"]
  const NANNY_ARGV: seq<string> := ["systemctl", "restart", "wickedd-nanny"]

  /** `os.path.join(install_location, 'config')`. */
  function ConfigPath(): string {
    PathJoin(INSTALL_LOCATION, "config")
  }

  // ---------------------------------------------------------------------
  // One line: re.sub(r'(^KEY)["\'].*["\']', r'\g<1>"VALUE"', line)

  predicate IsQuote(c: char) {
    c == '"' || c == '\''
  }

  /** Where `.` stops matching from `from`: the first newline, or the end. */
  function LineEnd(s: string, from: nat): (e: nat)
    requires from <= |s|
    ensures from <= e <= |s|
    ensures forall m :: from <= m < e ==> s[m] != '\n'
    ensures e < |s| ==> s[e] == '\n'
    decreases |s| - from
  {
    if from == |s| || s[from] == '\n' then from else LineEnd(s, from + 1)
  }

  /** The last quote in `s[from..end]`. */
  function LastQuote(s: string, from: nat, end: nat): (r: Option<nat>)
    requires from <= end <= |s|
    ensures r.Some? ==> from <= r.value < end && IsQuote(s[r.value])
    ensures r.Some? ==> forall m :: r.value < m < end ==> !IsQuote(s[m])
    ensures r.None? ==> forall m :: from <= m < end ==> !IsQuote(s[m])
    decreases end - from
  {
    if end == from then None
    else if IsQuote(s[end - 1]) then Some(end - 1)
    else LastQuote(s, from, end - 1)
  }

  /** Where the match of `(^KEY)["'].*["']` ends in `line`: the key at the
      start, a quote, then as much as possible up to the last quote before
      the first newline. */
  function MatchEnd(line: string, key: string): (r: Option<nat>)
    ensures r.Some? ==> |key| + 2 <= r.value <= |line|
  {
    if StartsWith(line, key) && |key| < |line| && IsQuote(line[|key|]) then
      match LastQuote(line, |key| + 1, LineEnd(line, |key| + 1))
      case Some(j) => Some(j + 1)
      case None => None
    else None
  }

  /** The substitution on one line when the replacement is valid: the match
      becomes `KEY"value"`, and what follows it is kept. */
  function Rewritten(line: string, key: string, value: string): string {
    match MatchEnd(line, key)
    case Some(e) => key + "\"" + value + "\"" + line[e..]
    case None => line
  }

  /** The replacement text of a value: itself when it holds no backslash;
      otherwise `escapes` says what Python's template expansion makes of it,
      `None` where that raises `re.error`. */
  function Template(value: string, escapes: string -> Option<string>): Option<string> {
    if '\\' in value then escapes(value) else Some(value)
  }

  /** One line of the rewrite: an invalid replacement keeps the line. */
  function RewriteLine(line: string, key: string, template: Option<string>): string {
    if template.Some? then Rewritten(line, key, template.value) else line
  }

  /** The rewritten file content, line by line. */
  function UpdatedLines(lines: seq<string>, key: string, template: Option<string>): (r: seq<string>)
    ensures |r| == |lines|
  {
    seq(|lines|, i requires 0 <= i < |lines| => RewriteLine(lines[i], key, template))
  }

  /** A `KEY` line whose value is quoted (with either quote, possibly other
      quotes inside) and followed by no quote on that line is rewritten to
      `KEY"value"` followed by what came after the closing quote. */
  lemma RewriteQuoted(line: string, key: string, value: string, q1: char, mid: string, q2: char, rest: string)
    requires line == key + [q1] + mid + [q2] + rest
    requires IsQuote(q1) && IsQuote(q2) && '\n' !in mid
    requires forall m :: 0 <= m < LineEnd(rest, 0) ==> !IsQuote(rest[m])
    ensures Rewritten(line, key, value) == key + "\"" + value + "\"" + rest
  {
    QuotedMatchEnd(line, key, q1, mid, q2, rest);
  }

  /** The match of such a line ends just after its closing quote. */
  lemma QuotedMatchEnd(line: string, key: string, q1: char, mid: string, q2: char, rest: string)
    requires line == key + [q1] + mid + [q2] + rest
    requires IsQuote(q1) && IsQuote(q2) && '\n' !in mid
    requires forall m :: 0 <= m < LineEnd(rest, 0) ==> !IsQuote(rest[m])
    ensures MatchEnd(line, key) == Some(|key| + |mid| + 2)
    ensures line[|key| + |mid| + 2..] == rest
  {
    var a, b := |key| + 1, |key| + 1 + |mid|;
    assert line[..|key|] == key;
    assert line[|key|] == q1 && line[b] == q2;
    assert forall m :: a <= m < b ==> line[m] == mid[m - a];
    assert forall m :: a <= m < b + 1 ==> line[m] != '\n';
    assert line[b + 1..] == rest;
    LineEndPast(line, a, b, rest);
    var e := LineEnd(line, a);
    assert forall m :: b < m < e ==> line[m] == rest[m - b - 1];
    LastQuoteAt(line, a, e, b);
  }

  /** A quote with no quote after it before `end` is the last one. */
  lemma LastQuoteAt(s: string, from: nat, end: nat, b: nat)
    requires from <= b < end <= |s| && IsQuote(s[b])
    requires forall m :: b < m < end ==> !IsQuote(s[m])
    ensures LastQuote(s, from, end) == Some(b)
  {
  }

  /** No newline in `s[from..k]` puts the end of the line at `k` or later. */
  lemma NoNewlineBefore(s: string, from: nat, k: nat)
    requires from <= k <= |s|
    requires forall m :: from <= m < k ==> s[m] != '\n'
    ensures k <= LineEnd(s, from)
  {
  }

  /** A newline at `k` ends the line at `k` or earlier. */
  lemma NewlineAt(s: string, from: nat, k: nat)
    requires from <= k < |s| && s[k] == '\n'
    ensures LineEnd(s, from) <= k
  {
  }

  /** Past a stretch without newlines, the line ends where the rest's first
      line ends. */
  lemma LineEndPast(line: string, a: nat, b: nat, rest: string)
    requires a <= b < |line| && line[b + 1..] == rest
    requires forall m :: a <= m < b + 1 ==> line[m] != '\n'
    ensures LineEnd(line, a) == b + 1 + LineEnd(rest, 0)
  {
    NoNewlineBefore(line, a, b + 1);
    var e, k := LineEnd(line, a), LineEnd(rest, 0);
    if b + 1 + k < |line| {
      assert line[b + 1 + k] == rest[k];
      NewlineAt(line, a, b + 1 + k);
    }
    assert forall m :: 0 <= m < e - b - 1 ==> rest[m] == line[m + b + 1];
    NoNewlineBefore(rest, 0, e - b - 1);
  }

  /** What follows a match has no quote before its first newline. */
  lemma AfterMatch(line: string, key: string)
    requires MatchEnd(line, key).Some?
    ensures var rest := line[MatchEnd(line, key).value..];
      forall m :: 0 <= m < LineEnd(rest, 0) ==> !IsQuote(rest[m])
  {
    var e := MatchEnd(line, key).value;
    var end := LineEnd(line, |key| + 1);
    var rest := line[e..];
    assert e <= end;
    if end < |line| {
      assert rest[end - e] == line[end];
      NewlineAt(rest, 0, end - e);
    }
    forall m | 0 <= m < LineEnd(rest, 0) ensures !IsQuote(rest[m]) {
      assert rest[m] == line[e + m];
    }
  }

  /** Rewriting a line twice with a value without newlines gives the same
      line as rewriting it once: the rewritten value is itself quoted. */
  lemma RewriteIdempotent(line: string, key: string, value: string)
    requires '\n' !in value
    ensures Rewritten(Rewritten(line, key, value), key, value) == Rewritten(line, key, value)
  {
    var m := MatchEnd(line, key);
    if m.Some? {
      var rest := line[m.value..];
      AfterMatch(line, key);
      assert key + "\"" + value + "\"" + rest == key + ['"'] + value + ['"'] + rest;
      RewriteQuoted(key + ['"'] + value + ['"'] + rest, key, value, '"', value, '"', rest);
    }
  }

  /** Only lines that start with the key change. */
  lemma OtherLinesKept(line: string, key: string, template: Option<string>)
    requires !StartsWith(line, key)
    ensures RewriteLine(line, key, template) == line
  {
  }

  /** Neither key starts the other's lines: updating the servers leaves the
      search list alone, and the other way round. */
  lemma KeysSeparate(line: string)
    ensures StartsWith(line, DNS_KEY) ==> !StartsWith(line, SEARCH_KEY)
  {
    assert DNS_KEY[23] != SEARCH_KEY[23];
    assert StartsWith(line, DNS_KEY) ==> line[23] == DNS_KEY[23];
    assert StartsWith(line, SEARCH_KEY) ==> line[23] == SEARCH_KEY[23];
  }

  /** A `KEY"prior"` line as read from the file, ending in a newline, becomes
      `KEY"value"` and keeps its newline. */
  lemma RewriteReadLine(key: string, prior: string, value: string)
    requires '\n' !in prior
    ensures Rewritten(key + "\"" + prior + "\"\n", key, value) == key + "\"" + value + "\"\n"
  {
    assert key + "\"" + prior + "\"\n" == key + ['"'] + prior + ['"'] + "\n";
    assert LineEnd("\n", 0) == 0;
    RewriteQuoted(key + ['"'] + prior + ['"'] + "\n", key, value, '"', prior, '"', "\n");
  }

  /** A configuration holding a quoted servers line and a search line:
      the servers line gets the new value, the search line is kept. */
  lemma ServersLineUpdated(prior: string, searchLine: string, value: string)
    requires '\n' !in prior
    requires StartsWith(searchLine, SEARCH_KEY)
    ensures UpdatedLines([DNS_KEY + "\"" + prior + "\"\n", searchLine], DNS_KEY, Some(value))
      == [DNS_KEY + "\"" + value + "\"\n", searchLine]
  {
    RewriteReadLine(DNS_KEY, prior, value);
    KeysSeparate(searchLine);
    OtherLinesKept(searchLine, DNS_KEY, Some(value));
  }

  /** The servers `8.8.8.8` and `8.8.4.4` of the tests become the value
      `8.8.8.8 8.8.4.4`, which needs no template expansion. */
  lemma FixtureDnsValue(escapes: string -> Option<string>)
    ensures Template(Join(" ", ["8.8.8.8", "8.8.4.4"]), escapes) == Some("8.8.8.8 8.8.4.4")
  {
    var value := Join(" ", ["8.8.8.8", "8.8.4.4"]);
    assert value == "8.8.8.8 8.8.4.4" by {
      assert ["8.8.8.8", "8.8.4.4"][1..] == ["8.8.4.4"];
    }
    assert '\\' !in value;
  }

  // ---------------------------------------------------------------------
  // update_dns / update_search

  /** The loop of `update_dns`: each line through the substitution, or kept
      when the substitution raises. */
  method RewriteLines(lines: seq<string>, key: string, template: Option<string>) returns (newContent: seq<string>)
    ensures newContent == UpdatedLines(lines, key, template)
  {
    newContent := [];
    for i := 0 to |lines|
      invariant |newContent| == i
      invariant forall m :: 0 <= m < i ==> newContent[m] == RewriteLine(lines[m], key, template)
    {
      if template.Some? {
        newContent := newContent + [Rewritten(lines[i], key, template.value)];
      } else {
        newContent := newContent + [lines[i]];
      }
    }
  }

  /** `update_dns` and `update_search` on `key` with the list `items`: read
      the config file (`FileNotFoundError` when it is missing, before
      anything happens), rewrite its lines with the items joined by single
      spaces, write it back, then run `netconfig update -f` once. */
  method UpdateConfig(key: string, items: seq<string>, escapes: string -> Option<string>,
                      runner: Runner, fs: FileSystem) returns (outcome: Outcome)
    modifies runner, fs
    ensures ConfigPath() !in old(fs.files) ==>
      && outcome == Raise(FileNotFoundError(ConfigPath()))
      && fs.files == old(fs.files) && fs.log == old(fs.log) && runner.trace == old(runner.trace)
    ensures ConfigPath() in old(fs.files) ==>
      && outcome == Done
      && fs.files == old(fs.files)[ConfigPath() :=
           Concat(UpdatedLines(ReadLines(ReadText(old(fs.files)[ConfigPath()])), key, Template(Join(" ", items), escapes)))]
      && fs.log == old(fs.log) + [Wrote(ConfigPath())]
      && runner.trace == old(runner.trace) + [NETCONFIG_ARGV]
  {
    var configPath := ConfigPath();
    if configPath !in fs.files {
      return Raise(FileNotFoundError(configPath));
    }
    var content := ReadLines(ReadText(fs.files[configPath]));
    var newContent := RewriteLines(content, key, Template(Join(" ", items), escapes));
    fs.Write(configPath, Concat(newContent));
    var _ := runner.Run(NETCONFIG_ARGV);
    outcome := Done;
  }

  /** When the replacement is invalid the file is written back as it was
      read: unchanged but for its line ends, which become '\n'; a file
      without '\r' is written back unchanged. */
  lemma InvalidTemplateKeepsFile(content: string, key: string)
    ensures Concat(UpdatedLines(ReadLines(ReadText(content)), key, None)) == ReadText(content)
    ensures '\r' !in content ==> Concat(UpdatedLines(ReadLines(ReadText(content)), key, None)) == content
  {
    var lines := ReadLines(ReadText(content));
    assert UpdatedLines(lines, key, None) == lines;
    ConcatReadLines(ReadText(content));
    if '\r' !in content {
      ReadTextWithoutCarriageReturn(content);
    }
  }

  // ---------------------------------------------------------------------
  // Wicked

  /** The commands of `reload_interface`: `wicked ifreload`, `ip l show`,
      and the nanny restart when the show failed or `force` holds. */
  function ReloadCalls(name: string, force: bool, showCode: int): seq<seq<string>> {
    [["wicked", "ifreload", name], ["ip", "l", "show", name]] + (if showCode != 0 || force then [NANNY_ARGV] else [])
  }

  /** `Wicked.reload_interface`. */
  method WickedReload(name: string, force: bool, runner: Runner)
    modifies runner
    ensures var showCode := runner.reply(|old(runner.trace)| + 1, ["ip", "l", "show", name]).returnCode;
      runner.trace == old(runner.trace) + ReloadCalls(name, force, showCode)
  {
    var _ := runner.Run(["wicked", "ifreload", name]);
    var result := runner.Run(["ip", "l", "show", name]);
    if result.returnCode != 0 || force {
      var _ := runner.Run(NANNY_ARGV);
    }
  }

  /** The nanny is restarted exactly when the show failed or the reload was
      forced, and always after the reload and the show. */
  lemma ReloadRestartsNanny(name: string, force: bool, showCode: int)
    ensures var calls := ReloadCalls(name, force, showCode);
      && calls[..2] == [["wicked", "ifreload", name], ["ip", "l", "show", name]]
      && (NANNY_ARGV in calls <==> showCode != 0 || force)
  {
    var calls := ReloadCalls(name, force, showCode);
    assert NANNY_ARGV[0] != "wicked" && NANNY_ARGV[0] != "ip";
    assert showCode == 0 && !force ==> calls == [["wicked", "ifreload", name], ["ip", "l", "show", name]];
  }

  /** `<install_location>/<kind>-<name>`. */
  function InterfaceFile(kind: string, name: string): string {
    PathJoin(INSTALL_LOCATION, kind + "-" + name)
  }

  /** The two files of an interface are different files. */
  lemma InterfaceFilesDiffer(name: string)
    ensures InterfaceFile("ifcfg", name) != InterfaceFile("ifroute", name)
  {
    var a, b := "ifcfg" + "-" + name, "ifroute" + "-" + name;
    assert !StartsWith(a, "/") by { assert a[0] == 'i'; }
    assert !StartsWith(b, "/") by { assert b[0] == 'i'; }
    assert !EndsWith(INSTALL_LOCATION, "/") by {
      assert INSTALL_LOCATION[|INSTALL_LOCATION| - 1] == 'k';
    }
    var p := INSTALL_LOCATION + "/";
    assert InterfaceFile("ifcfg", name) == p + a && InterfaceFile("ifroute", name) == p + b;
    assert (p + a)[|p| + 3] == 'f' && (p + b)[|p| + 3] == 'o';
  }

  /** `Wicked.remove_config`: unlink `ifcfg-<name>`, then `ifroute-<name>`
      (a missing file is only logged), then reload, forced whenever the name
      is not empty. */
  method WickedRemove(name: string, runner: Runner, fs: FileSystem)
    modifies runner, fs
    ensures fs.files == old(fs.files) - {InterfaceFile("ifcfg", name), InterfaceFile("ifroute", name)}
    ensures fs.log == old(fs.log) + [Unlinked(InterfaceFile("ifcfg", name)), Unlinked(InterfaceFile("ifroute", name))]
    ensures var showCode := runner.reply(|old(runner.trace)| + 1, ["ip", "l", "show", name]).returnCode;
      runner.trace == old(runner.trace) + ReloadCalls(name, name != "", showCode)
  {
    var ifcfg, ifroute := InterfaceFile("ifcfg", name), InterfaceFile("ifroute", name);
    RemoveFiles(ifcfg, ifroute, fs);
    assert runner.trace == old(runner.trace);
    WickedReload(name, name != "", runner);
    assert fs.files == old(fs.files) - {ifcfg, ifroute};
    assert fs.log == old(fs.log) + [Unlinked(ifcfg), Unlinked(ifroute)];
  }

  /** Unlink two files in turn; a missing one is only logged. */
  method RemoveFiles(first: string, second: string, fs: FileSystem)
    modifies fs
    ensures fs.files == old(fs.files) - {first, second}
    ensures fs.log == old(fs.log) + [Unlinked(first), Unlinked(second)]
  {
    var _ := fs.Unlink(first);
    var _ := fs.Unlink(second);
    assert fs.files == old(fs.files) - {first} - {second};
  }

  /** The answer to `overwrite or quit?`, from `click.Choice(['o', 'q'])`. */
  datatype Answer = OverwriteFile | QuitWriting

  /** One turn of `write_config`'s loop: an existing file asks; `q` exits
      with 0 before this file is written; otherwise the rendered template is
      written. */
  method WriteInterfaceFile(kind: string, name: string, render: string -> string, answer: string -> Answer,
                            fs: FileSystem) returns (quit: bool)
    modifies fs
    ensures var path := InterfaceFile(kind, name);
      quit == (path in old(fs.files) && answer(kind) == QuitWriting)
    ensures quit ==> fs.files == old(fs.files) && fs.log == old(fs.log)
    ensures !quit ==>
      var path := InterfaceFile(kind, name);
      fs.files == old(fs.files)[path := render(kind)] && fs.log == old(fs.log) + [Wrote(path)]
  {
    var configPath := InterfaceFile(kind, name);
    if configPath in fs.files {
      if answer(kind) == QuitWriting {
        return true;
      }
    }
    fs.Write(configPath, render(kind));
    quit := false;
  }

  /** `Wicked.write_config`: `ifcfg`, then `ifroute`. Quitting at `ifroute`
      leaves `ifcfg` written. `render` is the template text of each kind. */
  method WickedWrite(name: string, render: string -> string, answer: string -> Answer, fs: FileSystem)
    returns (outcome: Outcome)
    modifies fs
    ensures var ifcfg, ifroute := InterfaceFile("ifcfg", name), InterfaceFile("ifroute", name);
      if ifcfg in old(fs.files) && answer("ifcfg") == QuitWriting then
        outcome == Exit(0) && fs.files == old(fs.files) && fs.log == old(fs.log)
      else if ifroute in old(fs.files) && answer("ifroute") == QuitWriting then
        && outcome == Exit(0)
        && fs.files == old(fs.files)[ifcfg := render("ifcfg")]
        && fs.log == old(fs.log) + [Wrote(ifcfg)]
      else
        && outcome == Done
        && fs.files == old(fs.files)[ifcfg := render("ifcfg")][ifroute := render("ifroute")]
        && fs.log == old(fs.log) + [Wrote(ifcfg), Wrote(ifroute)]
  {
    InterfaceFilesDiffer(name);
    var quit := WriteInterfaceFile("ifcfg", name, render, answer, fs);
    if quit {
      return Exit(0);
    }
    quit := WriteInterfaceFile("ifroute", name, render, answer, fs);
    if quit {
      return Exit(0);
    }
    outcome := Done;
  }
}
