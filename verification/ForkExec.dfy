// The argument vector of `apollo forkexec`: containerMERCURY.Exec builds it
// (apollo/container_mercury.go), cmdForkExec takes it apart (apollo/main_forkexec.go).
module ForkExec {
  import opened Wrappers

  type Args = seq<string>

  // The variables of the section parser.
  datatype Parser =
    | Parser(section: string, env: Args, cmd: Args, cwd: Option<string>)
    | InvalidSection(section: string)

  const START := Parser("", [], [], None)

  // strings.SplitN(arg, "=", 2) has two fields and the first is HOME.
  predicate IsHome(arg: string) { "HOME=" <= arg }

  function Turn(p: Parser, arg: string): Parser {
    if p.InvalidSection? then p
    else if arg == "--" && p.section != "cmd" then p.(section := "")
    else if p.section == "" then p.(section := arg)
    else if p.section == "env" then p.(env := p.env + [arg], cwd := if IsHome(arg) then Some(arg[5..]) else p.cwd)
    else if p.section == "cmd" then p.(cmd := p.cmd + [arg])
    else InvalidSection(p.section)
  }

  function Run(p: Parser, args: Args): Parser {
    if args == [] then p else Turn(Run(p, args[..|args| - 1]), args[|args| - 1])
  }

  lemma {:induction false} RunAppended(p: Parser, a: Args, b: Args)
    ensures Run(p, a + b) == Run(Run(p, a), b)
  {
    var args := a + b;
    if b == [] {
      assert args == a;
    } else {
      RunAppended(p, a, b[..|b| - 1]);
      assert args[..|args| - 1] == a + b[..|b| - 1];
    }
  }

  lemma {:induction false} InvalidSticks(p: Parser, a: Args, b: Args)
    requires Run(p, a).InvalidSection?
    ensures Run(p, a + b) == Run(p, a)
  {
    var args := a + b;
    if b == [] {
      assert args == a;
    } else {
      InvalidSticks(p, a, b[..|b| - 1]);
      assert args[..|args| - 1] == a + b[..|b| - 1];
    }
  }

  // An argument in a section with another name than env and cmd ends the parsing.
  lemma UnknownSection(before: Args, section: string, arg: string, more: Args)
    requires Run(START, before).Parser? && Run(START, before).section == ""
    requires section != "" && section != "--" && section != "env" && section != "cmd" && arg != "--"
    ensures Run(START, before + [section, arg] + more) == InvalidSection(section)
  {
    RunAppended(START, before, [section, arg]);
    RunAppended(Run(START, before), [section], [arg]);
    assert [section] + [arg] == [section, arg];
    assert Run(Run(START, before), [section]) == Turn(Run(Run(START, before), []), section);
    InvalidSticks(START, before + [section, arg], more);
  }

  // The loop of cmdForkExec over args[5..].
  method Parse(args: Args) returns (r: Result<Parser, string>)
    ensures |args| < 6 <==> r == Err("Bad arguments")
    ensures |args| >= 6 ==> r == match Run(START, args[5..])
                                 case InvalidSection(s) => Err("Invalid exec section: " + s)
                                 case p => Ok(p)
  {
    if |args| < 6 {
      return Err("Bad arguments");
    }
    var rest := args[5..];
    var env: Args, cmd: Args, cwd: Option<string>, section := [], [], None, "";
    for n := 0 to |rest|
      invariant Run(START, rest[..n]) == Parser(section, env, cmd, cwd)
    {
      var arg := rest[n];
      assert rest[..n + 1][..n] == rest[..n];
      if arg == "--" && section != "cmd" {
        section := "";
        continue;
      }
      if section == "" {
        section := arg;
        continue;
      }
      if section == "env" {
        if IsHome(arg) {
          cwd := Some(arg[5..]);
        }
        env := env + [arg];
      } else if section == "cmd" {
        cmd := cmd + [arg];
      } else {
        InvalidSticks(START, rest[..n + 1], rest[n + 1..]);
        assert rest[..n + 1] + rest[n + 1..] == rest;
        return Err("Invalid exec section: " + section);
      }
    }
    assert rest[..|rest|] == rest;
    return Ok(Parser(section, env, cmd, cwd));
  }

  // The value of the last HOME entry.
  function LastHome(env: Args): Option<string> {
    if env == [] then None
    else if IsHome(env[|env| - 1]) then Some(env[|env| - 1][5..])
    else LastHome(env[..|env| - 1])
  }

  lemma {:induction false} EnvSection(env: Args)
    requires "--" !in env
    ensures Run(Parser("env", [], [], None), env) == Parser("env", env, [], LastHome(env))
  {
    if env != [] {
      EnvSection(env[..|env| - 1]);
      assert env[..|env| - 1] + [env[|env| - 1]] == env;
      assert env[|env| - 1] in env;
    }
  }

  // A command is taken whole, whatever it holds.
  lemma {:induction false} CmdSection(env: Args, cwd: Option<string>, cmd: Args)
    ensures Run(Parser("cmd", env, [], cwd), cmd) == Parser("cmd", env, cmd, cwd)
  {
    if cmd != [] {
      CmdSection(env, cwd, cmd[..|cmd| - 1]);
      assert cmd[..|cmd| - 1] + [cmd[|cmd| - 1]] == cmd;
    }
  }

  lemma {:induction false} EnvHasNoDashes(args: Args)
    ensures var p := Run(START, args); p.Parser? ==> "--" !in p.env
  {
    if args != [] { EnvHasNoDashes(args[..|args| - 1]); }
  }

  function Sections(env: Args, cmd: Args): Args { ["env"] + env + ["--", "cmd"] + cmd }

  // The parser gives back the environment and the command exactly when no entry
  // of the environment is "--"; the command is free to hold "--".
  lemma RoundTripExactly(env: Args, cmd: Args)
    ensures (exists cwd :: Run(START, Sections(env, cmd)) == Parser("cmd", env, cmd, cwd)) <==> "--" !in env
    ensures "--" !in env ==> Run(START, Sections(env, cmd)) == Parser("cmd", env, cmd, LastHome(env))
  {
    EnvHasNoDashes(Sections(env, cmd));
    if "--" !in env {
      var p := Parser("env", [], [], None);
      RunAppended(START, ["env"] + env + ["--", "cmd"], cmd);
      RunAppended(START, ["env"] + env, ["--", "cmd"]);
      RunAppended(START, ["env"], env);
      EnvSection(env);
      var q := Parser("env", env, [], LastHome(env));
      assert ["--"] + ["cmd"] == ["--", "cmd"];
      RunAppended(q, ["--"], ["cmd"]);
      CmdSection(env, LastHome(env), cmd);
    }
  }

  // fmt.Sprintf("%s=%s", k, v)
  function Entry(k: string, v: string): string { k + "=" + v }

  lemma EntryIsNoDash(k: string, v: string)
    ensures Entry(k, v) != "--"
  {
    assert Entry(k, v)[|k|] == '=';
  }

  // The entries for the variables of `order`.
  function Entries(env: map<string, string>, order: Args): (es: Args)
    requires forall k :: k in order ==> k in env
    ensures |es| == |order|
    ensures forall i :: 0 <= i < |order| ==> order[i] in order && es[i] == Entry(order[i], env[order[i]])
  {
    seq(|order|, i requires 0 <= i < |order| => assert order[i] in order; Entry(order[i], env[order[i]]))
  }

  // `envSlice` has an entry for every variable, in some order.
  ghost predicate Sliced(env: map<string, string>, envSlice: Args) {
    exists order :: Lists(order, env.Keys) && envSlice == Entries(env, order)
  }

  method EnvSlice(env: map<string, string>) returns (envSlice: Args)
    ensures Sliced(env, envSlice)
  {
    envSlice := [];
    ghost var order: Args := [];
    var keys := env.Keys;
    while keys != {}
      invariant keys <= env.Keys
      invariant Lists(order, env.Keys - keys)
      invariant envSlice == Entries(env, order)
      decreases keys
    {
      var k :| k in keys;
      keys := keys - {k};
      ListsOneMore(order, env.Keys - keys - {k}, k, env.Keys - keys);
      envSlice := envSlice + [Entry(k, env[k])];
      order := order + [k];
    }
    assert env.Keys - keys == env.Keys;
  }

  function Vector(execPath: string, name: string, mercurypath: string, config: string, envSlice: Args,
                  command: Args): Args {
    [execPath, "forkexec", name, mercurypath, config, "--"] + Sections(envSlice, command)
  }

  lemma Appended(a: Args, env: Args, cmd: Args)
    ensures a + ["--"] + ["env"] + env + ["--"] + ["cmd"] + cmd == a + ["--"] + Sections(env, cmd)
  {
  }

  // containerMERCURY.Exec, up to starting the process.
  method BuildArgs(execPath: string, name: string, mercurypath: string, config: string, command: Args,
                   env: map<string, string>)
    returns (args: Args)
    ensures exists envSlice :: Sliced(env, envSlice) &&
              args == Vector(execPath, name, mercurypath, config, envSlice, command)
  {
    var envSlice := EnvSlice(env);
    args := [execPath, "forkexec", name, mercurypath, config];
    Appended(args, envSlice, command);
    assert args + ["--"] == [execPath, "forkexec", name, mercurypath, config, "--"];
    args := args + ["--"];
    args := args + ["env"];
    args := args + envSlice;
    args := args + ["--"];
    args := args + ["cmd"];
    args := args + command;
    assert args == Vector(execPath, name, mercurypath, config, envSlice, command);
  }

  lemma SlicedHasNoDashes(env: map<string, string>, envSlice: Args)
    requires Sliced(env, envSlice)
    ensures "--" !in envSlice
  {
    var order :| Lists(order, env.Keys) && envSlice == Entries(env, order);
    forall i | 0 <= i < |envSlice| ensures envSlice[i] != "--" {
      EntryIsNoDash(order[i], env[order[i]]);
    }
  }

  // The process, whose arguments come without its path, gets exactly the
  // environment and the command of the request.
  lemma ProcessGetsRequest(execPath: string, name: string, mercurypath: string, config: string, command: Args,
                           env: map<string, string>, envSlice: Args)
    requires Sliced(env, envSlice)
    ensures var args := Vector(execPath, name, mercurypath, config, envSlice, command)[1..];
            |args| >= 6 && Run(START, args[5..]) == Parser("cmd", envSlice, command, LastHome(envSlice))
  {
    SlicedHasNoDashes(env, envSlice);
    RoundTripExactly(envSlice, command);
  }

  // ---------------------------------------------------- the working directory

  function HomeOf(env: map<string, string>): Option<string> { if "HOME" in env then Some(env["HOME"]) else None }

  lemma HomeEntries(k: string, v: string)
    ensures IsHome(Entry(k, v)) <==> k == "HOME" || "HOME=" <= k
    ensures k == "HOME" ==> Entry(k, v)[5..] == v
  {
    var e := Entry(k, v);
    assert e[|k|] == '=';
    if IsHome(e) {
      assert forall i :: 0 <= i < 5 ==> e[i] == "HOME="[i];
      if |k| < 4 {
        assert false;
      } else if |k| == 4 {
        assert k == e[..4] == "HOME";
      } else {
        assert k[..5] == e[..5];
      }
    }
    if "HOME=" <= k {
      assert e[..5] == k[..5];
    }
  }

  lemma {:induction false} LastHomeFound(es: Args) returns (i: nat)
    ensures LastHome(es).None? ==> forall j :: 0 <= j < |es| ==> !IsHome(es[j])
    ensures LastHome(es).Some? ==> i < |es| && IsHome(es[i]) && LastHome(es) == Some(es[i][5..])
  {
    if es == [] {
      i := 0;
    } else if IsHome(es[|es| - 1]) {
      i := |es| - 1;
    } else {
      i := LastHomeFound(es[..|es| - 1]);
      assert forall j :: 0 <= j < |es| - 1 ==> es[j] == es[..|es| - 1][j];
    }
  }

  // A variable whose name itself starts with "HOME=" passes for HOME.
  predicate PassesForHome(env: map<string, string>, k: string) {
    k in env && "HOME=" <= k && (HomeOf(env) != Some((k + "=" + env[k])[5..]))
  }

  lemma CwdIsHome(env: map<string, string>, order: Args)
    requires Lists(order, env.Keys)
    requires forall k :: !PassesForHome(env, k)
    ensures LastHome(Entries(env, order)) == HomeOf(env)
  {
    var es := Entries(env, order);
    var i := LastHomeFound(es);
    if LastHome(es).Some? {
      HomeEntries(order[i], env[order[i]]);
      assert !PassesForHome(env, order[i]);
    } else if "HOME" in env {
      assert "HOME" in order;
      var j :| 0 <= j < |order| && order[j] == "HOME";
      HomeEntries(order[j], env[order[j]]);
    }
  }

  // The working directory is HOME's value in every order of the variables exactly
  // when no other variable passes for HOME.
  lemma CwdExactly(env: map<string, string>)
    ensures (forall order :: Lists(order, env.Keys) ==> LastHome(Entries(env, order)) == HomeOf(env)) <==>
              !exists k :: PassesForHome(env, k)
  {
    if !exists k :: PassesForHome(env, k) {
      forall order | Lists(order, env.Keys) ensures LastHome(Entries(env, order)) == HomeOf(env) {
        CwdIsHome(env, order);
      }
    }
    if k :| PassesForHome(env, k) {
      var order := OrderEnding(env.Keys, k);
      HomeEntries(k, env[k]);
      assert LastHome(Entries(env, order)) == Some(Entry(k, env[k])[5..]);
    }
  }
}
