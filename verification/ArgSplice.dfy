/** The command line's global options: recognised words are spliced out of argv around the
    subcommand word, so they may stand before or after it. */
module ArgSplice {
  import opened Options

  /** The option variables; `abiVersion` holds the word that is given to atoi. */
  datatype Settings = Settings(
    abiVersion: Option<string>, abiTarget: string,
    aot: bool, profile: bool, symbols: bool, incremental: bool, reproducible: bool, debugInfo: bool, force: bool)

  predicate IsCommand(w: string) {
    w == "buildc" || w == "compile" || w == "run" || w == "profile" || w == "symbols"
  }

  /** Options that take the next word. */
  predicate TakesValue(w: string) {
    w == "--abi-version" || w == "--abi-target"
  }

  predicate IsFlag(w: string) {
    || w == "--aot" || w == "--profile" || w == "--symbols" || w == "--incremental"
    || w == "--reproducible" || w == "--debug-info" || w == "--force" || w == "-f"
  }

  /** How many words the option at the front takes: 0 if there is none. */
  function Delta(args: seq<string>): (d: nat)
    ensures d <= |args| && d <= 2
  {
    if args == [] then 0
    else if |args| >= 2 && TakesValue(args[0]) then 2
    else if IsFlag(args[0]) then 1
    else 0
  }

  function SetFlag(s: Settings, w: string): Settings {
    if w == "--aot" then s.(aot := true)
    else if w == "--profile" then s.(profile := true)
    else if w == "--symbols" then s.(symbols := true)
    else if w == "--incremental" then s.(incremental := true)
    else if w == "--reproducible" then s.(reproducible := true)
    else if w == "--debug-info" then s.(debugInfo := true)
    else s.(force := true)
  }

  function SetValue(s: Settings, w: string, v: string): Settings {
    if w == "--abi-version" then s.(abiVersion := Some(v)) else s.(abiTarget := v)
  }

  function Take(s: Settings, args: seq<string>): Settings
    requires Delta(args) > 0
  {
    if Delta(args) == 2 then SetValue(s, args[0], args[1]) else SetFlag(s, args[0])
  }

  function Base(argv: seq<string>): (b: nat)
    ensures 1 <= b <= 2
  {
    if |argv| >= 2 && IsCommand(argv[1]) then 2 else 1
  }

  datatype Spliced = Spliced(argv: seq<string>, settings: Settings)

  /** The words left in argv and the settings after the loop. */
  function Splice(argv: seq<string>, s: Settings): (r: Spliced)
    requires argv != []
    ensures r.argv != [] && r.argv[0] == argv[0]
    decreases |argv|
  {
    var b := Base(argv);
    if b >= |argv| then Spliced(argv, s)
    else
      var d := Delta(argv[b..]);
      if d == 0 then Spliced(argv, s) else Splice(argv[..b] + argv[b + d..], Take(s, argv[b..]))
  }

  lemma TakeOption(words: seq<string>, base: nat, delta: nat, s: Settings, next: Settings)
    requires base < |words| && base == Base(words) && base + delta <= |words|
    requires var args := words[base..]; delta == Delta(args) > 0 && next == Take(s, args)
    ensures Splice(words, s) == Splice(words[..base] + words[base + delta..], next)
  {
  }

  /** The splice loop itself, on the array and its count. */
  method SpliceOptions(argv: array<string>, argc0: nat, s0: Settings) returns (argc: nat, s: Settings)
    requires 1 <= argc0 <= argv.Length
    modifies argv
    ensures argc <= argc0 && Spliced(argv[..argc], s) == Splice(old(argv[..argc0]), s0)
  {
    argc, s := argc0, s0;
    while true
      invariant 1 <= argc <= argc0
      invariant Splice(argv[..argc], s) == Splice(old(argv[..argc0]), s0)
      decreases argc
    {
      ghost var words, was := argv[..argc], s;
      var base := if argc >= 2 && IsCommand(argv[1]) then 2 else 1;
      if base >= argc { break; }
      var o := argv[base];
      ghost var args := words[base..];
      assert args[0] == o && |args| == argc - base && (|args| >= 2 ==> args[1] == argv[base + 1]);
      var delta := 0;
      if base + 1 < argc && TakesValue(o) {
        s := SetValue(s, o, argv[base + 1]);
        delta := 2;
      } else if IsFlag(o) {
        s := SetFlag(s, o);
        delta := 1;
      } else {
        break;
      }
      TakeOption(words, base, delta, was, s);
      ShiftLeft(argv, base, delta, argc);
      argc := argc - delta;
      assert argv[..argc] == words[..base] + words[base + delta..];
    }
  }

  /** The inner loop: close the gap. */
  method ShiftLeft(argv: array<string>, base: nat, delta: nat, argc: nat)
    requires base + delta <= argc <= argv.Length && delta > 0
    modifies argv
    ensures argv[..argc - delta] == old(argv[..argc])[..base] + old(argv[..argc])[base + delta..]
  {
    var i := base;
    while i < argc - delta
      invariant base <= i <= argc - delta
      invariant forall k | 0 <= k < base || i <= k < argv.Length :: argv[k] == old(argv[k])
      invariant forall k | base <= k < i :: argv[k] == old(argv[k + delta])
    {
      argv[i] := argv[i + delta];
      i := i + 1;
    }
  }

  // ---------------------------------------------------------------- options as the user means them

  datatype Opt = Flag(name: string) | Valued(name: string, value: string)

  predicate WellFormed(o: Opt) {
    match o
    case Flag(n) => IsFlag(n)
    case Valued(n, _) => TakesValue(n)
  }

  function WordsOf(o: Opt): seq<string> {
    match o
    case Flag(n) => [n]
    case Valued(n, v) => [n, v]
  }

  function Words(os: seq<Opt>): seq<string> {
    if os == [] then [] else WordsOf(os[0]) + Words(os[1..])
  }

  function Apply(s: Settings, o: Opt): Settings {
    match o
    case Flag(n) => SetFlag(s, n)
    case Valued(n, v) => SetValue(s, n, v)
  }

  function ApplyAll(s: Settings, os: seq<Opt>): Settings
    decreases |os|
  {
    if os == [] then s else ApplyAll(Apply(s, os[0]), os[1..])
  }

  lemma {:induction false} ApplyConcat(s: Settings, a: seq<Opt>, b: seq<Opt>)
    ensures ApplyAll(s, a + b) == ApplyAll(ApplyAll(s, a), b)
    decreases |a|
  {
    if a == [] {
      assert a + b == b;
    } else {
      assert (a + b)[1..] == a[1..] + b;
      ApplyConcat(Apply(s, a[0]), a[1..], b);
    }
  }

  lemma NamesAreNotCommands(o: Opt)
    requires WellFormed(o)
    ensures !IsCommand(o.name) && (IsFlag(o.name) ==> !TakesValue(o.name))
  {
  }

  /** One well-formed option at the base is consumed. */
  lemma OneOption(head: seq<string>, o: Opt, tail: seq<string>, s: Settings)
    requires WellFormed(o)
    requires |head| == 1 || (|head| == 2 && IsCommand(head[1]))
    ensures Splice(head + WordsOf(o) + tail, s) == Splice(head + tail, Apply(s, o))
  {
    NamesAreNotCommands(o);
    var argv := head + WordsOf(o) + tail;
    var b := |head|;
    assert argv[b] == o.name;
    assert Base(argv) == b;
    assert argv[..b] == head;
    assert argv[b + |WordsOf(o)|..] == tail;
    assert argv[b..][0] == o.name && (o.Valued? ==> argv[b..][1] == o.value);
  }

  /** A program, and perhaps a command word behind it. */
  predicate Front(front: seq<string>) {
    |front| == 1 || (|front| == 2 && front[1] in ["buildc", "compile", "run", "profile", "symbols"])
  }

  lemma OneWord(front: seq<string>, w: string, tail: seq<string>, s: Settings)
    requires Front(front) && IsFlag(w)
    ensures Splice(front + [w] + tail, s) == Splice(front + tail, SetFlag(s, w))
  {
    OneOption(front, Flag(w), tail, s);
  }

  /** What each option word sets: this, and nothing else. */
  lemma FlagSets(front: seq<string>, tail: seq<string>, s: Settings)
    requires Front(front)
    ensures Splice(front + ["--aot"] + tail, s) == Splice(front + tail, s.(aot := true))
    ensures Splice(front + ["--profile"] + tail, s) == Splice(front + tail, s.(profile := true))
    ensures Splice(front + ["--symbols"] + tail, s) == Splice(front + tail, s.(symbols := true))
    ensures Splice(front + ["--incremental"] + tail, s) == Splice(front + tail, s.(incremental := true))
    ensures Splice(front + ["--reproducible"] + tail, s) == Splice(front + tail, s.(reproducible := true))
    ensures Splice(front + ["--debug-info"] + tail, s) == Splice(front + tail, s.(debugInfo := true))
    ensures Splice(front + ["--force"] + tail, s) == Splice(front + tail, s.(force := true))
    ensures Splice(front + ["-f"] + tail, s) == Splice(front + tail, s.(force := true))
  {
    OneWord(front, "--aot", tail, s);
    OneWord(front, "--profile", tail, s);
    OneWord(front, "--symbols", tail, s);
    OneWord(front, "--incremental", tail, s);
    OneWord(front, "--reproducible", tail, s);
    OneWord(front, "--debug-info", tail, s);
    OneWord(front, "--force", tail, s);
    OneWord(front, "-f", tail, s);
  }

  /** The two that take a word; at the end of the line they are left alone. */
  lemma ValueSets(front: seq<string>, v: string, tail: seq<string>, s: Settings)
    requires Front(front)
    ensures Splice(front + ["--abi-version", v] + tail, s) == Splice(front + tail, s.(abiVersion := Some(v)))
    ensures Splice(front + ["--abi-target", v] + tail, s) == Splice(front + tail, s.(abiTarget := v))
    ensures Splice(front + ["--abi-version"], s) == Spliced(front + ["--abi-version"], s)
    ensures Splice(front + ["--abi-target"], s) == Spliced(front + ["--abi-target"], s)
  {
    OneOption(front, Valued("--abi-version", v), tail, s);
    OneOption(front, Valued("--abi-target", v), tail, s);
    Dangling(front, "--abi-version", s);
    Dangling(front, "--abi-target", s);
  }

  lemma Dangling(front: seq<string>, w: string, s: Settings)
    requires Front(front) && TakesValue(w)
    ensures Splice(front + [w], s) == Spliced(front + [w], s)
  {
    var argv := front + [w];
    assert argv[|front|..] == [w] && Base(argv) == |front|;
  }

  lemma Regroup<T>(a: seq<T>, b: seq<T>, c: seq<T>, d: seq<T>)
    ensures a + (b + c) + d == a + b + (c + d)
    ensures a + (c + d) == a + c + d
  {
  }

  lemma {:induction false} ManyOptions(head: seq<string>, os: seq<Opt>, tail: seq<string>, s: Settings)
    requires forall i | 0 <= i < |os| :: WellFormed(os[i])
    requires |head| == 1 || (|head| == 2 && IsCommand(head[1]))
    ensures Splice(head + Words(os) + tail, s) == Splice(head + tail, ApplyAll(s, os))
    decreases |os|
  {
    if os == [] {
      assert head + Words(os) + tail == head + tail;
    } else {
      var o, more := os[0], Words(os[1..]);
      Regroup(head, WordsOf(o), more, tail);
      OneOption(head, o, more + tail, s);
      ManyOptions(head, os[1..], tail, Apply(s, o));
    }
  }

  /** A program, a command and a rest without an option in front: the loop stops at once. */
  lemma SpliceDone(prog: string, cmd: string, rest: seq<string>, s: Settings)
    requires IsCommand(cmd) && Delta(rest) == 0
    ensures Splice([prog, cmd] + rest, s) == Spliced([prog, cmd] + rest, s)
  {
    var argv := [prog, cmd] + rest;
    assert argv[1] == cmd && Base(argv) == 2;
    assert argv[2..] == rest;
  }

  lemma CommandFirst(prog: string, cmd: string, post: seq<Opt>, rest: seq<string>, s: Settings)
    requires IsCommand(cmd) && Delta(rest) == 0
    requires forall i | 0 <= i < |post| :: WellFormed(post[i])
    ensures Splice([prog] + ([cmd] + Words(post) + rest), s) == Spliced([prog, cmd] + rest, ApplyAll(s, post))
  {
    assert [prog] + ([cmd] + Words(post) + rest) == [prog, cmd] + Words(post) + rest;
    ManyOptions([prog, cmd], post, rest, s);
    SpliceDone(prog, cmd, rest, ApplyAll(s, post));
  }

  /** The subcommand may sit anywhere among the options: argv ends as program, command and rest,
      and the settings are those of all options in order. */
  lemma CommandAnywhere(prog: string, pre: seq<Opt>, cmd: string, post: seq<Opt>, rest: seq<string>, s: Settings)
    requires IsCommand(cmd) && Delta(rest) == 0
    requires forall i | 0 <= i < |pre| :: WellFormed(pre[i])
    requires forall i | 0 <= i < |post| :: WellFormed(post[i])
    ensures Splice([prog] + Words(pre) + ([cmd] + Words(post) + rest), s)
      == Spliced([prog, cmd] + rest, ApplyAll(s, pre + post))
  {
    var head := [prog, cmd];
    var behind, s1 := [cmd] + Words(post) + rest, ApplyAll(s, pre);
    assert Splice([prog] + Words(pre) + behind, s)
      == Splice([prog] + behind, s1) by { ManyOptions([prog], pre, behind, s); }
    CommandFirst(prog, cmd, post, rest, s1);
    ApplyConcat(s, pre, post);
  }

  /** So moving every option behind the subcommand changes nothing. */
  lemma OptionsMayMove(prog: string, pre: seq<Opt>, cmd: string, post: seq<Opt>, rest: seq<string>, s: Settings)
    requires IsCommand(cmd) && Delta(rest) == 0
    requires forall i | 0 <= i < |pre| :: WellFormed(pre[i])
    requires forall i | 0 <= i < |post| :: WellFormed(post[i])
    ensures Splice([prog] + Words(pre) + ([cmd] + Words(post) + rest), s)
         == Splice([prog] + Words([]) + ([cmd] + Words(pre + post) + rest), s)
  {
    CommandAnywhere(prog, pre, cmd, post, rest, s);
    CommandAnywhere(prog, [], cmd, pre + post, rest, s);
    assert [] + (pre + post) == pre + post;
  }

  /** For every command line: what is left does not start with a recognised option. */
  lemma {:induction false} NothingLeft(argv: seq<string>, s: Settings)
    requires argv != []
    ensures var r := Splice(argv, s).argv; |r| <= |argv| && (Base(r) < |r| ==> Delta(r[Base(r)..]) == 0)
    decreases |argv|
  {
    var b := Base(argv);
    if b < |argv| {
      var d := Delta(argv[b..]);
      if d > 0 { NothingLeft(argv[..b] + argv[b + d..], Take(s, argv[b..])); }
    }
  }
}
