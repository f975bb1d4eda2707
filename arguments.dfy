/** The command line (src/main.cpp:20-21, 44-64): four flags switch two sticky
    settings, the I/O mode and the fail-fast policy, and every other argument
    is a target handled with the settings in force when it is reached. */
module Arguments {

  /** `write_data`: `O_RDONLY` selects the read-only verifier, `O_RDWR` the
      destructive one. */
  datatype Mode = ReadOnly | ReadWrite

  /** The two process-wide settings (`write_data`, `should_fail`). */
  datatype Settings = Settings(mode: Mode, failFast: bool)

  /** A target path with the settings it is processed under. */
  datatype Target = Target(path: string, settings: Settings)

  /** Initial values of the two globals: read-only, skip on open failure. */
  const Defaults: Settings := Settings(ReadOnly, false)

  predicate IsFlag(arg: string)
  {
    arg == "-ro" || arg == "-rw" || arg == "--fail" || arg == "--no-fail"
  }

  /** Effect of one argument on the settings; a target changes nothing. */
  function Apply(s: Settings, arg: string): Settings
  {
    if arg == "-ro" then s.(mode := ReadOnly)
    else if arg == "-rw" then s.(mode := ReadWrite)
    else if arg == "--fail" then s.(failFast := true)
    else if arg == "--no-fail" then s.(failFast := false)
    else s
  }

  /** The settings in force after the loop has walked `args`. */
  function SettingsAfter(args: seq<string>): Settings
    decreases |args|
  {
    if args == [] then Defaults
    else Apply(SettingsAfter(args[..|args| - 1]), args[|args| - 1])
  }

  /** The targets met while walking `args`, in order, each with the settings
      in force when it is reached. */
  function Targets(args: seq<string>): seq<Target>
    decreases |args|
  {
    if args == [] then []
    else
      var init, arg := args[..|args| - 1], args[|args| - 1];
      Targets(init) + (if IsFlag(arg) then [] else [Target(arg, SettingsAfter(init))])
  }

  /** The argument loop of `main`: `mode` and `failFast` stand for the
      globals `write_data` and `should_fail`, which each flag overwrites;
      every other argument is collected as a target with their values at
      that point. */
  method CollectTargets(args: seq<string>) returns (targets: seq<Target>)
    ensures targets == Targets(args)
  {
    var mode := Defaults.mode;
    var failFast := Defaults.failFast;
    targets := [];
    var i := 0;
    while i < |args|
      invariant 0 <= i <= |args|
      invariant Settings(mode, failFast) == SettingsAfter(args[..i])
      invariant targets == Targets(args[..i])
    {
      var arg := args[i];
      assert args[..i + 1][..i] == args[..i] && args[..i + 1][i] == arg;
      if arg == "-ro" {
        mode := ReadOnly;
      } else if arg == "-rw" {
        mode := ReadWrite;
      } else if arg == "--fail" {
        failFast := true;
      } else if arg == "--no-fail" {
        failFast := false;
      } else {
        targets := targets + [Target(arg, Settings(mode, failFast))];
      }
      i := i + 1;
    }
    assert args[..i] == args;
  }

  /** `on` occurs in `args` and no `on` or `off` follows its last occurrence:
      the independent reading of "the last of these two flags is `on`". */
  predicate LastIs(args: seq<string>, on: string, off: string)
  {
    exists j :: 0 <= j < |args| && args[j] == on &&
      forall m :: j < m < |args| ==> args[m] != on && args[m] != off
  }

  lemma LastIsSnoc(args: seq<string>, a: string, on: string, off: string)
    requires on != off
    ensures LastIs(args + [a], on, off) <==> a == on || (a != off && LastIs(args, on, off))
  {
    var s := args + [a];
    if a == on {
      assert s[|args|] == on;
    } else if a != off && LastIs(args, on, off) {
      var j :| 0 <= j < |args| && args[j] == on &&
        forall m :: j < m < |args| ==> args[m] != on && args[m] != off;
      assert s[j] == on;
      assert forall m :: j < m < |s| ==> s[m] != on && s[m] != off;
    }
    if LastIs(s, on, off) && a != on {
      var j :| 0 <= j < |s| && s[j] == on &&
        forall m :: j < m < |s| ==> s[m] != on && s[m] != off;
      assert j < |args| && s[|args|] == a;
      assert args[j] == on;
      assert forall m :: j < m < |args| ==> args[m] == s[m];
    }
  }

  /** Each setting is decided by the last of its two flags, and keeps its
      default (read-only, no fail-fast) when neither appears. */
  lemma {:induction false} SettingsAreLastFlags(args: seq<string>)
    ensures SettingsAfter(args).mode == ReadWrite <==> LastIs(args, "-rw", "-ro")
    ensures SettingsAfter(args).failFast <==> LastIs(args, "--fail", "--no-fail")
    decreases |args|
  {
    if args != [] {
      var init, a := args[..|args| - 1], args[|args| - 1];
      assert args == init + [a];
      SettingsAreLastFlags(init);
      LastIsSnoc(init, a, "-rw", "-ro");
      LastIsSnoc(init, a, "--fail", "--no-fail");
    }
  }

  /** The targets met in a prefix of the arguments come first, in order. */
  lemma {:induction false} TargetsPrefix(args: seq<string>, k: nat)
    requires k <= |args|
    ensures |Targets(args[..k])| <= |Targets(args)|
    ensures Targets(args)[..|Targets(args[..k])|] == Targets(args[..k])
    decreases |args|
  {
    if k < |args| {
      var init := args[..|args| - 1];
      assert args[..k] == init[..k];
      TargetsPrefix(init, k);
    } else {
      assert args[..k] == args;
    }
  }

  /** Every argument that is not a flag becomes a target, at the position
      given by the targets before it, with the settings in force there. */
  lemma TargetAt(args: seq<string>, k: nat)
    requires k < |args| && !IsFlag(args[k])
    ensures |Targets(args[..k])| < |Targets(args)|
    ensures Targets(args)[|Targets(args[..k])|] == Target(args[k], SettingsAfter(args[..k]))
  {
    var pre := args[..k + 1];
    assert pre[..k] == args[..k] && pre[k] == args[k];
    assert Targets(pre) == Targets(args[..k]) + [Target(args[k], SettingsAfter(args[..k]))];
    TargetsPrefix(args, k + 1);
  }

  /** Target number `j` is the argument at position `k`, which is not a flag,
      with the settings in force there. */
  predicate TargetFrom(args: seq<string>, j: nat, k: nat)
    requires j < |Targets(args)| && k < |args|
  {
    !IsFlag(args[k]) && j == |Targets(args[..k])| &&
    Targets(args)[j] == Target(args[k], SettingsAfter(args[..k]))
  }

  /** Every target comes from an argument that is not a flag, with the
      settings in force at that argument; so no flag is ever a target. */
  lemma {:induction false} TargetOrigin(args: seq<string>, j: nat)
    requires j < |Targets(args)|
    ensures exists k :: 0 <= k < |args| && TargetFrom(args, j, k)
    decreases |args|
  {
    var init := args[..|args| - 1];
    if j < |Targets(init)| {
      TargetOrigin(init, j);
      var k :| 0 <= k < |init| && TargetFrom(init, j, k);
      assert args[..k] == init[..k];
      assert args[k] == init[k];
      assert TargetFrom(args, j, k);
    } else {
      assert TargetFrom(args, j, |args| - 1);
    }
  }
}
