/**
 * Helpers of driftctl's acceptance-test harness (test/acceptance/testing.go):
 * checking a test case, resolving the environment Terraform runs with, and
 * building the driftctl command line of a run.
 *
 * The process environment is given as the sequence of `KEY=VALUE` entries
 * os.Environ() returns, and path.Join is the parameter `pathJoin`.
 */
module Acceptance {
  import opened Wrappers

  /** An acceptance check; only its environment is data, its callbacks are
      not part of this model. */
  datatype AccCheck = AccCheck(env: map<string, string>)

  /** A test case.  args is None for a nil Args slice, which a run leaves
      alone, and Some for any other, even an empty one. */
  datatype AccTestCase = AccTestCase(paths: seq<string>, args: Option<seq<string>>, checks: seq<AccCheck>)

  const ChecksMissing := "checks attribute must be defined"
  const PathsMissing := "Paths attribute must be defined"
  const OutputFlagDefined := "--output flag should not be defined in test case, it is automatically tested"

  // ---------------------------------------------------------------------
  // validate
  // ---------------------------------------------------------------------

  predicate IsOutputFlag(arg: string)
  {
    arg == "--output" || arg == "-o"
  }

  function ArgList(args: Option<seq<string>>): seq<string>
  {
    if args.Some? then args.value else []
  }

  /** The loop over the arguments: an error at the first output flag. */
  function CheckArgs(args: seq<string>): (err: Option<string>)
    ensures err.Some? <==> exists k :: 0 <= k < |args| && IsOutputFlag(args[k])
    ensures err.Some? ==> err == Some(OutputFlagDefined)
  {
    if args == [] then None
    else if IsOutputFlag(args[0]) then Some(OutputFlagDefined)
    else
      var err := CheckArgs(args[1..]);
      assert forall k :: 1 <= k < |args| ==> args[k] == args[1..][k - 1];
      err
  }

  /** validate: checks are required first, then paths, then no argument may
      be an output flag; None means the case is valid. */
  function Validate(c: AccTestCase): (err: Option<string>)
    ensures |c.checks| == 0 ==> err == Some(ChecksMissing)
    ensures |c.checks| > 0 && |c.paths| == 0 ==> err == Some(PathsMissing)
    ensures |c.checks| > 0 && |c.paths| > 0 ==>
      (err.Some? <==> exists a :: a in ArgList(c.args) && IsOutputFlag(a))
    ensures |c.checks| > 0 && |c.paths| > 0 && err.Some? ==> err == Some(OutputFlagDefined)
  {
    if |c.checks| == 0 then Some(ChecksMissing)
    else if |c.paths| < 1 then Some(PathsMissing)
    else CheckArgs(ArgList(c.args))
  }

  // ---------------------------------------------------------------------
  // resolveTerraformEnv
  // ---------------------------------------------------------------------

  const Prefix := "ACC_"

  /** The position of the first `=` of an entry. */
  function EqIndex(e: string): (i: nat)
    requires '=' in e
    ensures i < |e| && e[i] == '='
    ensures forall j :: 0 <= j < i ==> e[j] != '='
  {
    if e[0] == '=' then 0
    else
      assert e == [e[0]] + e[1..];
      1 + EqIndex(e[1..])
  }

  /** The key of an entry: what precedes its first `=`, or the whole entry
      when it has none. */
  function KeyOf(e: string): string
  {
    if '=' in e then e[..EqIndex(e)] else e
  }

  /** The value of an entry: what follows its first `=`. */
  function ValueOf(e: string): string
    requires '=' in e
  {
    e[EqIndex(e) + 1..]
  }

  /** strings.SplitN(e, "=", 2): the key and the value, or the entry alone
      when it holds no `=`. */
  function SplitEq(e: string): seq<string>
  {
    if '=' in e then [KeyOf(e), ValueOf(e)] else [e]
  }

  predicate HasPrefix(s: string, p: string)
  {
    |p| <= |s| && s[..|p|] == p
  }

  /** An entry whose key starts with ACC_ overrides the variable named by
      the rest of its key. */
  predicate IsOverride(e: string)
  {
    HasPrefix(KeyOf(e), Prefix)
  }

  /** The variable an entry sets: its key, less one ACC_ prefix. */
  function VarName(e: string): string
  {
    if IsOverride(e) then KeyOf(e)[|Prefix|..] else KeyOf(e)
  }

  /** The entry is an ACC_ entry with a value for the variable key. */
  predicate Overrides(e: string, key: string)
  {
    '=' in e && IsOverride(e) && VarName(e) == key
  }

  /** The entry is a plain entry with a value for the variable key. */
  predicate PlainFor(e: string, key: string)
  {
    '=' in e && !IsOverride(e) && KeyOf(e) == key
  }

  /** The value of the last ACC_ entry for key. */
  function LastOverride(environ: seq<string>, key: string): Option<string>
  {
    if environ == [] then None
    else
      var e := environ[|environ| - 1];
      if Overrides(e, key) then Some(ValueOf(e))
      else LastOverride(environ[..|environ| - 1], key)
  }

  /** The value of the first entry without the prefix for key. */
  function FirstPlain(environ: seq<string>, key: string): Option<string>
  {
    if environ == [] then None
    else
      var e := environ[0];
      if PlainFor(e, key) then Some(ValueOf(e))
      else FirstPlain(environ[1..], key)
  }

  /** The value key gets: an override wins over any plain entry. */
  function Resolved(environ: seq<string>, key: string): Option<string>
  {
    if LastOverride(environ, key).Some? then LastOverride(environ, key) else FirstPlain(environ, key)
  }

  /** The source reads the value of an entry, and so fails on one without
      `=`, when the entry's key has the ACC_ prefix or is not yet in the
      map; an entry without `=` whose key is already there is skipped. */
  predicate NoMissingValue(environ: seq<string>)
  {
    forall i :: 0 <= i < |environ| && '=' !in environ[i] ==>
      !HasPrefix(environ[i], Prefix) && Resolved(environ[..i], environ[i]).Some?
  }

  function Lookup(m: map<string, string>, key: string): Option<string>
  {
    if key in m then Some(m[key]) else None
  }

  lemma {:induction false} FirstPlainSnoc(environ: seq<string>, e: string, key: string)
    ensures FirstPlain(environ + [e], key)
         == if FirstPlain(environ, key).Some? then FirstPlain(environ, key)
            else if PlainFor(e, key) then Some(ValueOf(e))
            else None
    decreases |environ|
  {
    if environ == [] {
      assert [] + [e] == [e];
    } else {
      assert (environ + [e])[0] == environ[0];
      assert (environ + [e])[1..] == environ[1..] + [e];
      FirstPlainSnoc(environ[1..], e, key);
    }
  }

  /** Scanning one more entry: an override for key sets it, a plain entry
      for key sets it only when nothing has yet, and an entry without a
      value changes nothing. */
  lemma ResolvedSnoc(environ: seq<string>, e: string, key: string)
    ensures Resolved(environ + [e], key)
         == if Overrides(e, key) then Some(ValueOf(e))
            else if Resolved(environ, key).Some? then Resolved(environ, key)
            else if PlainFor(e, key) then Some(ValueOf(e))
            else None
  {
    FirstPlainSnoc(environ, e, key);
    assert (environ + [e])[..|environ|] == environ;
  }

  /** An entry without a value, which the source skips when its key is
      already set, changes no variable. */
  lemma EntryWithoutValueSkipped(environ: seq<string>, e: string, key: string)
    requires '=' !in e
    ensures Resolved(environ + [e], key) == Resolved(environ, key)
  {
    ResolvedSnoc(environ, e, key);
  }

  /** resolveTerraformEnv: every variable an entry sets, with its resolved value. */
  method ResolveTerraformEnv(environ: seq<string>) returns (environMap: map<string, string>)
    requires NoMissingValue(environ)
    ensures forall key :: Lookup(environMap, key) == Resolved(environ, key)
  {
    environMap := map[];
    for i := 0 to |environ|
      invariant forall key :: Lookup(environMap, key) == Resolved(environ[..i], key)
    {
      var e := environ[i];
      assert environ[..i + 1] == environ[..i] + [e];
      forall key ensures Resolved(environ[..i + 1], key)
          == if Overrides(e, key) then Some(ValueOf(e))
             else if Resolved(environ[..i], key).Some? then Resolved(environ[..i], key)
             else if PlainFor(e, key) then Some(ValueOf(e))
             else None
      {
        ResolvedSnoc(environ[..i], e, key);
      }
      ghost var before := environMap;
      var envKeyValue := SplitEq(e);
      if HasPrefix(envKeyValue[0], Prefix) {
        var varName := envKeyValue[0][|Prefix|..];
        environMap := environMap[varName := envKeyValue[1]];
        assert Overrides(e, varName);
        assert forall k :: Lookup(environMap, k) == if k == varName then Some(envKeyValue[1]) else Lookup(before, k);
        assert forall k :: Lookup(environMap, k) == Resolved(environ[..i + 1], k);
        continue;
      }
      assert !IsOverride(e);
      if envKeyValue[0] !in environMap {
        var key := envKeyValue[0];
        environMap := environMap[key := envKeyValue[1]];
        assert Lookup(before, key) == None == Resolved(environ[..i], key);
        assert PlainFor(e, key) && Resolved(environ[..i + 1], key) == Some(envKeyValue[1]);
        assert forall k :: Lookup(environMap, k) == if k == key then Some(envKeyValue[1]) else Lookup(before, k);
        assert forall k :: Lookup(environMap, k) == Resolved(environ[..i + 1], k);
      } else {
        assert forall k :: Lookup(environMap, k) == Resolved(environ[..i + 1], k);
      }
    }
    assert environ[..|environ|] == environ;
  }

  /** A variable is resolved exactly when some entry with a value sets it,
      under its key with one ACC_ prefix removed or under its key as it is. */
  lemma ResolvedKeysFromEntries(environ: seq<string>, key: string)
    ensures Resolved(environ, key).Some? <==>
      exists k :: 0 <= k < |environ| && '=' in environ[k] && VarName(environ[k]) == key
  {
    if Resolved(environ, key).Some? {
      var k;
      if LastOverride(environ, key).Some? {
        k := OverrideAt(environ, key);
      } else {
        k := PlainAt(environ, key);
      }
      assert '=' in environ[k] && VarName(environ[k]) == key;
    } else {
      forall k | 0 <= k < |environ| && '=' in environ[k]
        ensures VarName(environ[k]) != key
      {
        if Overrides(environ[k], key) {
          OverrideFound(environ, k, key);
        } else if PlainFor(environ[k], key) {
          PlainFound(environ, k, key);
        }
      }
    }
  }

  lemma {:induction false} OverrideAt(environ: seq<string>, key: string) returns (k: nat)
    requires LastOverride(environ, key).Some?
    ensures k < |environ| && Overrides(environ[k], key)
    decreases |environ|
  {
    var e := environ[|environ| - 1];
    if Overrides(e, key) {
      k := |environ| - 1;
    } else {
      k := OverrideAt(environ[..|environ| - 1], key);
    }
  }

  lemma {:induction false} PlainAt(environ: seq<string>, key: string) returns (k: nat)
    requires FirstPlain(environ, key).Some?
    ensures k < |environ| && PlainFor(environ[k], key)
    decreases |environ|
  {
    if PlainFor(environ[0], key) {
      k := 0;
    } else {
      var j := PlainAt(environ[1..], key);
      k := j + 1;
    }
  }

  /** Any ACC_ entry for key gives it an override. */
  lemma {:induction false} OverrideFound(environ: seq<string>, k: nat, key: string)
    requires k < |environ| && Overrides(environ[k], key)
    ensures LastOverride(environ, key).Some?
    decreases |environ|
  {
    if k < |environ| - 1 && !Overrides(environ[|environ| - 1], key) {
      assert environ[..|environ| - 1][k] == environ[k];
      OverrideFound(environ[..|environ| - 1], k, key);
    }
  }

  /** Any plain entry for key gives it a first plain value. */
  lemma {:induction false} PlainFound(environ: seq<string>, k: nat, key: string)
    requires k < |environ| && PlainFor(environ[k], key)
    ensures FirstPlain(environ, key).Some?
    decreases k
  {
    if k > 0 && !PlainFor(environ[0], key) {
      assert environ[1..][k - 1] == environ[k];
      PlainFound(environ[1..], k - 1, key);
    }
  }

  /** An ACC_ entry sets its variable whatever plain entries say, before or
      after it; only a later ACC_ entry for the same variable replaces it. */
  lemma {:induction false} OverrideWins(environ: seq<string>, k: nat, key: string)
    requires k < |environ| && Overrides(environ[k], key)
    requires forall j :: k < j < |environ| ==> !Overrides(environ[j], key)
    ensures LastOverride(environ, key) == Some(ValueOf(environ[k]))
    ensures Resolved(environ, key) == Some(ValueOf(environ[k]))
    decreases |environ|
  {
    if k < |environ| - 1 {
      var init := environ[..|environ| - 1];
      assert init[k] == environ[k];
      assert forall j :: 0 <= j < |init| ==> init[j] == environ[j];
      OverrideWins(init, k, key);
      assert LastOverride(environ, key) == LastOverride(init, key);
    }
  }

  lemma {:induction false} NoOverride(environ: seq<string>, key: string)
    requires forall j :: 0 <= j < |environ| ==> !Overrides(environ[j], key)
    ensures LastOverride(environ, key) == None
    decreases |environ|
  {
    if environ != [] {
      NoOverride(environ[..|environ| - 1], key);
    }
  }

  lemma {:induction false} FirstPlainAt(environ: seq<string>, k: nat, key: string)
    requires k < |environ| && PlainFor(environ[k], key)
    requires forall j :: 0 <= j < k ==> !PlainFor(environ[j], key)
    ensures FirstPlain(environ, key) == Some(ValueOf(environ[k]))
    decreases k
  {
    if k > 0 {
      FirstPlainAt(environ[1..], k - 1, key);
    }
  }

  /** Without an ACC_ entry for a variable, its first plain entry wins and
      later plain entries for it are ignored. */
  lemma FirstPlainWins(environ: seq<string>, k: nat, key: string)
    requires k < |environ| && PlainFor(environ[k], key)
    requires forall j :: 0 <= j < k ==> !PlainFor(environ[j], key)
    requires forall j :: 0 <= j < |environ| ==> !Overrides(environ[j], key)
    ensures Resolved(environ, key) == Some(ValueOf(environ[k]))
  {
    NoOverride(environ, key);
    FirstPlainAt(environ, k, key);
  }

  // ---------------------------------------------------------------------
  // The command line of Run
  // ---------------------------------------------------------------------

  predicate IsFromFlag(arg: string)
  {
    arg == "--from" || arg == "-f"
  }

  /** One `--from tfstate://<path>/terraform.tfstate` pair per path, in order. */
  function FromArgs(paths: seq<string>, pathJoin: (string, string) -> string): (r: seq<string>)
    ensures |r| == 2 * |paths|
    ensures forall k :: 0 <= k < |paths| ==>
      r[2 * k] == "--from" && r[2 * k + 1] == "tfstate://" + pathJoin(paths[k], "terraform.tfstate")
  {
    if paths == [] then []
    else
      var init := paths[..|paths| - 1];
      var r := FromArgs(init, pathJoin) + ["--from", "tfstate://" + pathJoin(paths[|paths| - 1], "terraform.tfstate")];
      assert forall k :: 0 <= k < |init| ==> init[k] == paths[k];
      r
  }

  /** The argument construction of Run: nil arguments stay nil; otherwise an
      empty program name, the case's arguments, `--from` pairs for the
      paths unless an argument already is a from flag, and the output flag
      naming the result file. */
  method BuildRunArgs(args: Option<seq<string>>, paths: seq<string>, resultFilePath: string,
                      pathJoin: (string, string) -> string)
    returns (runArgs: Option<seq<string>>)
    ensures args.None? ==> runArgs == None
    ensures args.Some? ==> runArgs == Some(
      [""] + args.value
      + (if exists a :: a in args.value && IsFromFlag(a) then [] else FromArgs(paths, pathJoin))
      + ["--output", "json://" + resultFilePath])
  {
    if args.None? {
      return None;
    }
    var cArgs := [""] + args.value;
    var isFromSet := false;
    ghost var fromAt := 0;
    for i := 0 to |cArgs|
      invariant !isFromSet
      invariant forall j :: 0 <= j < i ==> !IsFromFlag(cArgs[j])
    {
      if cArgs[i] == "--from" || cArgs[i] == "-f" {
        isFromSet := true;
        fromAt := i;
        break;
      }
    }
    assert isFromSet ==> 0 < fromAt < |cArgs| && IsFromFlag(cArgs[fromAt]);
    assert isFromSet <==> exists a :: a in args.value && IsFromFlag(a) by {
      if isFromSet {
        assert cArgs[fromAt] == args.value[fromAt - 1];
      } else {
        forall a | a in args.value ensures !IsFromFlag(a) {
          var i :| 0 <= i < |args.value| && args.value[i] == a;
          assert cArgs[i + 1] == a;
        }
      }
    }
    var withArgs := cArgs;
    ghost var fromArgs := if isFromSet then [] else FromArgs(paths, pathJoin);
    if !isFromSet {
      for i := 0 to |paths|
        invariant cArgs == withArgs + FromArgs(paths[..i], pathJoin)
      {
        assert paths[..i + 1][..i] == paths[..i];
        cArgs := cArgs + ["--from", "tfstate://" + pathJoin(paths[i], "terraform.tfstate")];
      }
      assert paths[..|paths|] == paths;
    }
    assert cArgs == withArgs + fromArgs;
    cArgs := cArgs + ["--output", "json://" + resultFilePath];
    return Some(cArgs);
  }
}
