/**
 * The decision part of the ResNet launcher's `main`: given the arguments
 * that argparse did not consume and the number of workers per node, decide
 * whether to print help, which command line to spawn (optionally behind
 * mpirun), or to fail.
 *
 * `Launch` is the specification, a function of its inputs; `RunLauncher`
 * is the step-by-step procedure, which mutates the argument list in place
 * the way the script does and is proved to agree with `Launch`.
 *
 * Inputs taken as opaque: the mpirun command string of the hardware
 * configuration (built from the worker count, the node type and the
 * Kubernetes switch), and the absolute path of the training script.
 */
module ResnetLauncher {
  import opened PyStrings
  import opened LarsDefaults

  /** How one run of the launcher ends. */
  datatype Outcome =
    | ShowHelp
      // the usage text is printed and the launcher exits with status 0
    | Spawn(cmd: seq<string>, hierarchicalAllreduce: bool, preloading: bool)
      // `cmd` is run; HOROVOD_HIERARCHICAL_ALLREDUCE is set to "1" when
      // `hierarchicalAllreduce`; the preloading setup runs when `preloading`
    | RuntimeError(message: string)
      // raised before anything is spawned

  const MultiWorkerError: string :=
    "You need to pass either --use_horovod or --distribution_strategy hpu if num_workers_per_hls>1"

  /** `'--help' in args or '-h' in args`: whole elements only. */
  predicate WantsHelp(args: seq<string>)
  {
    "--help" in args || "-h" in args
  }

  /** `'--optimizer LARS' in ' '.join(args)`: a substring of the joined line. */
  predicate UsesLars(args: seq<string>)
  {
    Contains(Join(args, " "), "--optimizer LARS")
  }

  /** `any("--distribution_strategy" in s for s in args)`: a substring of some element. */
  predicate NamesDistributionStrategy(args: seq<string>)
  {
    exists s :: s in args && Contains(s, "--distribution_strategy")
  }

  /** The argument list after the optional LARS update; it is what the command ends with. */
  function Forwarded(args: seq<string>): seq<string>
  {
    if UsesLars(args) then WithLarsDefaults(args) else args
  }

  /** The launcher's decision for worker count `workers` and leftover arguments `args`. */
  function Launch(workers: int, mpirunCmd: string, script: string, args: seq<string>): (r: Outcome)
    ensures r.Spawn? ==>
      |Forwarded(args)| + 2 <= |r.cmd| && r.cmd[|r.cmd| - |Forwarded(args)|..] == Forwarded(args)
    ensures r.Spawn? ==>
      var n := |r.cmd| - |Forwarded(args)|;
      r.cmd[n - 2..n] == ["python3", script] ||
      (n >= 3 && r.cmd[n - 3..n] == ["python3", script, "--use_tf_while_loop=False"])
    ensures r.Spawn? ==>
      (r.hierarchicalAllreduce <==> "--horovod_hierarchical_allreduce" in args) &&
      (r.preloading <==> "--experimental_preloading" in args)
  {
    if WantsHelp(args) then ShowHelp
    else
      var hierarchical := "--horovod_hierarchical_allreduce" in args;
      var preloading := "--experimental_preloading" in args;
      var fwd := Forwarded(args);
      if workers > 1 then
        if "--use_horovod" in fwd then
          Spawn(Split(mpirunCmd, ' ') + ["python3", script] + fwd, hierarchical, preloading)
        else if NamesDistributionStrategy(fwd) then
          Spawn(Split(mpirunCmd, ' ') + ["python3", script, "--use_tf_while_loop=False"] + fwd,
                hierarchical, preloading)
        else
          RuntimeError(MultiWorkerError)
      else
        Spawn(["python3", script] + fwd, hierarchical, preloading)
  }

  /** `main` from the help check to `cmd.extend(unknown_args)`, mutating `unknown` as the script does. */
  method RunLauncher(workers: int, mpirunCmd: string, script: string, unknown: ArgList) returns (r: Outcome)
    modifies unknown
    ensures r == Launch(workers, mpirunCmd, script, old(unknown.items))
    ensures unknown.items == if WantsHelp(old(unknown.items)) then old(unknown.items) else Forwarded(old(unknown.items))
  {
    if "--help" in unknown.items || "-h" in unknown.items {
      return ShowHelp;
    }
    var preloading := "--experimental_preloading" in unknown.items;
    var hierarchical := "--horovod_hierarchical_allreduce" in unknown.items;
    if Contains(Join(unknown.items, " "), "--optimizer LARS") {
      unknown.SetLarsHyperparams();
    }
    var cmd: seq<string>;
    if workers > 1 {
      if "--use_horovod" in unknown.items {
        cmd := Split(mpirunCmd, ' ') + ["python3", script];
      } else if exists s :: s in unknown.items && Contains(s, "--distribution_strategy") {
        cmd := Split(mpirunCmd, ' ') + ["python3", script, "--use_tf_while_loop=False"];
      } else {
        return RuntimeError(MultiWorkerError);
      }
    } else {
      cmd := ["python3", script];
    }
    cmd := cmd + unknown.items;
    return Spawn(cmd, hierarchical, preloading);
  }

  // ---------------------------------------------------------------------------
  // The LARS update does not disturb the launcher's other tests

  /** No LARS key or default value is `--use_horovod` or contains `--distribution_strategy`. */
  lemma LarsStringsAreNeutral(x: string, j: int)
    requires 0 <= j < |LarsTable| && (x == LarsTable[j].key || x in LarsTable[j].values)
    ensures x != "--use_horovod"
    ensures !Contains(x, "--distribution_strategy")
  {
    LarsEntryLengths(j);
    if x == LarsTable[j].key {
      LarsKeyInitial(j);
      NotHorovodByInitial(x);
    } else {
      NotHorovodByLength(x);
    }
    TooLongNotContained(x, "--distribution_strategy");
  }

  /** A string whose third character is not `u` is not `--use_horovod`. */
  lemma NotHorovodByInitial(x: string)
    requires |x| > 2 && x[2] != 'u'
    ensures x != "--use_horovod"
  {
    assert "--use_horovod"[2] == 'u';
  }

  /** A string of at most 10 characters is not `--use_horovod`. */
  lemma NotHorovodByLength(x: string)
    requires |x| <= 10
    ensures x != "--use_horovod"
  {
  }

  /** The LARS keys start with `--` followed by a letter other than `u`. */
  lemma LarsKeyInitial(j: int)
    requires 0 <= j < |LarsTable|
    ensures |LarsTable[j].key| > 2 && LarsTable[j].key[2] != 'u'
  {
  }

  /** Whether the command uses Horovod or a distribution strategy is the same before and after the LARS update. */
  lemma ForwardedKeepsSelection(args: seq<string>)
    ensures "--use_horovod" in Forwarded(args) <==> "--use_horovod" in args
    ensures NamesDistributionStrategy(Forwarded(args)) <==> NamesDistributionStrategy(args)
  {
    var fwd := Forwarded(args);
    WithLarsDefaultsOnlyAppends(args);
    assert args <= fwd;
    forall x | x in fwd[|args|..]
      ensures x != "--use_horovod" && !Contains(x, "--distribution_strategy")
    {
      if UsesLars(args) {
        WithLarsDefaultsAddsOnlyTableStrings(args, x);
        var j :| 0 <= j < |LarsTable| && (x == LarsTable[j].key || x in LarsTable[j].values);
        LarsStringsAreNeutral(x, j);
      }
    }
    assert fwd == args + fwd[|args|..];
    forall s | s in fwd ensures s in args || s in fwd[|args|..] { }
  }

  // ---------------------------------------------------------------------------
  // The decision, branch by branch

  /** Help is shown exactly when `--help` or `-h` is an element, before anything else is decided. */
  lemma LaunchHelp(workers: int, mpirunCmd: string, script: string, args: seq<string>)
    ensures Launch(workers, mpirunCmd, script, args) == ShowHelp <==> WantsHelp(args)
  {
  }

  /** The forwarded arguments are the caller's, followed by the LARS defaults only when LARS is selected. */
  lemma ForwardedArgs(args: seq<string>)
    ensures args <= Forwarded(args)
    ensures !UsesLars(args) ==> Forwarded(args) == args
    ensures UsesLars(args) ==> Forwarded(args) == WithLarsDefaults(args)
    ensures Forwarded(args) == args <==> !UsesLars(args) || forall d :: d in LarsTable ==> d.key in args
  {
    WithLarsDefaultsOnlyAppends(args);
    if UsesLars(args) {
      if forall d :: d in LarsTable ==> d.key in args {
        AddDefaultsNoOp(args, LarsTable);
      } else {
        var d :| d in LarsTable && d.key !in args;
        assert d.key in WithLarsDefaults(args) by {
          AddDefaultsKeysPresent(args, LarsTable);
        }
      }
    }
  }

  /** Appending arguments never undoes the LARS selection. */
  lemma UsesLarsExtends(args: seq<string>, more: seq<string>)
    requires UsesLars(args)
    ensures UsesLars(args + more)
  {
    if |args| == 0 {
      TooLongNotContained("", "--optimizer LARS");
    } else if |more| == 0 {
      assert args + more == args;
    } else {
      JoinConcat(args, more, " ");
      ContainsBefore(Join(args, " "), " " + Join(more, " "), "--optimizer LARS");
      assert Join(args + more, " ") == Join(args, " ") + (" " + Join(more, " "));
    }
  }

  /** Forwarding is stable: the forwarded list, forwarded again, is unchanged. */
  lemma ForwardedIdempotent(args: seq<string>)
    ensures Forwarded(Forwarded(args)) == Forwarded(args)
  {
    if UsesLars(args) {
      WithLarsDefaultsOnlyAppends(args);
      WithLarsDefaultsIdempotent(args);
      UsesLarsExtends(args, Appended(args, LarsTable));
    }
  }

  /** With at most one worker the command is `python3 script` followed by the forwarded arguments. */
  lemma LaunchSingleWorker(workers: int, mpirunCmd: string, script: string, args: seq<string>)
    requires !WantsHelp(args) && workers <= 1
    ensures Launch(workers, mpirunCmd, script, args) ==
      Spawn(["python3", script] + Forwarded(args),
            "--horovod_hierarchical_allreduce" in args, "--experimental_preloading" in args)
  {
  }

  /** With several workers, `--use_horovod` as an element selects plain mpirun, whatever else is present. */
  lemma LaunchHorovod(workers: int, mpirunCmd: string, script: string, args: seq<string>)
    requires !WantsHelp(args) && workers > 1 && "--use_horovod" in args
    ensures var r := Launch(workers, mpirunCmd, script, args);
      r.Spawn? && r.cmd == Split(mpirunCmd, ' ') + ["python3", script] + Forwarded(args) &&
      (r.hierarchicalAllreduce <==> "--horovod_hierarchical_allreduce" in args) &&
      (r.preloading <==> "--experimental_preloading" in args)
  {
    ForwardedKeepsSelection(args);
  }

  /** Failing that, an element containing `--distribution_strategy` selects mpirun without TF while loops. */
  lemma LaunchDistributionStrategy(workers: int, mpirunCmd: string, script: string, args: seq<string>)
    requires !WantsHelp(args) && workers > 1 && "--use_horovod" !in args
    requires NamesDistributionStrategy(args)
    ensures var r := Launch(workers, mpirunCmd, script, args);
      r.Spawn? && r.cmd == Split(mpirunCmd, ' ') + ["python3", script, "--use_tf_while_loop=False"] + Forwarded(args) &&
      (r.hierarchicalAllreduce <==> "--horovod_hierarchical_allreduce" in args) &&
      (r.preloading <==> "--experimental_preloading" in args)
  {
    ForwardedKeepsSelection(args);
  }

  /** The launcher fails exactly when several workers are asked for with neither Horovod nor a distribution strategy. */
  lemma LaunchFails(workers: int, mpirunCmd: string, script: string, args: seq<string>)
    ensures Launch(workers, mpirunCmd, script, args).RuntimeError? <==>
      !WantsHelp(args) && workers > 1 && "--use_horovod" !in args && !NamesDistributionStrategy(args)
    ensures Launch(workers, mpirunCmd, script, args).RuntimeError? ==>
      Launch(workers, mpirunCmd, script, args).message == MultiWorkerError
  {
    ForwardedKeepsSelection(args);
  }

  /** Behind mpirun, the leading tokens of the command, joined with spaces, give back the mpirun command. */
  lemma LaunchKeepsMpirunCommand(workers: int, mpirunCmd: string, script: string, args: seq<string>)
    requires !WantsHelp(args) && workers > 1
    requires "--use_horovod" in args || NamesDistributionStrategy(args)
    ensures var r := Launch(workers, mpirunCmd, script, args);
      var n := |Split(mpirunCmd, ' ')|;
      r.Spawn? && n <= |r.cmd| && Join(r.cmd[..n], " ") == mpirunCmd
  {
    ForwardedKeepsSelection(args);
    var r := Launch(workers, mpirunCmd, script, args);
    var tokens := Split(mpirunCmd, ' ');
    assert r.cmd[..|tokens|] == tokens;
    JoinSplit(mpirunCmd, ' ');
  }

  // ---------------------------------------------------------------------------
  // Element membership against substring tests

  /** `--use_horovod=True` is not the element `--use_horovod`: alone it makes a multi-worker run fail. */
  lemma HorovodNeedsExactElement(workers: int, mpirunCmd: string, script: string)
    requires workers > 1
    ensures Launch(workers, mpirunCmd, script, ["--use_horovod=True"]).RuntimeError?
  {
    var args := ["--use_horovod=True"];
    assert |args[0]| == 18;
    assert "--use_horovod" !in args && !WantsHelp(args);
    TooLongNotContained(args[0], "--distribution_strategy");
    assert forall s :: s in args ==> s == args[0];
    LaunchFails(workers, mpirunCmd, script, args);
  }

  /** `--distribution_strategy=hpu` is matched as a substring and selects the distribution-strategy command. */
  lemma DistributionStrategyBySubstring(workers: int, mpirunCmd: string, script: string)
    requires workers > 1
    ensures var args := ["--distribution_strategy=hpu"];
      var r := Launch(workers, mpirunCmd, script, args);
      r.Spawn? && r.cmd == Split(mpirunCmd, ' ') + ["python3", script, "--use_tf_while_loop=False"] + Forwarded(args)
  {
    var args := ["--distribution_strategy=hpu"];
    assert "--distribution_strategy" <= args[0];
    assert Contains(args[0], "--distribution_strategy");
    assert args[0] in args;
    LaunchDistributionStrategy(workers, mpirunCmd, script, args);
  }

  /** `--optimizer` followed by `LARS` as the next element selects the LARS defaults. */
  lemma LarsAsTwoElements(args: seq<string>, i: nat)
    requires i + 1 < |args| && args[i] == "--optimizer" && args[i + 1] == "LARS"
    ensures UsesLars(args) && Forwarded(args) == WithLarsDefaults(args)
  {
    JoinContainsNeighbours(args, " ", i);
    assert args[i] + " " + args[i + 1] == "--optimizer LARS";
  }

  /** So does one element that contains `--optimizer LARS`, space included. */
  lemma LarsInOneElement(args: seq<string>, i: nat)
    requires i < |args| && Contains(args[i], "--optimizer LARS")
    ensures UsesLars(args) && Forwarded(args) == WithLarsDefaults(args)
  {
    JoinContainsPart(args, " ", i);
    ContainsTransitive(Join(args, " "), args[i], "--optimizer LARS");
  }

  /**
   * A LARS key given in `--key=value` form is not the element `--key`, so the
   * default is still appended after the caller's own setting.
   */
  lemma LarsKeyNeedsExactElement(args: seq<string>)
    requires args == ["--optimizer", "LARS", "--base_learning_rate=5"]
    ensures args <= Forwarded(args)
    ensures exists i :: |args| <= i && EntryAt(Forwarded(args), Default("--base_learning_rate", ["9.5"]), i)
  {
    LarsAsTwoElements(args, 0);
    BaseLearningRateKeyAbsent(args);
    WithLarsDefaultsOnlyAppends(args);
    WithLarsDefaultsAddsMissingKey(args, 0);
  }

  /** None of the three elements is `--base_learning_rate` itself: their lengths differ from its 20 characters. */
  lemma BaseLearningRateKeyAbsent(args: seq<string>)
    requires args == ["--optimizer", "LARS", "--base_learning_rate=5"]
    ensures LarsTable[0].key !in args
  {
    assert LarsTable[0].key == "--base_learning_rate";
    assert |args[0]| == 11 && |args[1]| == 4 && |args[2]| == 22;
    forall s | s in args ensures |s| != 20 { }
  }

  /** `--optimizer=LARS` does not contain `--optimizer LARS`, so it alone forwards the arguments unchanged. */
  lemma LarsWithEqualsSignNotDetected()
    ensures !UsesLars(["--optimizer=LARS"])
    ensures Forwarded(["--optimizer=LARS"]) == ["--optimizer=LARS"]
  {
    var s := "--optimizer=LARS";
    assert Join([s], " ") == s;
    assert s[11] != "--optimizer LARS"[11];
    assert !("--optimizer LARS" <= s);
    TooLongNotContained(s[1..], "--optimizer LARS");
  }
}
