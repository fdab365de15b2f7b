# ResNet Keras launcher: argument forwarding and command selection

`demo_resnet_keras.py` is a launcher for the ResNet training script. It
takes the arguments argparse did not consume (`unknown_args`) and the
number of workers per node (`--num_workers_per_hls`). From these it
decides one of three outcomes:

- it prints help and exits with status 0;
- it raises a `RuntimeError`;
- it spawns `python3 <script> <args>`, possibly behind an `mpirun`
  command.

When the joined arguments mention `--optimizer LARS`, it first appends a
fixed set of LARS hyperparameter defaults to `unknown_args` in place
(`set_lars_hyperparams`). Each default is appended only when its key is
not already an element of the list.

This project models that logic in three modules:

- `PyStrings` (`pystrings.dfy`) models the Python string operations the
  launcher uses, with their CPython semantics:
  - `needle in s` on strings (`Contains`), proved equal to "occurs at
    some offset";
  - `' '.join` (`Join`);
  - `str.split(" ")` (`Split`).
  Split and join are proved to be inverse to each other.
- `LarsDefaults` (`lars_defaults.dfy`) covers `set_lars_hyperparams`:
  - The defaults are a table of `Default(key, values)` entries.
  - `AddDefaults` specifies the guarded appends: one entry after the
    other, each entry seeing the list the earlier ones left.
  - `ArgList` is the mutable argument list. Its `SetLarsHyperparams`
    method performs the six guarded appends in place and is proved to
    equal `WithLarsDefaults(old(items))`.
- `ResnetLauncher` (`launcher.dfy`) covers `main` from the help check to
  `cmd.extend(unknown_args)`:
  - `Launch` is the decision as a function of its inputs. It returns
    `ShowHelp`, `RuntimeError(message)` or `Spawn(cmd, hierarchicalAllreduce, preloading)`.
  - `RunLauncher` follows the script step by step, mutating the
    `ArgList` in place, and is proved to agree with `Launch`.

The model keeps apart the two kinds of test the script makes:

- Whole-element membership: `'--use_horovod' in unknown_args`, the help
  flags, and each LARS key.
- Substring tests: `'--optimizer LARS' in ' '.join(unknown_args)` and
  `"--distribution_strategy" in s` for each element `s`.

Several lemmas pin down the consequences of this difference:

- `--use_horovod=True` does not select Horovod.
- `--distribution_strategy=hpu` does select a distribution strategy.
- `--optimizer LARS` is detected both as two adjacent elements and as a
  single element.
- `--optimizer=LARS` is not detected.
- A LARS key given as `--base_learning_rate=5` is not the element
  `--base_learning_rate`. So `--base_learning_rate 9.5` is still appended
  after the caller's own setting.

Inputs taken as opaque:

- the mpirun command string of the hardware configuration (`mpirunCmd`).
  Its `split(" ")` is modelled.
- the absolute path of the training script (`script`).
- the already-parsed `num_workers_per_hls` (`workers`).

## Model

| member | source | states |
|---|---|---|
| PyStrings.Contains | TensorFlow/computer_vision/Resnets/resnet_keras/demo_resnet_keras.py:84-93 | Python's `needle in s` on two strings, a substring test; proved equal to "occurs at some offset" in `ContainsIffOccurs` |
| PyStrings.Join | TensorFlow/computer_vision/Resnets/resnet_keras/demo_resnet_keras.py:84 | Python's `sep.join(parts)`: the parts with `sep` between neighbours, `""` for no parts; its substring properties are in `JoinContainsNeighbours` and `JoinContainsPart`, and its round trip with `Split` in `JoinSplit` and `SplitJoin` |
| PyStrings.Split | TensorFlow/computer_vision/Resnets/resnet_keras/demo_resnet_keras.py:92-97 | CPython `s.split(sep)` with a one-character separator: empty fields are kept and `""` splits to `[""]`, so the result is never empty; round trip in `JoinSplit` and `SplitJoin` |
| PyStrings.ContainsIffOccurs | TensorFlow/computer_vision/Resnets/resnet_keras/demo_resnet_keras.py:93 | Python's substring test `needle in s` holds exactly when `needle` occurs in `s` at some offset |
| PyStrings.JoinContainsNeighbours | TensorFlow/computer_vision/Resnets/resnet_keras/demo_resnet_keras.py:84 | in `sep.join(parts)`, every part followed by the separator and the next part is a substring |
| PyStrings.JoinContainsPart | TensorFlow/computer_vision/Resnets/resnet_keras/demo_resnet_keras.py:84 | every element of a list is a substring of the list's join |
| PyStrings.SplitFieldsHaveNoSeparator | TensorFlow/computer_vision/Resnets/resnet_keras/demo_resnet_keras.py:92 | no token produced by `mpirun_cmd.split(" ")` contains a space |
| PyStrings.JoinSplit | TensorFlow/computer_vision/Resnets/resnet_keras/demo_resnet_keras.py:92 | joining the tokens of `s.split(" ")` with spaces gives back `s` exactly, empty tokens included |
| PyStrings.SplitJoin | TensorFlow/computer_vision/Resnets/resnet_keras/demo_resnet_keras.py:92 | a non-empty list of space-free tokens is recovered by splitting its space-join |
| LarsDefaults.WithDefault | TensorFlow/computer_vision/Resnets/resnet_keras/demo_resnet_keras.py:15-26 | one guarded `extend` (or `append` when there is no value): the key and its values are appended unless the key is already an element; in place as `ArgList.ExtendIfMissing` |
| LarsDefaults.AddDefaults | TensorFlow/computer_vision/Resnets/resnet_keras/demo_resnet_keras.py:14-26 | the guarded appends of a table in order, each seeing the list the previous ones left; its promises are in the `AddDefaults…` lemmas below |
| LarsDefaults.WithLarsDefaults | TensorFlow/computer_vision/Resnets/resnet_keras/demo_resnet_keras.py:14-26 | `set_lars_hyperparams` on the six LARS entries; in place as `ArgList.SetLarsHyperparams`, and its promises are in the `WithLarsDefaults…` lemmas below |
| LarsDefaults.AddDefaultsExtends | TensorFlow/computer_vision/Resnets/resnet_keras/demo_resnet_keras.py:14-26 | the guarded appends only append: the original list is a prefix of the result |
| LarsDefaults.AddDefaultsKeysPresent | TensorFlow/computer_vision/Resnets/resnet_keras/demo_resnet_keras.py:15-26 | afterwards every key of the table is an element of the list |
| LarsDefaults.AddDefaultsNoOp | TensorFlow/computer_vision/Resnets/resnet_keras/demo_resnet_keras.py:15-26 | when every key is already an element, the list is unchanged |
| LarsDefaults.AddDefaultsIdempotent | TensorFlow/computer_vision/Resnets/resnet_keras/demo_resnet_keras.py:14-26 | applying the guarded appends twice equals applying them once |
| LarsDefaults.AddDefaultsAppends | TensorFlow/computer_vision/Resnets/resnet_keras/demo_resnet_keras.py:14-26 | with distinct keys that never occur as values, the result is the original list followed by `Appended`: `[key] + values` for exactly the entries whose key the caller did not supply, in table order |
| LarsDefaults.AppendedOrigin | TensorFlow/computer_vision/Resnets/resnet_keras/demo_resnet_keras.py:15-26 | every appended string is the key or a value of an entry whose key was missing |
| LarsDefaults.PresentKeyNotAppended | TensorFlow/computer_vision/Resnets/resnet_keras/demo_resnet_keras.py:15-26 | a key the caller supplied is never appended |
| LarsDefaults.AppendedSize | TensorFlow/computer_vision/Resnets/resnet_keras/demo_resnet_keras.py:14-26 | at most the table's size is appended, and exactly its size when no key was supplied |
| LarsDefaults.MissingKeyAppended | TensorFlow/computer_vision/Resnets/resnet_keras/demo_resnet_keras.py:15-26 | a missing key is appended and is immediately followed by its values |
| LarsDefaults.LarsTableIndependent | TensorFlow/computer_vision/Resnets/resnet_keras/demo_resnet_keras.py:15-26 | the six LARS keys are distinct and none of them is a default value |
| LarsDefaults.LarsTableSize | TensorFlow/computer_vision/Resnets/resnet_keras/demo_resnet_keras.py:15-26 | the LARS table has five key/value pairs and one bare flag, 11 strings in all |
| LarsDefaults.WithLarsDefaultsOnlyAppends | TensorFlow/computer_vision/Resnets/resnet_keras/demo_resnet_keras.py:14-26 | `set_lars_hyperparams` keeps the caller's list as a prefix and appends only `Appended` |
| LarsDefaults.WithLarsDefaultsKeysPresent | TensorFlow/computer_vision/Resnets/resnet_keras/demo_resnet_keras.py:15-26 | afterwards `--base_learning_rate`, `--warmup_epochs`, `--lr_schedule`, `--label_smoothing`, `--weight_decay` and `--single_l2_loss_op` are all elements |
| LarsDefaults.WithLarsDefaultsKeepsSuppliedKey | TensorFlow/computer_vision/Resnets/resnet_keras/demo_resnet_keras.py:15-26 | a LARS key the caller supplied keeps the caller's value and does not occur in the appended part |
| LarsDefaults.WithLarsDefaultsAddsMissingKey | TensorFlow/computer_vision/Resnets/resnet_keras/demo_resnet_keras.py:15-26 | a missing LARS key appears after the caller's list, immediately followed by its default (e.g. `--base_learning_rate`, `9.5`) |
| LarsDefaults.WithLarsDefaultsIdempotent | TensorFlow/computer_vision/Resnets/resnet_keras/demo_resnet_keras.py:14-26 | `set_lars_hyperparams` is idempotent |
| LarsDefaults.WithLarsDefaultsGrowth | TensorFlow/computer_vision/Resnets/resnet_keras/demo_resnet_keras.py:14-26 | the list grows by at most 11 strings, and by exactly 11 when no LARS key was supplied |
| LarsDefaults.WithLarsDefaultsAddsOnlyTableStrings | TensorFlow/computer_vision/Resnets/resnet_keras/demo_resnet_keras.py:15-26 | every appended string is a LARS key or a LARS default value |
| LarsDefaults.ArgList.ExtendIfMissing | TensorFlow/computer_vision/Resnets/resnet_keras/demo_resnet_keras.py:15-16 | `if key not in items: items.extend([key] + values)`, in place; the old list stays a prefix |
| LarsDefaults.ArgList.SetLarsHyperparams | TensorFlow/computer_vision/Resnets/resnet_keras/demo_resnet_keras.py:14-26 | the six in-place guarded appends leave exactly `WithLarsDefaults` of the old list |
| ResnetLauncher.WantsHelp | TensorFlow/computer_vision/Resnets/resnet_keras/demo_resnet_keras.py:36 | `'--help' in unknown_args or '-h' in unknown_args`, element tests; used by `LaunchHelp` |
| ResnetLauncher.UsesLars | TensorFlow/computer_vision/Resnets/resnet_keras/demo_resnet_keras.py:84 | `'--optimizer LARS' in ' '.join(unknown_args)`, a substring test on the space-joined list; its behaviour is in `LarsAsTwoElements`, `LarsInOneElement`, `LarsWithEqualsSignNotDetected` and `UsesLarsExtends` |
| ResnetLauncher.NamesDistributionStrategy | TensorFlow/computer_vision/Resnets/resnet_keras/demo_resnet_keras.py:93 | `any("--distribution_strategy" in s for s in unknown_args)`, a substring test per element; its behaviour is in `DistributionStrategyBySubstring` and `ForwardedKeepsSelection` |
| ResnetLauncher.Forwarded | TensorFlow/computer_vision/Resnets/resnet_keras/demo_resnet_keras.py:84-85 | the argument list after the LARS step: the LARS defaults added when `UsesLars` holds, else the list as given; its promises are in `ForwardedArgs` and `ForwardedIdempotent` |
| ResnetLauncher.Launch | TensorFlow/computer_vision/Resnets/resnet_keras/demo_resnet_keras.py:36-103 | in every spawned command, the forwarded arguments are the unchanged suffix. Immediately before them stand `python3` and the script, possibly followed by `--use_tf_while_loop=False`. The hierarchical-allreduce and preloading flags of a spawn are set exactly when `--horovod_hierarchical_allreduce` and `--experimental_preloading` are elements of the arguments |
| ResnetLauncher.RunLauncher | TensorFlow/computer_vision/Resnets/resnet_keras/demo_resnet_keras.py:36-103 | the step-by-step `main` returns exactly `Launch` of the original arguments, and leaves `unknown_args` as the forwarded list (untouched when help is shown) |
| ResnetLauncher.LarsStringsAreNeutral | TensorFlow/computer_vision/Resnets/resnet_keras/demo_resnet_keras.py:15-26 | no LARS key or value is `--use_horovod` or contains `--distribution_strategy` |
| ResnetLauncher.ForwardedKeepsSelection | TensorFlow/computer_vision/Resnets/resnet_keras/demo_resnet_keras.py:84-93 | the tests at lines 88 and 93 give the same answer before and after the LARS update |
| ResnetLauncher.LaunchHelp | TensorFlow/computer_vision/Resnets/resnet_keras/demo_resnet_keras.py:36-73 | help is shown exactly when `--help` or `-h` is an element, whatever the worker count |
| ResnetLauncher.ForwardedArgs | TensorFlow/computer_vision/Resnets/resnet_keras/demo_resnet_keras.py:84-85 | the caller's arguments are a prefix of the forwarded ones. Without `--optimizer LARS` in the joined line they are forwarded exactly; with it they get the LARS defaults. They are unchanged exactly when LARS is not selected or every LARS key was already supplied |
| ResnetLauncher.UsesLarsExtends | TensorFlow/computer_vision/Resnets/resnet_keras/demo_resnet_keras.py:84 | appending arguments never removes `--optimizer LARS` from the joined line |
| ResnetLauncher.ForwardedIdempotent | TensorFlow/computer_vision/Resnets/resnet_keras/demo_resnet_keras.py:84-85 | forwarding the forwarded arguments again changes nothing |
| ResnetLauncher.LaunchSingleWorker | TensorFlow/computer_vision/Resnets/resnet_keras/demo_resnet_keras.py:100-103 | with `num_workers_per_hls <= 1` and no help flag, the command is `["python3", script]` followed by the forwarded arguments |
| ResnetLauncher.LaunchHorovod | TensorFlow/computer_vision/Resnets/resnet_keras/demo_resnet_keras.py:87-92 | with several workers and `--use_horovod` an element, the command is the mpirun tokens, `python3`, the script, then the forwarded arguments, even when a distribution strategy is also given. Its hierarchical-allreduce and preloading flags are set exactly when those flags are elements |
| ResnetLauncher.LaunchDistributionStrategy | TensorFlow/computer_vision/Resnets/resnet_keras/demo_resnet_keras.py:93-97 | otherwise, when some element contains `--distribution_strategy`, the command is the mpirun tokens, `python3`, the script, `--use_tf_while_loop=False`, then the forwarded arguments. Its hierarchical-allreduce and preloading flags are set exactly when those flags are elements |
| ResnetLauncher.LaunchFails | TensorFlow/computer_vision/Resnets/resnet_keras/demo_resnet_keras.py:87-99 | a `RuntimeError` with the script's message is raised exactly when there is no help flag, there are several workers, and neither test holds |
| ResnetLauncher.LaunchKeepsMpirunCommand | TensorFlow/computer_vision/Resnets/resnet_keras/demo_resnet_keras.py:92-97 | behind mpirun, the command's leading tokens joined with spaces give back the mpirun command string |
| ResnetLauncher.HorovodNeedsExactElement | TensorFlow/computer_vision/Resnets/resnet_keras/demo_resnet_keras.py:88 | `--use_horovod=True` alone, with several workers, is an error: it is not the element `--use_horovod` |
| ResnetLauncher.DistributionStrategyBySubstring | TensorFlow/computer_vision/Resnets/resnet_keras/demo_resnet_keras.py:93 | `--distribution_strategy=hpu` selects the distribution-strategy command, because line 93 is a substring test |
| ResnetLauncher.LarsAsTwoElements | TensorFlow/computer_vision/Resnets/resnet_keras/demo_resnet_keras.py:84 | `--optimizer` immediately followed by the element `LARS` selects the LARS defaults |
| ResnetLauncher.LarsInOneElement | TensorFlow/computer_vision/Resnets/resnet_keras/demo_resnet_keras.py:84 | a single element containing `--optimizer LARS` also selects them |
| ResnetLauncher.LarsKeyNeedsExactElement | TensorFlow/computer_vision/Resnets/resnet_keras/demo_resnet_keras.py:15-16 | with `--optimizer LARS --base_learning_rate=5`, the caller's arguments are kept as a prefix and `--base_learning_rate 9.5` is still appended after them |
| ResnetLauncher.BaseLearningRateKeyAbsent | TensorFlow/computer_vision/Resnets/resnet_keras/demo_resnet_keras.py:15 | in that list, `--base_learning_rate` is not an element, so the membership test sees the key as missing |
| ResnetLauncher.LarsWithEqualsSignNotDetected | TensorFlow/computer_vision/Resnets/resnet_keras/demo_resnet_keras.py:84 | `--optimizer=LARS` alone does not select them, and the arguments are forwarded unchanged |

## Left out

- `PyTorch/nlp/DeepSpeedExamples/Megatron-DeepSpeed/megatron/model/fused_layer_norm.py`, in full. It passes floating-point tensors to a foreign fused layer-norm kernel or to the framework's `layer_norm`, so there is no logic of its own to state.
- argparse (`parse_known_args`, lines 29-33). Its results are inputs: `workers` and the leftover list. `--hls_type` and `--kubernetes_run` only reach the hardware configuration, which is folded into the opaque `mpirunCmd`.
- `TrainingRunHWConfig` and how it builds `mpirun_cmd` (lines 89-91, 94-96). The command string is an opaque input; its `split(" ")` is modelled.
- The script path computation with `os.path` (line 34). `script` is an opaque string.
- `setup_jemalloc` and `setup_preloading` (lines 76-79). These are foreign calls with environment side effects. The model only records whether preloading is requested (`preloading`).
- Setting `HOROVOD_HIERARCHICAL_ALLREDUCE` (lines 81-82). It becomes the boolean `hierarchicalAllreduce` of a spawned run. When a `RuntimeError` follows, the environment change and the preloading setup have already happened; the `RuntimeError` outcome does not record them.
- The help text itself, `print`, and `subprocess.run` with its exit status (lines 37-72, 104-106). These are I/O.
