# lazymc-k8s scale controller, modelled in Dafny

lazymc-k8s is a sidecar that lazymc starts when a client connects. It scales
one Kubernetes Deployment up to an "active" replica count when it starts. On
SIGTERM it scales the Deployment back down to a "sleeping" count and waits for
the scheduler to confirm. This project models the three decisions in
`src/main.py` and proves what they promise:

- **Configuration resolution** (`get_config`), in `config.dfy`. The
  environment is a `map<string, string>` and the namespace file's content is an
  `Option<string>`. The result is a configuration or one of the errors
  `NotInCluster` (the namespace file is missing) and
  `MissingSetting("LAZYMC_K8S_DEPLOYMENT_NAME")`. `text.dfy` models the Python
  string operations it uses: `strip()` with Python's white-space set, `lower()`,
  and reading a decimal count.
- **Startup reconciliation**, in `controller.dfy`. The controller reads the
  scale, and patches it to the maximum only when the desired count differs.
- **The termination handler**, in `controller.dfy`. It reads the scale, patches
  it to the minimum, then polls the observed count. It exits 0 at the first
  poll that shows the minimum. Otherwise it sleeps 5 seconds after each poll
  and exits 1 once `wait_time` reaches 120, which is after 24 polls.

The cluster API is an abstract trace. Reads are answered in order from a
sequence of `Scale(desired, observed)` values. A read past the end of that
sequence is a read that raised. Nothing catches that exception, so the process
ends (`Raised`). Every read, patch and sleep is recorded in a `seq<Call<V>>`.
`ReadCount`, `Elapsed` and `Writes` give the number of reads, the seconds slept
and the patched counts, in order. `sys.exit(n)` is the outcome `Exit(n)`.

### Replica counts: as written and corrected

`os.getenv(name, default)` returns the integer default only when the variable
is unset. When it is set, it returns the variable's text. The source never
converts that text to a number. The model keeps both readings:

- *As written*: `Config.ResolveAsWritten` yields a
  `ReplicaSetting = Default(nat) | Text(string)`. `Config.SameCount` is Python's
  `==` between an `int` and that setting, and it is false for every text.
  `Controller.ReconcileAsWritten` and `Controller.HandleTerminationAsWritten`
  use this comparison.
- *Corrected*: `Config.Resolve` reads each count as a number. This is what
  `int(os.getenv(...))` at lines 49-50 would do. It accepts white space around
  a non-empty run of ASCII digits. Anything else gives the error
  `BadReplicaCount`. Errors come in the order the source reads its inputs:
  namespace file, minimum, maximum, deployment name. `Controller.Start`,
  `Controller.HandleTermination` and `Controller.Run` use this configuration.

The two problems this causes are listed under "## Findings".
`Config.ResolveRefinesAsWritten` proves that the corrected resolver agrees
with the as-written one whenever it succeeds.

### Where the program's own text and its code disagree (the code is followed)

- The module docstring (lines 15-18) calls the two settings a "Number of
  replicas". The code keeps them as text when they are set (see above).
- The docstring's list of log level names (lines 19-20) leaves out `error`,
  but the table at lines 59-65 accepts it. In that table, `error` and `fatal`
  map to the *functions* `logging.error` and `logging.fatal`
  (`Config.ErrorCallable` and `Config.FatalCallable`), not to severities. The
  resolved level is never applied, because line 79 always configures DEBUG.
- The comment at line 96 says the handler scales the replicas to 0. It scales
  to the configured minimum, which the model follows. The code also reads the
  scale object (line 98) before it patches it. The model records that read, and
  a failure of that read means no patch is ever sent.

## Model

| member | source | states |
|---|---|---|
| PyText.StripPadded | src/main.py:58 | `strip()` removes exactly the white space around a trimmed word and nothing of the word itself |
| PyText.ParseCountRoundTrip | src/main.py:49-50 | the decimal spelling of a count, with any white space around it, reads back as that count (corrected reading of the count variables) |
| PyText.Lower | src/main.py:58 | lowering keeps the length, leaves no ASCII capital behind, leaves every character that is not an ASCII capital unchanged, and moves each capital to the letter at the same offset from `a`; `PyText.LowerIdempotent` shows a second lowering changes nothing, `PyText.LowerConcat` that it works piecewise, `PyText.LowerSpace` that white space is untouched |
| Config.LevelNamed | src/main.py:59-72 | the level table with its INFO fallback: debug, warning, error and fatal each select their own entry exactly when the key is that word, and every other key, `info` included, selects INFO |
| Config.LogLevelOf | src/main.py:58-72 | an unset level variable gives INFO; INFO is chosen exactly when the lower-cased, stripped value is none of debug, warning, error, fatal |
| Config.LogLevelIgnoresCaseAndSpace | src/main.py:58-72 | any capitalisation of a level name, padded with any white space, selects that name's table entry |
| Config.ResolveAsWritten | src/main.py:35-73 | a missing namespace file gives NotInCluster whatever else is set; otherwise a missing deployment name gives MissingSetting; success exactly when both are present, carrying the file content, the name, the raw count settings and the level |
| Config.SameCount | src/main.py:112 | Python `==` between the integer replica count a read returns and a setting: true exactly when the setting is that same integer default, and never for a text setting |
| Config.TextSettingMatchesNoCount | src/main.py:49-50 | as written, once the minimum variable is set, no replica count compares equal to the minimum |
| Config.CountSetting | src/main.py:49-50 | corrected count reading: the default when unset; when set, success exactly when the text reads as a count, with that count; otherwise BadReplicaCount naming the variable and its text |
| Config.Resolve | src/main.py:35-73 | a missing namespace file gives NotInCluster; otherwise an unreadable minimum gives BadReplicaCount for the minimum, then an unreadable maximum gives BadReplicaCount for the maximum, then an unset name gives MissingSetting; success exactly when the file is present, the name is set and both counts read, carrying the file content, the name, exactly the counts read from the two variables (0 and 1 when unset) and the level |
| Config.ResolveDefaults | src/main.py:49-72 | with only the deployment name set, the configuration has 0 and 1 replicas and INFO |
| Config.ResolveReadsDecimalCounts | src/main.py:49-50 | counts written in decimal, each with its own white space around it, are read back exactly |
| Config.ResolveRefinesAsWritten | src/main.py:35-73 | when the corrected resolver succeeds, the as-written one succeeds with the same namespace, name and level, and with settings denoting the same counts; when the as-written one fails, so does the corrected one |
| Controller.Reconcile | src/main.py:134-143 | at most one patch; a patch exactly when the desired count differs from the maximum; any patch carries the maximum |
| Controller.ReconcileConverges | src/main.py:134-143 | after reconciling, the deployment is asked for the maximum, and reconciling again patches nothing |
| Controller.ReconcileAsWritten | src/main.py:134-143 | as written, a patch exactly when the desired count is not Python-equal to the maximum setting; a text maximum is always patched |
| Controller.TextMaximumAlwaysPatches | src/main.py:138 | as written, a deployment already at the maximum given as text is patched anyway; the corrected reconcile patches nothing there |
| Controller.Start | src/main.py:85-143 | a configuration error stops startup before any client call, with that error; otherwise startup reads once, sleeps never, patches at most once, patches exactly when the desired count differs from the maximum, and leaves the maximum requested |
| Controller.ConfirmScaleDown | src/main.py:106-125 | between 1 and 24 reads, never a patch, `wait_time` equal to the seconds slept and at most 120; the calls alternate read, 5-second sleep, read, and so on, ending on the last read (or on the sleep after the 24th read at timeout); exit 0 only right after the first confirming read, with 5 seconds per earlier read; exit 1 only after 24 unconfirmed reads and 120 seconds; a raised read only when every earlier answer was unconfirmed |
| Controller.HandleTermination | src/main.py:94-128 | a failed first read means no patch; otherwise exactly one patch, to the minimum, right after the first read and before any confirmation read, after which reads and 5-second sleeps alternate; exit 0 exactly when one of the first 24 confirmation reads shows the minimum, and then after k+1 reads and 5(k-1) seconds for the first such k; exit 1 exactly when 24 confirmation reads all differ, after 120 seconds; never more than 25 reads or 120 seconds |
| Controller.HandleTerminationAsWritten | src/main.py:94-128 | the same handler with the minimum as the source holds it: exactly one patch to the minimum setting, then alternating reads and 5-second sleeps; exit 0 exactly when a confirmation read is Python-equal to the setting; with a text minimum it never exits 0 and, given 24 answers, exits 1 after 120 seconds |
| Controller.Run | src/main.py:76-158 | a configuration error ends the process before any client call; otherwise the last requested count is the minimum once the handler has patched (the maximum if its first read failed), at most two patches are sent, at most 120 seconds are slept, and exit 0 happens exactly when a confirmation read shows the minimum |

## Left out

- Cluster client setup (`load_incluster_config`, `AppsV1Api`, lines 82-83): a foreign library. Its reads are abstracted as the answer sequence and its patches as trace entries. A patch never fails in the model, and the startup read always answers with the given desired count.
- Signal registration (line 131), the indefinite `Event().wait()` (line 147) and handler re-entrancy are OS and concurrency plumbing. `Controller.Run` assumes exactly one SIGTERM, arriving after startup. A signal during reconciliation is not modelled.
- `time.sleep(5)` (line 120) is recorded as a `Sleep(5)` call and never performed.
- Logging (lines 78-79, 92, 97, 113-117, 123-124, 132, 139, 146) is output only. The `%d` format applied to a text count is a logging error that the logging module reports and swallows, so it does not change control flow.
- The top-level handler (lines 152-158) prints the exception and re-raises it. The model keeps only the outcome `Raised`; Python's exit status for it is 1.
- Reading the namespace file fails in the model only when the file is missing. Other read errors (permissions, decoding) are not modelled.
- PyText.LowerChar lowers only ASCII letters, where Python's `lower()` covers all of Unicode. No other character lowers to a single letter of the five level names, so the resolved level is the same.
- Config.CountSetting accepts fewer spellings than Python's `int()`. It rejects signs, underscores and non-ASCII digits, so a negative count is an error rather than a negative number.
- Replica counts are unbounded `nat`s. The API's 32-bit bound and an unset `spec.replicas` are not modelled.

## Findings

| source | as written | input that shows it | evidently intended | confidence | as-written member | corrected member |
|---|---|---|---|---|---|---|
| src/main.py:49 | a set `LAZYMC_K8S_MIN_REPLICAS` stays a `str`, and `status.replicas == min_replica_count` (line 112) compares an `int` with it, which is never true | `LAZYMC_K8S_MIN_REPLICAS=0`, every confirmation read reports 0 replicas | the count is read as an integer; the first read confirms and the handler exits 0 | high that the comparison never holds, not executed; line 102 also sends the text as `spec.replicas`, which the cluster may reject, so the real outcome may be a raised patch rather than exit 1 after 120 s (the model lets every patch succeed) | Controller.HandleTerminationAsWritten | Controller.HandleTermination |
| src/main.py:50 | a set `LAZYMC_K8S_MAX_REPLICAS` stays a `str`, and `num_replicas != max_replica_count` (line 138) is always true, so the deployment is patched with the text even when already at the maximum | `LAZYMC_K8S_MAX_REPLICAS=1`, desired count already 1 | the count is read as an integer and no patch is sent | high that a patch is always attempted, not executed; the patch at line 141 carries the text, which the cluster may reject, so it may raise instead of succeeding (the model lets every patch succeed) | Controller.ReconcileAsWritten | Controller.Reconcile |
