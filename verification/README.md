# lmnradius, modelled in Dafny

Four machines of the repository, each as a model of the code and theorems about it.

**The lockfile gate** (`scripts/lockfile_gate.py`, `scripts/check-lockfiles.sh`). `parse` is a
line-by-line reader with one pending pin; `LockGrammar` says what a lockfile in uv's layout is,
without any reader, and `LockParse` relates the two. `PipReader` is the permissive reader the
script's docstring describes (every `str.splitlines` separator, leading white space, comments,
backslash continuations, options and URLs); `ShellReader` is the pair of column-1 readers of the
shell script. `Names`, `Freeze` and `Closure` are `canonical`, `cmd_freeze` and `cmd_closure`.

**The control plane** (`store.py`, `docker_service.py`, `reconciler.py`, `updater.py`). The state
is the record files, the rollback pointers, a small git (work tree, index, HEAD, log), the
containers with their rendered files and volumes, and the secret and certificate files. Every
step that can fail takes its outcome from an argument, so a theorem about all arguments is a
theorem about all failures. `StoreSpec`, `DockerSpec` and `ControlSpec` say on values what an
operation does; `Store`, `Docker`, `Reconciler` and `Updater` are the classes, proved to do exactly that;
`Runs` is about sequences of operations. `Polling` holds the two loops that watch a container.

**The rendered files** (`render.py`, the subnet validator of `models.py`). `Render` prints,
`Unlang` reads the printed policy back and evaluates it, `SsidPolicy` compares the verdict with
the list of SSIDs (VLAN attributes as in section 3.31 of RFC 3580). `Subnets` reads `clients.conf`
back and looks at the address ranges in it.

**Relocating a venv** (`debian/venv-relocate`). Files are rewritten in place and the RECORD index
has to stay true; `RecordsMatchIff` says when it does.

`Models` holds the validators of the fields these results depend on, `Accepted` and `RelocateCases`
what follows for accepted inputs. `Text`, `Decimals` and `Records` hold what all of these share. `dafny verify dfyconfig.toml` checks all of it.

## Where the code and what is said about it part

Each point has a theorem with the exact condition and, where an input shows it, that input.

- `put` and `delete` raise when git fails, say their docstrings; when `git rev-parse` itself does not
  run they return all the same (`PutAgreesIff` and `DeleteAgreesIff`; `SilentPut` and
  `SilentDelete`). A `delete` whose git step failed is not made good by a second one
  (`SecondDeleteHealsNothing`).
- A Docker error while the new container is watched is the one failure of `update` that is not
  rolled back (`WatchLost` in `UpdateTransaction`; `AcceptedButKept`).
- `hashes()` of the shell script is called exact once the gate has accepted a file. It is, if and
  only if no comment mentions `--hash=` and no pinned name ends in `--hash` (`HashesExactIff`;
  `AcceptedButMisread`).
- The mount paths and the paths in the environment cannot drift apart, says `_mounts`; they do if
  and only if `ldap_ca` names one of the three files of the EAP certificate (`AcceptedPaths`;
  `AcceptedButUnmounted`).
- `re.match` with `$` accepts a line feed at the end. An accepted list of SSIDs gives a readable
  policy if and only if no name and no group ends in one (`AcceptedPolicy`;
  `AcceptedButUnreadable`), and since `rollback` strips the image it reads, an update and a rollback
  are an identity if and only if the image does not (`AcceptedRollback`; `AcceptedButNotRestored`).
- The validators keep text from breaking the rendered files, says `models.py`; the subnet validator
  leaves the characters of an IPv6 zone to the address parser, which takes a line feed there. The
  rendered `clients.conf` declares one client per accepted subnet, none of them on loopback, if and
  only if no subnet holds a line feed (`ClientsReadBack` and `ClientsAvoidLoopback`;
  `AcceptedButNotReadBack`).
- RECORD rows of byte code, and of RECORDs without the build path, are not hashed again; a row of a
  RECORD with the build path is hashed from the text it has at that point of the loop; and a row that
  spells the build path names another file afterwards (`RecordsMatchIff`; `CompiledRowBreaks` and
  `RewrittenRowBreaks`).

## Model

| member | source | states |
|---|---|---|
| LockGrammar.PinMatcherExact | scripts/lockfile_gate.py:49 | the pin pattern matches a line with groups `name` and `version` iff both are well formed and the line is what uv prints for them |
| LockGrammar.HashMatcherExact | scripts/lockfile_gate.py:50 | the same for the hash pattern and its continuation mark |
| LockGrammar.ShapesExact | scripts/lockfile_gate.py:49-50 | which characters a name, a version and a hash can have, and where, by their ASCII codes |
| LockGrammar.CommentExact | scripts/lockfile_gate.py:51 | a comment is a hash mark behind any number of spaces, and what follows it |
| LockGrammar.ClassifyExact | scripts/lockfile_gate.py:106-127 | the tests the reader makes on a line and printing a line are inverse: a line has at most one reading |
| LockGrammar.LaidByKinds | scripts/lockfile_gate.py:31-34 | lines are laid out as given blanks, comments and pin blocks iff their classes are, one by one, those of the items |
| LockParse.AsciiLines | scripts/lockfile_gate.py:72-93 | one entry per line feed separated line, absent iff the line has a byte outside printable ASCII, and exactly one error for each absent line |
| LockParse.NonAsciiExact | scripts/lockfile_gate.py:77-92 | one error for each line with another byte, with its number, in order |
| LockParse.FeedAsWritten | scripts/lockfile_gate.py:102-134 | one step of the reader on a classified line is the sequence of tests the loop makes, error cases included |
| LockParse.Parse | scripts/lockfile_gate.py:96-137 | no error iff the file is a lockfile in uv's layout (printable ASCII; blanks, comments, complete blocks with at least one hash; distinct names), and then the pins are those of its blocks |
| LockParse.GateDecidesUvLayout | scripts/lockfile_gate.py:96-137 | soundness and completeness of the reader against the layout, for every byte string |
| LockParse.LayoutUnambiguous | scripts/lockfile_gate.py:96-137 | two decompositions of one file give the same pins, line numbers and hashes |
| LockParse.NamesSeen | scripts/lockfile_gate.py:100-134 | while no error is reported, `seen` holds exactly the names of the pins, which are distinct |
| LockParse.PrintParse | scripts/lockfile_gate.py:96-137 | printing the pins of an accepted file in uv's layout and parsing the result is accepted and gives the same names, versions and hashes in the same order |
| PipReader.SameLines | scripts/lockfile_gate.py:24-31 | on printable ASCII and line feeds, splitting at every `str.splitlines` separator gives the gate's lines |
| PipReader.EveryBreakSplits | scripts/lockfile_gate.py:24-31 | at each of the ten separators, given by their codes, a line of the permissive reader ends, once for a carriage return with its line feed |
| PipReader.OptionsAndUrlsNoticed | scripts/lockfile_gate.py:24-34 | the permissive reader takes a line that starts with a dash for an option and one whose first word holds a slash or an at sign for a URL, so that seeing none of them says something |
| PipReader.BlockRead | scripts/lockfile_gate.py:24-34 | the permissive reader takes an accepted block for one named requirement with exactly the block's hash options, neither a URL nor an option line |
| PipReader.TwoReadersAgree | scripts/lockfile_gate.py:24-137 | on every accepted file the permissive reader sees exactly one requirement per pin, in order, with that version and those hashes, and nothing else |
| ShellReader.PinsExact | scripts/check-lockfiles.sh:130-131 | on every accepted file `pins()` lists the parsed `name==version`, in order before its `sort` |
| ShellReader.HashesExactIff | scripts/check-lockfiles.sh:130-132 | on every accepted file `hashes()` contains every (pin, hash) pair with multiplicity, and is equal to them iff no comment contains `--hash=` and no pinned name ends in `--hash` |
| Names.CanonicalShape | scripts/lockfile_gate.py:67-69 | a normalised name has no upper case ASCII letter, only `-` as separator and no two in a row; a name of that shape, and no other, is left alone |
| Names.CanonicalIdempotent | scripts/lockfile_gate.py:67-69 | normalising twice is normalising once (the "Normalized Names" section of PEP 503), with ASCII lower-casing |
| Names.LowerCharExact | scripts/lockfile_gate.py:69 | `A` to `Z` go in order to `a` to `z`, every other character stays, and two characters are lowered alike iff they are the same letter |
| Names.CanonicalWeaves | scripts/lockfile_gate.py:67-69 | however a name is cut at its runs of separators, its normalised name is the pieces in lower case with single dashes between them |
| Names.CanonicalIff | scripts/lockfile_gate.py:67-69 | two names are normalised to the same iff they have the same pieces between runs of separators up to the case of letters |
| Freeze.FreezeMatcherExact | scripts/lockfile_gate.py:52 | the freeze pattern matches exactly `name==version` with a well formed name and version |
| Freeze.FreezeNameShape | scripts/lockfile_gate.py:52 | the same for a name in the freeze output |
| Freeze.CollectLocks | scripts/lockfile_gate.py:228-240 | the dictionary of all pins; no error iff every lock is accepted and no name is pinned again in a later one |
| Freeze.PopAll | scripts/lockfile_gate.py:241-262 | what is left after popping names, and an absence is reported iff a name is missing or repeated |
| Freeze.CollectFreeze | scripts/lockfile_gate.py:244-258 | the installed versions by canonical name; no error iff every line is a plain pin and no canonical name repeats |
| Freeze.SameEntries | scripts/lockfile_gate.py:228-269 | equality of the two remaining dictionaries is agreement of the entries of the files minus dropped and own names |
| Freeze.CmdFreeze | scripts/lockfile_gate.py:228-269 | exit status 0 iff all locks are accepted, no pin repeats across them, drops are pinned and own names installed (each once), freeze names are canonically distinct, and what remains is equal in names and versions |
| Freeze.LockedVenv | scripts/lockfile_gate.py:228-269 | what a success says of the files: apart from dropped and own names, a version of a name is pinned in some lockfile iff some freeze line has that version under a name that normalises to it |
| Freeze.LockedNamesCanonical | scripts/lockfile_gate.py:228-269 | on success every locked name is a fixed point of `canonical` |
| Closure.LeastIsReached | scripts/lockfile_gate.py:272-306 | the least set with the roots and closed under active requirements is exactly what a chain of active requirements from a root reaches |
| Closure.TargetsExact | scripts/lockfile_gate.py:292-296 | what a requirement puts on the list is its project as it is and with each of its extras, and nothing else |
| Closure.InstalledExact | scripts/lockfile_gate.py:275-281 | a name is in the dictionary iff some distribution has it, and the last of them counts |
| Closure.ListInstalled | scripts/lockfile_gate.py:275-281 | the installed distributions by canonical name; no error iff no canonical name is installed twice |
| Closure.CmdClosure | scripts/lockfile_gate.py:272-306 | the worklist terminates with the least closed set for every marker predicate, which is the only one, so the order of the list does not matter, and the exit status is 0 iff no name is installed twice and the installed names are exactly the reached ones |
| Store.Store.Get | controlplane/lmnradius/store.py:61-73 | an unsafe name raises, a missing or unreadable file is no record, an invalid record raises |
| Store.Store.List | controlplane/lmnradius/store.py:44-59 | the readable valid records in file order, others skipped |
| StoreSpec.GetOutcome | controlplane/lmnradius/store.py:39-73 | an empty name or one with a slash, a backslash or two dots raises; no file or an unreadable one is no record, a rejected one raises, and any other gives its record |
| StoreSpec.ListedOutcome | controlplane/lmnradius/store.py:44-59 | exactly the records are listed, each at its place in the order of the files |
| Store.Store.CommitFile | controlplane/lmnradius/store.py:107-112 | quiet outside a repository or with nothing staged for the file, else a commit of the file's work tree content or a raise |
| Store.Store.Put | controlplane/lmnradius/store.py:75-90 | the whole new state and outcome for every git answer is that of the specification the next rows are about |
| Store.Store.Delete | controlplane/lmnradius/store.py:92-105 | the same for removal, the rollback pointer going first |
| StoreSpec.PutOutcome | controlplane/lmnradius/store.py:75-112 | for every answer of git and every state: when a put returns, the error when it does not, and the work tree, index, HEAD and log it leaves for its file |
| StoreSpec.DeleteOutcome | controlplane/lmnradius/store.py:92-112 | the same for a delete, which returns without asking git when there is no file |
| StoreSpec.PutEffect | controlplane/lmnradius/store.py:75-112 | a put writes its record whatever git does, touches no pointer and no other file in work tree, index or HEAD even when staged, and adds at most one commit, of this file |
| StoreSpec.PutAgreesIff | controlplane/lmnradius/store.py:75-112 | when a put that returned committed, and when it leaves HEAD, index and work tree equal for its file, both as an iff over the answers of git and the state before |
| StoreSpec.PutAgrees | controlplane/lmnradius/store.py:75-112 | with its repository queries answered, a put that returns leaves the three equal and adds one commit iff HEAD's content differed |
| StoreSpec.SilentPut | controlplane/lmnradius/store.py:114-125 | a concrete put inside a repository that returns without any commit |
| StoreSpec.PutRepairs | controlplane/lmnradius/store.py:75-112 | from any state, whatever was left staged, a put on which git works returns and restores the agreement for that name |
| StoreSpec.DeleteEffect | controlplane/lmnradius/store.py:92-112 | a delete removes record and pointer whatever git does, changes nothing else, and leaves git alone when there is no file |
| StoreSpec.DeleteAgreesIff | controlplane/lmnradius/store.py:92-112 | when a delete that returned committed, and when it leaves HEAD, index and work tree without the file, both as an iff over the answers of git and the state before |
| StoreSpec.DeleteAgrees | controlplane/lmnradius/store.py:92-112 | with its repository queries answered, a delete of a record that returns leaves HEAD, index and work tree without the file |
| StoreSpec.SilentDelete | controlplane/lmnradius/store.py:114-150 | a concrete delete inside a repository that returns while HEAD keeps the record |
| StoreSpec.SecondDeleteHealsNothing | controlplane/lmnradius/store.py:92-112 | whatever git made of a delete, a second one returns and changes nothing at all; after one that raised HEAD holds what it held |
| Docker.DockerService.RenderInstance | controlplane/lmnradius/docker_service.py:268-290 | both files or neither: a missing or unusable secret raises with the rendered files as before |
| Docker.DockerService.Mounts | controlplane/lmnradius/docker_service.py:340-382 | the mounts, or a raise for the first missing file in the order secrets, EAP files, DC CA |
| Docker.DockerService.EnsureRunning | controlplane/lmnradius/docker_service.py:294-338 | the whole new Docker state and outcome, the settling watch over its polls included, is that of the specification the next rows are about |
| Docker.DockerService.Remove | controlplane/lmnradius/docker_service.py:437-475 | the same for removal |
| DockerSpec.MountsOutcome | controlplane/lmnradius/docker_service.py:340-382 | with and without the EAP files required: it returns iff what it insists on is there, mounts exactly the files that are there, each at its place, and never one that is missing |
| DockerSpec.EnsureStarts | controlplane/lmnradius/docker_service.py:218-338 | a start that returns has left a running container with the image and host name of the record, exactly the variables of the source, each with its own field (`LDAP_CA` only with a CA, `HOST_IP` only with an address), exactly the mounts of the source at their places, only the state volume writable, beside files rendered from the record and the secret in its file |
| DockerSpec.EnsureFailsClosed | controlplane/lmnradius/docker_service.py:294-338 | a missing or unusable secret, certificate or CA file raises with the container map unchanged |
| DockerSpec.EnsureReturnsIff | controlplane/lmnradius/docker_service.py:294-338 | the exact condition under which a start returns: files ready, every Docker step answered, and the poll that ends the settling watch not lost; a refused pull is not part of it |
| DockerSpec.EnsureRaises | controlplane/lmnradius/docker_service.py:294-338 | what a start that raises says and leaves behind, by the step at which it raised: the first thing wrong with the files, in the order of the source, with the containers as before; then the old container, none, one that does not run, or one that runs |
| DockerSpec.EnsureElsewhere | controlplane/lmnradius/docker_service.py:294-338 | containers, rendered files and state volumes of other instances stay the same on every path |
| DockerSpec.EveryPathMountedIff | controlplane/lmnradius/docker_service.py:340-382 | in the container of a record every path in the environment is the end of a mount iff the DC CA is not one of the three EAP files |
| DockerSpec.RemoveReturnsIff | controlplane/lmnradius/docker_service.py:437-510 | the exact answers with which a removal returns, a container that cannot be stopped and a leave that fails not being in its way; then container, rendered files and state volume are gone and the leave is reported as unnecessary, not tried, refused or done; other instances stay on every path |
| DockerSpec.RemoveRaises | controlplane/lmnradius/docker_service.py:437-475 | a removal that raises leaves rendered files and volume, and the container too, perhaps stopped, unless only the volume could not be removed |
| Reconciler.Reconciler.Apply | controlplane/lmnradius/reconciler.py:23-26 | store first, container second, nothing of Docker touched when the store raises |
| Reconciler.Reconciler.Remove | controlplane/lmnradius/reconciler.py:28-38 | container first, record second; a raise of the first keeps the record |
| Reconciler.Reconciler.ReconcileAll | controlplane/lmnradius/reconciler.py:40-45 | the listed instances in order up to the first failure, the store unchanged |
| Runs.ReconcileStarts | controlplane/lmnradius/reconciler.py:40-45 | in every reachable state it leaves the store alone; it returns iff every listed instance starts, judged by the state before the call, and then each runs in a container of its stored record; otherwise those before the first that does not start run, and the rest is not touched |
| ControlSpec.ApplyEffect | controlplane/lmnradius/reconciler.py:23-26 | an apply stores the record on every path, changes nothing of another instance, and when it returns the container was started from that record |
| ControlSpec.ApplyOutcome | controlplane/lmnradius/reconciler.py:23-26 | an apply returns iff the change log takes the record and the start returns; a store that refuses ends it before Docker is touched; and what a start that raises leaves |
| Updater.Updater.Update | controlplane/lmnradius/updater.py:49-94 | the class does what the specification says, with the health watch's report being what the polls amount to |
| Updater.Updater.UpdateAll | controlplane/lmnradius/updater.py:96-113 | the batch over the listed instances, each with its own answers and the report of its own polls |
| Updater.Updater.Rollback | controlplane/lmnradius/updater.py:115-126 | unknown name and missing pointer raise; otherwise the record with the stripped image of `.prev` is applied |
| ControlSpec.UpdateTransaction | controlplane/lmnradius/updater.py:49-94 | for every outcome of git, Docker and polling: new image in the record iff its container was started and not found unhealthy, else the previous one even when restoring raises; all other fields, records, pointers and containers unchanged; `.prev` names the previous image; it returns iff the new container turned healthy or the previous record was applied again, says which, and then the container was started from exactly the stored record |
| ControlSpec.UnknownName | controlplane/lmnradius/updater.py:49-53 | an update or a rollback of a name without a readable record changes nothing and says why |
| ControlSpec.UpdateMissingFile | controlplane/lmnradius/updater.py:59-69 | with a missing file the update raises, the old container is untouched and the record is back at the previous image |
| ControlSpec.ListedReadFrom | controlplane/lmnradius/store.py:44-59 | what the store lists are its records, each once when no file is listed twice |
| Runs.BatchReports | controlplane/lmnradius/updater.py:96-113 | in every reachable state `update_all` gives one result per listed instance in list order whatever fails; every image ends as its original or the target, updated entries hold the target, rolled back ones the original, failed ones the target iff their health watch was lost; an entry is updated iff its container started and turned healthy, and failed, with its error, iff its update raised; skipped ones and all names not listed are not touched |
| Runs.SecondBatchSkips | controlplane/lmnradius/updater.py:96-113 | a second `update_all`, whatever it lists, skips without touching it every instance the first one updated or skipped |
| ControlSpec.RollbackEffect | controlplane/lmnradius/updater.py:115-126 | the record keeps everything but the image, `.prev` stays, nothing else changes, and a rollback that returns has restarted from that record |
| ControlSpec.RollbackReturnsIff | controlplane/lmnradius/updater.py:115-126 | a rollback of a record raises without a pointer and changes nothing; with one it returns iff the record with that image is applied |
| ControlSpec.RemoveOutcome | controlplane/lmnradius/reconciler.py:28-38 | every outcome of a removal: it returns iff the container is removed and the change log takes the deletion, and then container, rendered files, volume, record and pointer are gone; a failure of the first keeps the record, and a refused change log does not bring anything back; other instances are not touched |
| Text.StripExact | controlplane/lmnradius/updater.py:122 | stripping removes the white space at both ends and nothing else |
| ControlSpec.UpdateThenRollback | controlplane/lmnradius/updater.py:49-94 | an update and a rollback restore the record iff its image has no white space at its ends |
| Runs.StepIsMicros | controlplane/lmnradius/updater.py:49-126 | whatever fails, every operation changes the store by a sequence of puts, deletes and pointers set to the image the record has at that moment |
| Runs.ReachableSound | controlplane/lmnradius/updater.py:45-126 | in every state reachable by any operations with any failures each record is stored under its own name, every pointer belongs to a record, and it names an image that record carried since it was last created |
| Runs.LogRebuildsRecords | controlplane/lmnradius/store.py:75-112 | over runs without git failures HEAD, index and records are equal in every reachable state, and replaying the log rebuilds the records |
| Runs.RollbackAfterWork | controlplane/lmnradius/updater.py:49-126 | after a successful update and any later operations on other names, image-keeping patches, reconciliations and batches that skip or do not list the record, a rollback stores the earlier image stripped (exactly that image iff it has no white space at its ends), keeps those patches, and a second one changes no record |
| Polling.WaitHealthy | controlplane/lmnradius/updater.py:128-145 | terminates within a number of polls set by timeout and interval; healthy iff some poll saw it before any failing poll and before the deadline, and that poll is its last |
| Polling.WaitSettled | controlplane/lmnradius/docker_service.py:404-417 | terminates within the same bound with the first poll that is lost, decided or past the deadline, and returns what that poll saw |
| Polling.ViewExact | controlplane/lmnradius/docker_service.py:89-117 | the view of a container (not running while it is being restarted; crash-looping when it is being restarted, or was and is not healthy), and which answers of Docker count as healthy, as failed and as settled |
| Polling.ReportsAnswers | controlplane/lmnradius/updater.py:128-145 | by the answers of Docker: the watch turned healthy iff Docker said so before anything decisive and in time, and broke iff Docker did not answer then |
| Polling.SettlesAnswers | controlplane/lmnradius/docker_service.py:404-417 | the settling watch fails iff Docker does not answer before anything is settled and in time |
| Polling.CrashLoopFails | controlplane/lmnradius/docker_service.py:89-117 | a container that is restarting, or was restarted and is not healthy, ends the watch for health at that poll and without success |
| Render.EscapeIsMap | controlplane/lmnradius/render.py:34-38 | the two replacing passes are one map over the characters |
| SsidPolicy.EscapeInjective | controlplane/lmnradius/render.py:34-38 | different strings are escaped differently |
| SsidPolicy.ScanEscaped | controlplane/lmnradius/render.py:34-38 | scanning from the opening quote stops exactly at the closing quote and gives the string back, for every string |
| Render.RenderSsidPolicy | controlplane/lmnradius/render.py:68-106 | the loop's text is the text the next rows are about |
| SsidPolicy.PolicyDecides | controlplane/lmnradius/render.py:68-106 | for every non-empty list without line feeds, reading the text back and evaluating it on any SSID and group set gives: the first entry of that name accepts with exactly its VLAN iff its group is held, everything else is rejected |
| SsidPolicy.PolicyAnswers | controlplane/lmnradius/render.py:68-106 | the same in terms of the list alone: accepted iff the first entry of that name has a group that is held, and then with no attributes, or with `VLAN`, `IEEE-802` and the numeral of that entry's VLAN |
| SsidPolicy.PolicyReadableIff | controlplane/lmnradius/render.py:68-106 | the text of a non-empty list can be read back iff no name and no group holds a line feed |
| Models.SsidFeeds | controlplane/lmnradius/models.py:30-46 | a name or group that `re.match` accepts with its pattern holds a line feed iff it ends in one |
| Models.LengthsAccepted | controlplane/lmnradius/models.py:20-46 | of texts of letters and digits the validators of names, SSIDs, secret files and groups accept those of at most 31, 32, 63 and 64 characters |
| Models.CharsAccepted | controlplane/lmnradius/models.py:20-46 | the characters they accept after a letter, the line feed among them, and at the start |
| Models.ImageNamesVersion | controlplane/lmnradius/models.py:47-51 | an accepted image has a tag or a digest |
| Models.TagsAccepted | controlplane/lmnradius/models.py:49-51 | of tags of letters and digits those of at most 128 characters are accepted |
| Models.DigestsAccepted | controlplane/lmnradius/models.py:49-51 | a digest is accepted iff it has 64 small hexadecimal digits |
| Models.ImageStripped | controlplane/lmnradius/models.py:49-51 | an accepted image has white space at its ends iff it ends in a line feed |
| Models.SecretNoSlash | controlplane/lmnradius/models.py:44 | an accepted secret or CA file name holds no path separator |
| Models.NameSafe | controlplane/lmnradius/models.py:20 | an accepted instance name passes the store's guard |
| Accepted.AcceptedPolicy | controlplane/lmnradius/render.py:68-106 | the policy of an accepted list can be read back iff no name and no group ends in a line feed, and then answers every request as `PolicyAnswers` says |
| Accepted.AcceptedButUnreadable | controlplane/lmnradius/models.py:108-120 | an accepted list, with the name `a` and a line feed, whose policy cannot be read |
| Accepted.AcceptedRollback | controlplane/lmnradius/updater.py:49-126 | with an accepted image an update and a rollback restore the record iff the image does not end in a line feed |
| Accepted.AcceptedButNotRestored | controlplane/lmnradius/updater.py:115-126 | an accepted record that they do not restore, whatever git and Docker answer |
| Accepted.AcceptedButKept | controlplane/lmnradius/updater.py:59-84 | an accepted record, and answers with which an update raises and the new image stays stored: the start succeeds and the first poll of the health watch is lost |
| Accepted.AcceptedPaths | controlplane/lmnradius/docker_service.py:340-382 | with accepted fields every path in the environment of a started container is the end of a mount iff `ldap_ca` is none of the three EAP files |
| Accepted.AcceptedButUnmounted | controlplane/lmnradius/docker_service.py:340-382 | an accepted record with `ldap_ca` `ca.pem`, all its files there, whose start returns and whose container misses a mount |
| Accepted.StartedAnswers | controlplane/lmnradius/docker_service.py:268-338 | whenever an instance of an accepted record runs, the policy beside its container is readable iff no name and no group ends in a line feed, and answers as `PolicyAnswers` says |
| Accepted.StartedServes | controlplane/lmnradius/docker_service.py:268-338 | and its clients file declares the subnets of the record, none on loopback, with the secret in the record's file, if no subnet holds a line feed |
| Accepted.AcceptedButMisread | scripts/check-lockfiles.sh:130-132 | a lockfile that the gate accepts, pinning `a--hash`, which `hashes()` misreads |
| Render.RenderClientsConf | controlplane/lmnradius/render.py:41-65 | the loop's text is the text the next rows are about, an empty or multi-line secret raises |
| Subnets.OverlapsIffShare | controlplane/lmnradius/models.py:213 | the overlap test is true iff the two blocks share an address |
| Subnets.OverlapsIffNested | controlplane/lmnradius/models.py:213 | it is true iff one block contains the other's network address, and iff one contains the other whole |
| Subnets.LoopbackTest | controlplane/lmnradius/models.py:59-60 | the validator's test is true iff the block holds any loopback address of its version |
| Subnets.CheckClientSubnets | controlplane/lmnradius/models.py:202-220 | accepted iff the list is not empty and every entry is a network without a loopback address; otherwise the first offending entry is named, with its reason |
| Subnets.ClientsReadBack | controlplane/lmnradius/render.py:41-65 | a file is rendered iff the secret is a non-empty single line, and reading it back gives one client per subnet, in order, with all five settings, iff no subnet holds a line feed |
| Subnets.AcceptedButNotReadBack | controlplane/lmnradius/models.py:202-220 | a text with a line feed in its IPv6 zone whose file cannot be read, whenever the address parser passes it as a network off loopback |
| Subnets.ClientsAvoidLoopback | controlplane/lmnradius/models.py:202-220 | for every list whose entries pass the validator's overlap test a file is rendered, what is to be declared is one client per subnet under the names `ap-1`, `ap-2` and so on with no range holding a loopback address of either version, and the file declares exactly this iff no subnet holds a line feed |
| Decimals.DecimalInjective | controlplane/lmnradius/render.py:90 | different numbers print differently, so a VLAN is told apart by its text |
| Decimals.DecimalWrites | controlplane/lmnradius/render.py:90 | a number is written as its numeral: digits of that value without a leading zero, behind a minus sign if it is negative |
| Decimals.NumeralUnique | controlplane/lmnradius/render.py:90 | a number has one numeral |
| Relocate.InterpreterExact | debian/venv-relocate:34 | the trampoline matcher finds the quoted interpreter if there is one, else the plain one, and nothing else |
| Relocate.ReplaceAllExact | debian/venv-relocate:79 | replacing gives a text iff the old one can be cut into parts at the occurrences met from the left and the new one is the same parts joined by the installed path |
| Relocate.TrampolineExact | debian/venv-relocate:34 | the trampoline is found iff the file starts with its text around a quoted interpreter, or else around one without white space |
| Relocate.RewrittenExact | debian/venv-relocate:72-79 | the one text a file is rewritten to: a trampoline turned into `#!`, interpreter and line feed, then every occurrence replaced |
| Relocate.Venv.RewriteText | debian/venv-relocate:67-81 | the files after the first loop, the changed set and the byte code files |
| Relocate.Venv.Rehash | debian/venv-relocate:91-104 | each RECORD in turn, its rows hashed from the files as they are by then, written with the line terminator it had |
| Relocate.Venv.Relocate | debian/venv-relocate:64-104 | the three loops together leave the tree the next rows are about |
| Relocate.RelocatedAtOnce | debian/venv-relocate:91-104 | the rows of a RECORD end as those of its rewritten text hashed from the tree as it was when the RECORD was met last; if no hashed row names a RECORD that holds the build path, that is the tree before the third loop, whatever the order of the RECORDs |
| Relocate.WrittenAtOnce | debian/venv-relocate:91-104 | under that condition the text a RECORD listed once is written with is known before the third loop |
| Relocate.RecordsMatchIff | debian/venv-relocate:64-104 | in any such tree all hashed rows match afterwards iff every hashed row of the rewritten RECORD texts names a file and, by what is known before the call: is hashed again, in time when the file is a RECORD that still changes, or says the hash and size of the unchanged file, of the byte code to be compiled, or of the RECORD text to be written |
| Relocate.RelocationKeepsRecords | debian/venv-relocate:64-104 | if all hashed rows matched, none names byte code or a RECORD and no RECORD holds the build path, all rows match afterwards, through whatever links they reach their file |
| Relocate.OthersIdentical | debian/venv-relocate:64-104 | in any tree a file without the build path that is no byte code and no RECORD is byte for byte the same |
| Relocate.FilesAfter | debian/venv-relocate:64-104 | what becomes of every file that is no RECORD: byte code is compiled, a walked file with the build path is rewritten as `RewrittenExact` says, every other file stays |
| Relocate.RecordsAfter | debian/venv-relocate:58-61 | no file appears or goes, and a RECORD listed once is written with carriage returns at its line ends iff it had any |
| RelocateCases.CompiledRowBreaks | debian/venv-relocate:82-104 | a concrete tree whose rows all matched and whose hashed row of a byte code file does not match afterwards |
| RelocateCases.RewrittenRowBreaks | debian/venv-relocate:68-104 | a concrete tree whose rows all matched, none of byte code or a RECORD, and whose row that spells the build path names no file afterwards |

## Left out

- pip: it is no part of the repository. `PipReader` follows the script's docstring; decoding (byte order marks, coding comments) and `${VAR}` expansion are not modelled, and a comment line is never continued, as in pip.
- The identity of the pending `Pin` object in `parse`: pins are values here and the pending one is the last of the list.
- Error texts: errors are values that carry the data of the message. The order of the last messages of `cmd_freeze` (sorted by name in the source) is left open.
- Names.CanonicalShape: lower-casing is that of ASCII letters; other letters, which lockfiles cannot hold but option values and metadata could, are left as they are.
- Names.CanonicalIdempotent: the same.
- Names.CanonicalIff: the same.
- Marker evaluation: any predicate on marker and extra. The set of extras asked for is a list in the model.
- `cmd_lint`, `cmd_pypi`, `cmd_only`, `published`, `fetch_json` and the uv resolution of the shell script: reports and answers from outside.
- Locale of `grep`, `awk` and `sort`: accepted files are printable ASCII, and what is compared is a multiset.
- YAML and pydantic: a record file holds a record, is unreadable, or holds data the model rejects; writing and reading a record gives it back.
- Store.Store.List: the order of the files is an argument, and the theorems hold for every order.
- File system failures while writing records, pointers and rendered files, and secret files that do not decode as UTF-8.
- Newline translation inside a rollback pointer: a carriage return within an image name is kept by the model.
- Symbolic links in the secrets, certificates and render directories, and path names that leave them.
- Docker itself: pull, look-up, run, stop, remove and the one-off leave run are answers; the fixed options of the run (hardening, ports, restart policy) are not part of a container's value.
- Docker.DockerService.Mounts: the label of a missing file and the order of checking and mounting within the call are not visible in the result.
- Runs.RollbackAfterWork: a later batch that lists the record and moves it to another image is not among the operations, because it changes the image that is rolled back.
- Concurrency: the code takes no locks; operations follow each other.
- The clock: integers that grow by at least one interval of at least one unit per poll. Answers of later polls are given as a function, which is how any sequence of answers is meant.
- The journal of `StoreSpec` is not in the source; it records writes so that "since it was last created" can be said.
- FreeRADIUS beyond the printed fragment: `%` expansion inside double quotes, regular expressions, other sections.
- SsidPolicy.PolicyDecides: texts without a line feed in names and groups, the exact condition being `PolicyReadableIff`, and `AcceptedPolicy` for accepted lists.
- The validators of realm, workgroup, host name, LDAP address and DNs, and pydantic's own type checks.
- The parser of addresses: a function that gives version, address and prefix length of a text; FreeRADIUS is taken to read a range as it does.
- Subnets.ClientsReadBack: its reader takes a value to the end of the line, while FreeRADIUS ends a bare value at white space or a `#`; what a secret with those characters means to FreeRADIUS is not modelled. A subnet with a line feed is shown not to be read back as declared; what other clients such a file may declare is not described.
- Hard links and RECORD rows with fewer than three columns; CSV, SHA-256, link resolution and the compiler are functions of the environment, and CSV reads back what it wrote with either line terminator.
- Removal of every occurrence of the build path: one pass of replacing does not promise it, `--verify` looks for it. The other checks of `--verify` and `pip check` are not modelled.
- `ca.py`, `security.py`, `diagnostics.py`, the API, the command line, the image's scripts and the packaging scripts: plumbing around external programs, or short case splits.
